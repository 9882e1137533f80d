/** What translating a packet keeps: checksum residues, hence validity, and every other byte. */
module PacketLaws {
  import opened Net
  import opened Checksum
  import opened Packet

  // ----- sums of edited blocks -----

  lemma {:induction false} WordAt(p: seq<byte>, i: nat)
    requires i + 2 <= |p|
    ensures WordSum(p[i..i + 2]) == Get16(p, i)
  {
    assert p[i..i + 2][2..] == [];
  }

  lemma {:induction false} PutSum(p: seq<byte>, i: nat, v: uint16)
    requires i + 2 <= |p| && i % 2 == 0
    ensures WordSum(Put16(p, i, v)) == WordSum(p) - Get16(p, i) + v
  {
    SpliceSum(p, i, Enc16(v));
    WordAt(p, i);
  }

  lemma {:induction false} SumPositive(b: seq<byte>, i: nat)
    requires i < |b| && b[i] != 0
    ensures WordSum(b) > 0
  {
    if i >= 2 { SumPositive(b[2..], i - 2); }
  }

  /** Two blocks with one residue and one verdict: valid stays valid, corrupt stays corrupt. */
  predicate SameVerdict(a: seq<byte>, b: seq<byte>) {
    Cong(WordSum(a), WordSum(b)) && (Valid(a) <==> Valid(b))
  }

  /** A kept residue keeps the verdict when neither block is all zeros. */
  lemma {:induction false} VerdictKept(a: seq<byte>, b: seq<byte>, i: nat, j: nat)
    requires Cong(WordSum(a), WordSum(b))
    requires i < |a| && a[i] != 0 && j < |b| && b[j] != 0
    ensures SameVerdict(a, b)
  {
    SumPositive(a, i);
    SumPositive(b, j);
    NormDetermined(WordSum(a), WordSum(b));
  }

  /** A block that lost o and c and gained u and r keeps its residue when r + u balances c + o. */
  lemma {:induction false} Balance(now: int, was: int, r: int, u: int, c: int, o: int)
    requires now == was - o - c + u + r
    requires Cong(r + u, c + o)
    ensures Cong(now, was)
  {
    CongSum(r + u, c + o, was - o - c, was - o - c);
  }

  /** Decoding a word and encoding it again. */
  lemma {:induction false} WordDecodes(p: seq<byte>, i: nat)
    requires i + 2 <= |p|
    ensures Enc16(Get16(p, i)) == p[i..i + 2]
  {
    hide Enc16, WordSum;
    var b := Enc16(Get16(p, i));
    OneSplit(b[0], b[1], p[i], p[i + 1]);
    assert b == [p[i], p[i + 1]] == p[i..i + 2];
  }

  lemma {:induction false} OneSplit(a: byte, b: byte, c: byte, d: byte)
    requires Word(a, b) == Word(c, d)
    ensures a == c && b == d
  {
  }

  /** The test of the code reads the offset, whatever the flags. */
  lemma {:induction false} LaterFragmentIff(p: seq<byte>)
    requires |p| >= 20
    ensures LaterFragment(p) <==> FragmentOffset(p) != 0
  {
    var flags: int, low: int := p[6] / 0x20, p[6] % 0x20;
    assert Get16(p, 6) == 0x2000 * flags + (0x100 * low + p[7]);
  }

  // ----- the IPv4 header -----

  lemma {:induction false} FixHeaderBytes(h: seq<byte>, updated: seq<byte>)
    requires |h| >= 20 && |updated| == 8
    ensures var r := FixHeader(h, updated);
      && Pair(r) == updated && r[..10] == h[..10] && r[20..] == h[20..]
      && Get16(r, 10) == Rfc1624(Get16(h, 10), Pair(h), updated)
  {
  }

  lemma {:induction false} FixHeaderSum(h: seq<byte>, updated: seq<byte>)
    requires |h| >= 20 && |updated| == 8
    ensures WordSum(FixHeader(h, updated)) == WordSum(h) - WordSum(Pair(h)) - Get16(h, 10) + WordSum(updated)
                                            + Rfc1624(Get16(h, 10), Pair(h), updated)
  {
    var s := Splice(h, 12, updated);
    SpliceSum(h, 12, updated);
    assert s[10] == h[10] && s[11] == h[11];
    PutSum(s, 10, Rfc1624(Get16(h, 10), Pair(h), updated));
  }

  lemma {:induction false} FixHeaderCongruent(h: seq<byte>, updated: seq<byte>)
    requires |h| >= 20 && |updated| == 8
    ensures Cong(WordSum(FixHeader(h, updated)), WordSum(h))
  {
    var now: int, was: int := WordSum(FixHeader(h, updated)), WordSum(h);
    var cs: int, r: int := Get16(h, 10), Rfc1624(Get16(h, 10), Pair(h), updated);
    var u: int, o: int := WordSum(updated), WordSum(Pair(h));
    assert now == was - o - cs + u + r by { FixHeaderSum(h, updated); }
    assert Cong(r + u, cs + o) by { UpdateCongruent(Get16(h, 10), Pair(h), updated); }
    Balance(now, was, r, u, cs, o);
  }

  // ----- the transport segment under its pseudo-header -----

  /** What a TCP or UDP checksum covers: the address pair, the protocol, the length, the segment. */
  function Covered(pair: seq<byte>, proto: byte, l4: seq<byte>): seq<byte> {
    pair + [0, proto] + Enc16(|l4| % 0x1_0000) + l4
  }

  lemma {:induction false} CoveredSum(pair: seq<byte>, proto: byte, l4: seq<byte>)
    requires |pair| == 8
    ensures WordSum(Covered(pair, proto, l4))
         == WordSum(pair) + WordSum([0, proto] + Enc16(|l4| % 0x1_0000)) + WordSum(l4)
  {
    var mid := [0, proto] + Enc16(|l4| % 0x1_0000);
    assert Covered(pair, proto, l4) == pair + mid + l4;
    Sum3(pair, mid, l4);
  }

  /** Where the checksum field of a transport header sits, when the segment is long enough to hold it. */
  function ChecksumAt(proto: byte): nat { if proto == TCP then 16 else 6 }
  function ShortestFixable(proto: byte): nat { if proto == TCP then 18 else 8 }

  /** The segment carries a checksum: the field is there and, for UDP, in use. */
  predicate Checked(proto: byte, l4: seq<byte>) {
    && (proto == TCP || proto == UDP)
    && |l4| >= ShortestFixable(proto)
    && (proto == UDP ==> Get16(l4, 6) != 0)
  }

  lemma {:induction false} FixTransportCongruent(proto: byte, l4: seq<byte>, old_: seq<byte>, updated: seq<byte>,
                                                 m: map<Addr, Addr>)
    requires |old_| == |updated| == 8 && Checked(proto, l4)
    ensures Cong(WordSum(Covered(updated, proto, FixTransport(proto, l4, old_, updated, m))),
                 WordSum(Covered(old_, proto, l4)))
  {
    var at := ChecksumAt(proto);
    var cs := Get16(l4, at);
    var r := Rfc1624(cs, old_, updated);
    var put := if proto == UDP then UdpForm(r) else r;
    var fixed := FixTransport(proto, l4, old_, updated, m);
    assert fixed == Put16(l4, at, put);
    PutSum(l4, at, put);
    CoveredSum(old_, proto, l4);
    CoveredSum(updated, proto, fixed);
    UpdateCongruent(cs, old_, updated);
    UdpFormBalance(r, put, WordSum(updated), cs + WordSum(old_));
    Balance(WordSum(Covered(updated, proto, fixed)), WordSum(Covered(old_, proto, l4)), put, WordSum(updated), cs,
        WordSum(old_));
  }

  lemma {:induction false} UdpFormBalance(r: uint16, put: uint16, u: int, was: int)
    requires put == r || put == UdpForm(r)
    requires Cong(r + u, was)
    ensures Cong(put + u, was)
  {
    CongByQuotient(put, r, if put == r then 0 else 1);
    CongSum(put, r, r + u, was);
    assert (put + (r + u)) - (r + was) == put + u - was;
  }

  // ----- an ICMP error and the header it quotes -----

  lemma {:induction false} RewriteQuoteBytes(icmp: seq<byte>, updated: seq<byte>)
    requires Quotes(icmp) && |updated| == 8
    ensures var r := RewriteQuote(icmp, updated);
      && r[..2] == icmp[..2] && r[4..8] == icmp[4..8]
      && Get16(r, 2) == QuoteChecksum(icmp, updated)
      && r[8..] == if HeaderOk(icmp[8..]) then FixHeader(icmp[8..], updated) else Splice(icmp[8..], 12, updated)
  {
  }

  /** The sum of a rewritten error, piece by piece. */
  lemma {:induction false} RewriteQuoteSum(icmp: seq<byte>, updated: seq<byte>)
    requires Quotes(icmp) && |updated| == 8
    ensures var inner := icmp[8..];
      var was := WordSum(icmp) - Get16(icmp, 2) - WordSum(Pair(inner));
      WordSum(RewriteQuote(icmp, updated))
      == was + WordSum(updated) + Get16(RewriteQuote(icmp, updated), 2)
       + if HeaderOk(inner) then Rfc1624(Get16(inner, 10), Pair(inner), updated) - Get16(inner, 10) else 0
  {
    var head, inner := icmp[..8], icmp[8..];
    assert icmp == head + inner;
    WordSumConcat(head, inner);
    var cs := Get16(RewriteQuote(icmp, updated), 2);
    PutSum(head, 2, cs);
    if HeaderOk(inner) {
      assert RewriteQuote(icmp, updated) == Put16(head, 2, cs) + FixHeader(inner, updated);
      WordSumConcat(Put16(head, 2, cs), FixHeader(inner, updated));
      FixHeaderSum(inner, updated);
    } else {
      assert RewriteQuote(icmp, updated) == Put16(head, 2, cs) + Splice(inner, 12, updated);
      WordSumConcat(Put16(head, 2, cs), Splice(inner, 12, updated));
      SpliceSum(inner, 12, updated);
    }
  }

  /** The checksum an ICMP error ends up with. */
  function QuoteChecksum(icmp: seq<byte>, updated: seq<byte>): uint16
    requires Quotes(icmp) && |updated| == 8
  {
    var inner := icmp[8..];
    var cs := Rfc1624(Get16(icmp, 2), Pair(inner), updated);
    if HeaderOk(inner)
    then Rfc1624(cs, Enc16(Get16(inner, 10)), Enc16(Rfc1624(Get16(inner, 10), Pair(inner), updated)))
    else cs
  }

  /** The checksum of the error, which covers the quote, ends up congruent even though the quote's
      own checksum changed under it, and also when the quoted header is cut short. */
  lemma {:induction false} RewriteQuoteCongruent(icmp: seq<byte>, updated: seq<byte>)
    requires Quotes(icmp) && |updated| == 8
    ensures Cong(WordSum(RewriteQuote(icmp, updated)), WordSum(icmp))
  {
    hide Rfc1624, RewriteQuote, FixHeader, WordSum, Cong, Splice;
    var inner := icmp[8..];
    var old_ := Pair(inner);
    var cs := Get16(icmp, 2);
    var c1, c2 := Rfc1624(cs, old_, updated), QuoteChecksum(icmp, updated);
    var now, was := WordSum(RewriteQuote(icmp, updated)), WordSum(icmp);
    RewriteQuoteSum(icmp, updated);
    RewriteQuoteBytes(icmp, updated);
    UpdateCongruent(cs, old_, updated);
    if HeaderOk(inner) {
      var before := Get16(inner, 10);
      var after := Rfc1624(before, old_, updated);
      UpdateCongruent(c1, Enc16(before), Enc16(after));
      NestedBalance(now, was, c1, c2, cs, before, after, WordSum(old_), WordSum(updated));
    } else {
      Balance(now, was, c1, WordSum(updated), cs, WordSum(old_));
    }
  }

  lemma {:induction false} NestedBalance(now: int, was: int, c1: int, c2: int, cs: int, before: int, after: int,
                                         o: int, u: int)
    requires now == was - cs - o + u + c2 + (after - before)
    requires Cong(c1 + u, cs + o) && Cong(c2 + after, c1 + before)
    ensures Cong(now, was)
  {
    CongSum(c1 + u, cs + o, c2 + after, c1 + before);
    Balance(now, was, c1 + u, c2 + after, c1 + before, cs + o);
  }
}
