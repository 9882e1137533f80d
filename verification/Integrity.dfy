/** The translator's promises about every packet it accepts. */
module Integrity {
  import opened Net
  import opened Checksum
  import opened Packet
  import opened PacketLaws

  /** An accepted packet, part by part. */
  lemma {:induction false} Anatomy(p: seq<byte>, m: map<Addr, Addr>)
    requires Rewrite(p, m).Some?
    ensures HeaderOk(p) && NewPair(p, m).Some?
    ensures var q := Rewrite(p, m).value;
      var updated := NewPair(p, m).value;
      && q[..10] == p[..10] && HeaderOk(q) && Ihl(q) == Ihl(p) && Pair(q) == updated
      && (updated == Pair(p) ==> q == p)
      && (updated != Pair(p) ==>
          && Header(q) == FixHeader(Header(p), updated)
          && Payload(q) == if LaterFragment(p) then Payload(p)
                           else FixTransport(p[9], Payload(p), Pair(p), updated, m))
  {
    var q := Rewrite(p, m).value;
    var updated := NewPair(p, m).value;
    var h := Header(p);
    assert Pair(h) == Pair(p);
    if updated != Pair(p) {
      FixHeaderBytes(h, updated);
      assert q[..|h|] == FixHeader(h, updated);
      assert q[..10] == q[..|h|][..10] == h[..10] == p[..10];
      assert Pair(q) == Pair(q[..|h|]);
      assert q[0] == q[..10][0] == p[..10][0] == p[0];
    }
  }

  lemma {:induction false} PairAddresses(p: seq<byte>, m: map<Addr, Addr>)
    requires |p| >= 20 && NewPair(p, m).Some?
    ensures var u := NewPair(p, m).value;
      AddrAt(u, 0) == m[AddrAt(p, 12)] && AddrAt(u, 4) == m[AddrAt(p, 16)]
  {
    var s, d := Enc32(m[AddrAt(p, 12)]), Enc32(m[AddrAt(p, 16)]);
    assert (s + d)[4..] == d;
  }

  /** Both addresses are the mapped ones, and nothing is translated unless both are. */
  lemma {:induction false} AddressesTranslated(p: seq<byte>, m: map<Addr, Addr>)
    ensures Rewrite(p, m).Some? <==> HeaderOk(p) && AddrAt(p, 12) in m && AddrAt(p, 16) in m
    ensures Rewrite(p, m).Some? ==>
      var q := Rewrite(p, m).value;
      AddrAt(q, 12) == m[AddrAt(p, 12)] && AddrAt(q, 16) == m[AddrAt(p, 16)]
  {
    if Rewrite(p, m).Some? {
      Anatomy(p, m);
      PairAddresses(p, m);
      var q := Rewrite(p, m).value;
      PairHolds(q);
    }
  }

  lemma {:induction false} PairHolds(q: seq<byte>)
    requires |q| >= 20
    ensures AddrAt(q, 12) == AddrAt(Pair(q), 0) && AddrAt(q, 16) == AddrAt(Pair(q), 4)
  {
    var r := Pair(q);
    assert r[0] == q[12] && r[1] == q[13] && r[2] == q[14] && r[3] == q[15];
    assert r[4] == q[16] && r[5] == q[17] && r[6] == q[18] && r[7] == q[19];
  }

  /** The header's residue, and so its verdict, is unchanged. */
  lemma {:induction false} HeaderIntegrity(p: seq<byte>, m: map<Addr, Addr>)
    requires Rewrite(p, m).Some?
    ensures HeaderOk(Rewrite(p, m).value)
    ensures SameVerdict(Header(Rewrite(p, m).value), Header(p))
  {
    Anatomy(p, m);
    var q := Rewrite(p, m).value;
    if q != p {
      FixHeaderCongruent(Header(p), NewPair(p, m).value);
    }
    assert q[0] == q[..10][0] && p[0] == p[..10][0];
    VerdictKept(Header(q), Header(p), 0, 0);
  }

  lemma {:induction false} CheckedStays(proto: byte, l4: seq<byte>, o: seq<byte>, u: seq<byte>, m: map<Addr, Addr>)
    requires |o| == |u| == 8 && (proto == TCP || proto == UDP)
    ensures Checked(proto, FixTransport(proto, l4, o, u, m)) <==> Checked(proto, l4)
    ensures !Checked(proto, l4) ==> FixTransport(proto, l4, o, u, m) == l4
  {
    if proto == UDP && Checked(proto, l4) {
      var v := UdpForm(Rfc1624(Get16(l4, 6), o, u));
      SpliceBytes(l4, 6, Enc16(v));
      assert Get16(Put16(l4, 6, v), 6) == v;
    }
  }

  /** A TCP or UDP segment carrying a checksum keeps its residue under the pseudo-header; an
      unused UDP checksum stays unused, and a used one never becomes zero. */
  lemma {:induction false} TransportIntegrity(p: seq<byte>, m: map<Addr, Addr>)
    requires Rewrite(p, m).Some? && (p[9] == TCP || p[9] == UDP) && FragmentOffset(p) == 0
    ensures var q := Rewrite(p, m).value;
      && HeaderOk(q) && q[9] == p[9]
      && (Checked(p[9], Payload(p)) <==> Checked(q[9], Payload(q)))
      && (!Checked(p[9], Payload(p)) ==> Payload(q) == Payload(p))
      && (Checked(p[9], Payload(p)) ==>
          SameVerdict(Covered(Pair(q), q[9], Payload(q)), Covered(Pair(p), p[9], Payload(p))))
  {
    hide FixHeader, FixTransport, Checked, Rfc1624, NewPair, SameVerdict, LaterFragment, FragmentOffset;
    LaterFragmentIff(p);
    Anatomy(p, m);
    var q, u := Rewrite(p, m).value, NewPair(p, m).value;
    assert q[9] == q[..10][9] && p[9] == p[..10][9];
    if u != Pair(p) {
      CheckedStays(p[9], Payload(p), Pair(p), u, m);
      if Checked(p[9], Payload(p)) {
        SegmentVerdict(p[9], Payload(p), Pair(p), u, m);
      }
    } else if Checked(p[9], Payload(p)) {
      SameBlock(Covered(Pair(p), p[9], Payload(p)));
    }
  }

  lemma {:induction false} SameBlock(b: seq<byte>)
    ensures SameVerdict(b, b)
  {
  }

  lemma {:induction false} SegmentVerdict(proto: byte, l4: seq<byte>, o: seq<byte>, u: seq<byte>, m: map<Addr, Addr>)
    requires |o| == |u| == 8 && Checked(proto, l4)
    ensures SameVerdict(Covered(u, proto, FixTransport(proto, l4, o, u, m)), Covered(o, proto, l4))
  {
    FixTransportCongruent(proto, l4, o, u, m);
    hide FixTransport;
    var a, b := Covered(o, proto, l4), Covered(u, proto, FixTransport(proto, l4, o, u, m));
    assert a[9] == proto && b[9] == proto;
    VerdictKept(b, a, 9, 9);
  }

  /** An ICMP message keeps its residue, quote and all; so does the quoted header when it is whole. */
  lemma {:induction false} IcmpIntegrity(p: seq<byte>, m: map<Addr, Addr>)
    requires Rewrite(p, m).Some? && p[9] == ICMP
    ensures var q := Rewrite(p, m).value;
      && HeaderOk(q)
      && SameVerdict(Payload(q), Payload(p))
      && (Quotes(Payload(p)) <==> Quotes(Payload(q)))
      && (Quotes(Payload(p)) ==>
          var was, now := Payload(p)[8..], Payload(q)[8..];
          && (HeaderOk(was) <==> HeaderOk(now))
          && (HeaderOk(was) ==> SameVerdict(Header(now), Header(was))))
  {
    Anatomy(p, m);
    var q := Rewrite(p, m).value;
    if Payload(q) != Payload(p) {
      QuoteIntegrity(Payload(p), NewPair(Payload(p)[8..], m).value);
    }
  }

  /** The quoted pair of an ICMP error ends up translated when both its addresses have a mapping, and
      otherwise nothing of the message changes; the same for a message that quotes nothing. */
  lemma {:induction false} QuoteTranslated(p: seq<byte>, m: map<Addr, Addr>)
    requires Rewrite(p, m).Some? && p[9] == ICMP && FragmentOffset(p) == 0 && NewPair(p, m).value != Pair(p)
    ensures var q := Rewrite(p, m).value;
      && HeaderOk(q)
      && (Quotes(Payload(p)) && NewPair(Payload(p)[8..], m).Some?
          ==> Pair(Payload(q)[8..]) == NewPair(Payload(p)[8..], m).value)
      && (!Quotes(Payload(p)) || NewPair(Payload(p)[8..], m).None? ==> Payload(q) == Payload(p))
  {
    hide FixHeader, Rfc1624, NewPair, LaterFragment, FragmentOffset;
    LaterFragmentIff(p);
    Anatomy(p, m);
    var icmp := Payload(p);
    if QuoteChanges(icmp, m) {
      var u := NewPair(icmp[8..], m).value;
      RewriteQuoteBytes(icmp, u);
      FixHeaderBytes(icmp[8..], u);
      assert Pair(RewriteQuote(icmp, u)[8..]) == u;
    }
  }

  lemma {:induction false} QuoteIntegrity(icmp: seq<byte>, updated: seq<byte>)
    requires Quotes(icmp) && |updated| == 8
    ensures var r := RewriteQuote(icmp, updated);
      && SameVerdict(r, icmp) && Quotes(r)
      && (HeaderOk(icmp[8..]) <==> HeaderOk(r[8..]))
      && (HeaderOk(icmp[8..]) ==> SameVerdict(Header(r[8..]), Header(icmp[8..])))
  {
    var r := RewriteQuote(icmp, updated);
    var was, now := icmp[8..], r[8..];
    RewriteQuoteBytes(icmp, updated);
    RewriteQuoteCongruent(icmp, updated);
    assert r[0] == r[..2][0] == icmp[..2][0] == icmp[0];
    VerdictKept(r, icmp, 0, 0);
    assert now[0] == was[0];
    if HeaderOk(was) {
      var h := Header(was);
      assert Header(now) == FixHeader(h, updated) by { HeaderOfFixed(was, updated); }
      FixHeaderCongruent(h, updated);
      VerdictKept(Header(now), h, 0, 0);
    }
  }

  /** Fixing a header leaves what follows it alone. */
  lemma {:induction false} HeaderOfFixed(p: seq<byte>, updated: seq<byte>)
    requires HeaderOk(p) && |updated| == 8
    ensures HeaderOk(FixHeader(p, updated))
    ensures Header(FixHeader(p, updated)) == FixHeader(Header(p), updated)
    ensures Payload(FixHeader(p, updated)) == Payload(p)
  {
    assert Pair(Header(p)) == Pair(p);
    var s := Splice(p, 12, updated);
    var cs := Enc16(Rfc1624(Get16(p, 10), Pair(p), updated));
    SplicePrefix(p, 12, updated, Ihl(p));
    SplicePrefix(s, 10, cs, Ihl(p));
  }

  /** The only bytes a translation may change: the address pair, the checksums over it, and the
      same of a quoted header. */
  predicate MayChange(p: seq<byte>, i: nat)
    requires HeaderOk(p)
  {
    || 10 <= i < 20
    || (p[9] == TCP && Ihl(p) + 16 <= i < Ihl(p) + 18)
    || (p[9] == UDP && Ihl(p) + 6 <= i < Ihl(p) + 8)
    || (p[9] == ICMP && Quotes(Payload(p)) && (Ihl(p) + 2 <= i < Ihl(p) + 4 || Ihl(p) + 18 <= i < Ihl(p) + 28))
  }

  lemma {:induction false} NothingElseChanges(p: seq<byte>, m: map<Addr, Addr>, i: nat)
    requires Rewrite(p, m).Some? && i < |p|
    ensures Rewrite(p, m).value[i] != p[i] ==> MayChange(p, i)
    ensures FragmentOffset(p) != 0 && i >= Ihl(p) ==> Rewrite(p, m).value[i] == p[i]
  {
    hide FixHeader, RewriteQuote, Rfc1624, NewPair, Rewrite, LaterFragment, FragmentOffset;
    Anatomy(p, m);
    LaterFragmentIff(p);
    var q := Rewrite(p, m).value;
    var ihl := Ihl(p);
    if NewPair(p, m).value != Pair(p) {
      if i < ihl {
        FixHeaderBytes(Header(p), NewPair(p, m).value);
        assert q[i] == Header(q)[i] && p[i] == Header(p)[i];
        if i >= 20 { assert Header(q)[20..][i - 20] == Header(p)[20..][i - 20]; }
        if i < 10 { assert q[..10][i] == p[..10][i]; }
      } else {
        assert q[i] == Payload(q)[i - ihl] && p[i] == Payload(p)[i - ihl];
        TransportBytes(p[9], Payload(p), Pair(p), NewPair(p, m).value, m, i - ihl);
        hide FixTransport;
      }
    }
  }

  lemma {:induction false} TransportBytes(proto: byte, l4: seq<byte>, o: seq<byte>, u: seq<byte>, m: map<Addr, Addr>,
                                          i: nat)
    requires |o| == |u| == 8 && i < |l4|
    ensures FixTransport(proto, l4, o, u, m)[i] != l4[i] ==>
      || (proto == TCP && 16 <= i < 18)
      || (proto == UDP && 6 <= i < 8)
      || (proto == ICMP && Quotes(l4) && (2 <= i < 4 || 18 <= i < 28))
  {
    hide RewriteQuote, Rfc1624, NewPair;
    if proto == ICMP && QuoteChanges(l4, m) {
      QuoteBytes(l4, NewPair(l4[8..], m).value, i);
    }
  }

  lemma {:induction false} QuoteBytes(icmp: seq<byte>, updated: seq<byte>, i: nat)
    requires Quotes(icmp) && |updated| == 8 && i < |icmp|
    ensures RewriteQuote(icmp, updated)[i] != icmp[i] ==> 2 <= i < 4 || 18 <= i < 28
  {
    var r, inner := RewriteQuote(icmp, updated), icmp[8..];
    RewriteQuoteBytes(icmp, updated);
    FixHeaderBytes(inner, updated);
    if i < 2 {
      assert r[..2][i] == icmp[..2][i];
    } else if 4 <= i < 8 {
      assert r[4..8][i - 4] == icmp[4..8][i - 4];
    } else if 8 <= i < 18 {
      assert r[i] == r[8..][i - 8] == r[8..][..10][i - 8] && icmp[i] == inner[..10][i - 8];
    } else if 28 <= i {
      assert r[i] == r[8..][i - 8] == r[8..][20..][i - 28] && icmp[i] == inner[20..][i - 28];
    }
  }
}
