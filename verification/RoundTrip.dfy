/** Translating a packet and translating it back. */
module RoundTrip {
  import opened Net
  import opened Checksum
  import opened Packet
  import opened PacketLaws
  import opened Integrity

  /** w undoes m, as one direction of a table undoes the other. */
  predicate LeftInverse(m: map<Addr, Addr>, w: map<Addr, Addr>) {
    forall a :: a in m ==> m[a] in w && w[m[a]] == a
  }

  // ----- checksums there and back -----

  /** Updating there and back loses one value only: 0xffff comes back as 0. */
  lemma {:induction false} UpdateBack(cs: uint16, o: seq<byte>, u: seq<byte>)
    requires |o| == |u| > 0 && |o| % 2 == 0
    ensures Rfc1624(Rfc1624(cs, o, u), u, o) == if cs == 0xffff then 0 else cs
  {
    var there := Rfc1624(cs, o, u);
    var back := Rfc1624(there, u, o);
    UpdateCongruent(cs, o, u);
    UpdateCongruent(there, u, o);
    CongThereAndBack(cs, there, back, WordSum(o), WordSum(u));
    UpdateIsAllOnes(cs, o, u);
    UpdateIsAllOnes(there, u, o);
    CongInWord(back, cs);
  }

  lemma {:induction false} CongThereAndBack(cs: int, there: int, back: int, o: int, u: int)
    requires Cong(there + u, cs + o) && Cong(back + o, there + u)
    ensures Cong(back, cs)
  {
    CongSum(there + u, cs + o, back + o, there + u);
    CongIsMod(there + u + (back + o), cs + o + (there + u));
    CongIsMod(back, cs);
  }

  /** UDP's spelling of zero makes its round trip exact for every checksum in use. */
  lemma {:induction false} UdpBack(cs: uint16, o: seq<byte>, u: seq<byte>)
    requires |o| == |u| && |o| % 2 == 0 && cs != 0
    ensures UdpForm(Rfc1624(UdpForm(Rfc1624(cs, o, u)), u, o)) == cs
  {
    var there := UdpForm(Rfc1624(cs, o, u));
    var back := UdpForm(Rfc1624(there, u, o));
    UpdateCongruent(cs, o, u);
    UpdateCongruent(there, u, o);
    UdpFormBalance(Rfc1624(cs, o, u), there, WordSum(u), cs + WordSum(o));
    UdpFormBalance(Rfc1624(there, u, o), back, WordSum(o), there + WordSum(u));
    CongThereAndBack(cs, there, back, WordSum(o), WordSum(u));
    CongInWord(back, cs);
  }

  /** The checksum of an ICMP error around a quoted checksum, there and back. */
  lemma {:induction false} NestedBack(cs: uint16, o: seq<byte>, u: seq<byte>, before: uint16)
    requires |o| == |u| > 0 && |o| % 2 == 0 && cs != 0xffff && before != 0xffff
    ensures var after := Rfc1624(before, o, u);
      var there := Rfc1624(Rfc1624(cs, o, u), Enc16(before), Enc16(after));
      Rfc1624(Rfc1624(there, u, o), Enc16(after), Enc16(before)) == cs
  {
    var after := Rfc1624(before, o, u);
    var c1 := Rfc1624(cs, o, u);
    var there := Rfc1624(c1, Enc16(before), Enc16(after));
    var c3 := Rfc1624(there, u, o);
    var back := Rfc1624(c3, Enc16(after), Enc16(before));
    assert c1 != 0xffff by { UpdateIsAllOnes(cs, o, u); }
    assert there != 0xffff by { UpdateIsAllOnes(c1, Enc16(before), Enc16(after)); }
    assert c3 != 0xffff by { UpdateIsAllOnes(there, u, o); }
    assert back != 0xffff by { UpdateIsAllOnes(c3, Enc16(after), Enc16(before)); }
    assert Cong(back, cs) by { NestedCongruent(cs, o, u, Enc16(before), Enc16(after)); }
    CongInWord(back, cs);
  }

  lemma {:induction false} NestedCongruent(cs: uint16, o: seq<byte>, u: seq<byte>, x: seq<byte>, y: seq<byte>)
    requires |o| == |u| && |o| % 2 == 0 && |x| == |y| && |x| % 2 == 0
    ensures Cong(Rfc1624(Rfc1624(Rfc1624(Rfc1624(cs, o, u), x, y), u, o), y, x), cs)
  {
    var c1 := Rfc1624(cs, o, u);
    var there := Rfc1624(c1, x, y);
    var c3 := Rfc1624(there, u, o);
    UpdateCongruent(cs, o, u);
    UpdateCongruent(c1, x, y);
    UpdateCongruent(there, u, o);
    UpdateCongruent(c3, y, x);
    FourSteps(cs, c1, there, c3, Rfc1624(c3, y, x), WordSum(o), WordSum(u), WordSum(x), WordSum(y));
  }

  lemma {:induction false} FourSteps(cs: int, c1: int, there: int, c3: int, back: int, o: int, u: int, before: int,
                                     after: int)
    requires Cong(c1 + u, cs + o) && Cong(there + after, c1 + before)
    requires Cong(c3 + o, there + u) && Cong(back + before, c3 + after)
    ensures Cong(back, cs)
  {
    CongSum(c1 + u, cs + o, there + after, c1 + before);
    CongSum(c3 + o, there + u, back + before, c3 + after);
    CongSum(c1 + u + (there + after), cs + o + (c1 + before), c3 + o + (back + before), there + u + (c3 + after));
    CongIsMod(c1 + u + (there + after) + (c3 + o + (back + before)),
      cs + o + (c1 + before) + (there + u + (c3 + after)));
    CongIsMod(back, cs);
  }

  // ----- addresses there and back -----

  lemma {:induction false} AddressDecodes(p: seq<byte>, i: nat)
    requires i + 4 <= |p|
    ensures Enc32(AddrAt(p, i)) == p[i..i + 4]
  {
    hide Enc16, Get16, Enc32;
    WordDecodes(p, i);
    WordDecodes(p, i + 2);
    HalvesDecode(Get16(p, i), Get16(p, i + 2));
    assert p[i..i + 2] + p[i + 2..i + 4] == p[i..i + 4];
  }

  lemma {:induction false} HalvesDecode(hi: uint16, lo: uint16)
    ensures Enc32(hi * 0x1_0000 + lo) == Enc16(hi) + Enc16(lo)
  {
    hide Enc16;
    var a: int := hi * 0x1_0000 + lo;
    assert a / 0x1_0000 == hi && a % 0x1_0000 == lo;
  }

  /** The inverse mapping restores a translated pair. */
  lemma {:induction false} PairBack(p: seq<byte>, q: seq<byte>, m: map<Addr, Addr>, w: map<Addr, Addr>)
    requires |p| >= 20 && |q| >= 20 && LeftInverse(m, w)
    requires NewPair(p, m).Some? && Pair(q) == NewPair(p, m).value
    ensures NewPair(q, w) == Some(Pair(p))
  {
    PairAddresses(p, m);
    assert AddrAt(q, 12) == AddrAt(Pair(q), 0) && AddrAt(q, 16) == AddrAt(Pair(q), 4);
    AddressDecodes(p, 12);
    AddressDecodes(p, 16);
    assert p[12..16] + p[16..20] == Pair(p);
  }

  lemma {:induction false} FixHeaderBack(h: seq<byte>, u: seq<byte>)
    requires |h| >= 20 && |u| == 8
    ensures FixHeader(FixHeader(h, u), Pair(h)) == h <==> Get16(h, 10) != 0xffff
  {
    var r := FixHeader(h, u);
    var b := FixHeader(r, Pair(h));
    FixHeaderBytes(h, u);
    FixHeaderBytes(r, Pair(h));
    UpdateBack(Get16(h, 10), Pair(h), u);
    if Get16(h, 10) != 0xffff {
      WordDecodes(h, 10);
      WordDecodes(b, 10);
      assert b == b[..10] + b[10..12] + Pair(b) + b[20..];
      assert h == h[..10] + h[10..12] + Pair(h) + h[20..];
    }
  }

  // ----- the quote -----

  /** What it takes to restore a quoted header: it translates with no checksum at 0xffff, or it is
      foreign in both directions. */
  predicate QuoteRestorable(icmp: seq<byte>, m: map<Addr, Addr>, w: map<Addr, Addr>) {
    if QuoteChanges(icmp, m)
    then Get16(icmp, 2) != 0xffff && (HeaderOk(icmp[8..]) ==> Get16(icmp[8..], 10) != 0xffff)
    else !QuoteChanges(icmp, w)
  }

  lemma {:induction false} QuoteBack(icmp: seq<byte>, m: map<Addr, Addr>, w: map<Addr, Addr>)
    requires LeftInverse(m, w)
    ensures FixQuote(FixQuote(icmp, m), w) == icmp <==> QuoteRestorable(icmp, m, w)
  {
    if QuoteChanges(icmp, m) {
      var inner := icmp[8..];
      var u := NewPair(inner, m).value;
      var r := RewriteQuote(icmp, u);
      RewriteQuoteBytes(icmp, u);
      FixHeaderBytes(inner, u);
      assert Pair(r[8..]) == u;
      PairBack(inner, r[8..], m, w);
      QuoteIntegrity(icmp, u);
      assert QuoteChanges(r, w) && FixQuote(r, w) == RewriteQuote(r, Pair(inner));
      QuoteRewrittenBack(icmp, u);
    } else if QuoteChanges(icmp, w) {
      var u := NewPair(icmp[8..], w).value;
      RewriteQuoteBytes(icmp, u);
      FixHeaderBytes(icmp[8..], u);
      assert Pair(RewriteQuote(icmp, u)[8..]) == u;
    }
  }

  lemma {:induction false} QuoteRewrittenBack(icmp: seq<byte>, u: seq<byte>)
    requires Quotes(icmp) && |u| == 8 && Quotes(RewriteQuote(icmp, u))
    requires HeaderOk(icmp[8..]) <==> HeaderOk(RewriteQuote(icmp, u)[8..])
    ensures RewriteQuote(RewriteQuote(icmp, u), Pair(icmp[8..])) == icmp
       <==> Get16(icmp, 2) != 0xffff && (HeaderOk(icmp[8..]) ==> Get16(icmp[8..], 10) != 0xffff)
  {
    var o := Pair(icmp[8..]);
    var r := RewriteQuote(icmp, u);
    RewriteQuoteBytes(icmp, u);
    RewriteQuoteBytes(r, o);
    QuoteChecksumBack(icmp, u);
    QuotedHeaderBack(icmp, u);
    SameBytes(RewriteQuote(r, o), icmp);
  }

  lemma {:induction false} QuotedHeaderBack(icmp: seq<byte>, u: seq<byte>)
    requires Quotes(icmp) && |u| == 8 && Quotes(RewriteQuote(icmp, u))
    requires HeaderOk(icmp[8..]) <==> HeaderOk(RewriteQuote(icmp, u)[8..])
    ensures RewriteQuote(RewriteQuote(icmp, u), Pair(icmp[8..]))[8..] == icmp[8..]
       <==> (HeaderOk(icmp[8..]) ==> Get16(icmp[8..], 10) != 0xffff)
  {
    hide RewriteQuote, FixHeader, Rfc1624;
    var inner := icmp[8..];
    RewriteQuoteBytes(icmp, u);
    RewriteQuoteBytes(RewriteQuote(icmp, u), Pair(inner));
    if HeaderOk(inner) {
      FixHeaderBack(inner, u);
    } else {
      assert Splice(Splice(inner, 12, u), 12, Pair(inner)) == inner;
    }
  }

  lemma {:induction false} SameBytes(b: seq<byte>, a: seq<byte>)
    requires |a| == |b| >= 8 && b[..2] == a[..2] && b[4..8] == a[4..8]
    ensures b == a <==> Get16(b, 2) == Get16(a, 2) && b[8..] == a[8..]
  {
    WordDecodes(a, 2);
    WordDecodes(b, 2);
    assert a == a[..2] + a[2..4] + a[4..8] + a[8..];
    assert b == b[..2] + b[2..4] + b[4..8] + b[8..];
  }

  lemma {:induction false} QuoteChecksumBack(icmp: seq<byte>, u: seq<byte>)
    requires Quotes(icmp) && |u| == 8 && Quotes(RewriteQuote(icmp, u))
    requires HeaderOk(icmp[8..]) <==> HeaderOk(RewriteQuote(icmp, u)[8..])
    ensures var back := QuoteChecksum(RewriteQuote(icmp, u), Pair(icmp[8..]));
      && back != 0xffff
      && (Get16(icmp, 2) != 0xffff && (HeaderOk(icmp[8..]) ==> Get16(icmp[8..], 10) != 0xffff)
          ==> back == Get16(icmp, 2))
  {
    var inner, o := icmp[8..], Pair(icmp[8..]);
    var cs := Get16(icmp, 2);
    var r := RewriteQuote(icmp, u);
    var there := QuoteChecksum(icmp, u);
    RewriteQuoteBytes(icmp, u);
    FixHeaderBytes(inner, u);
    assert Pair(r[8..]) == u && Get16(r, 2) == there;
    UpdateIsAllOnes(cs, o, u);
    UpdateIsAllOnes(there, u, o);
    UpdateBack(cs, o, u);
    if HeaderOk(inner) {
      var before := Get16(inner, 10);
      var after := Rfc1624(before, o, u);
      assert Get16(r[8..], 10) == after;
      UpdateBack(before, o, u);
      UpdateIsAllOnes(before, o, u);
      UpdateIsAllOnes(Rfc1624(cs, o, u), Enc16(before), Enc16(after));
      UpdateIsAllOnes(Rfc1624(there, u, o), Enc16(after), Enc16(Rfc1624(after, u, o)));
      if cs != 0xffff && before != 0xffff {
        NestedBack(cs, o, u, before);
      }
    }
  }

  // ----- the packet -----

  predicate TransportRestorable(proto: byte, l4: seq<byte>, m: map<Addr, Addr>, w: map<Addr, Addr>) {
    && (proto == TCP && |l4| >= 18 ==> Get16(l4, 16) != 0xffff)
    && (proto == ICMP ==> QuoteRestorable(l4, m, w))
  }

  lemma {:induction false} TransportBack(proto: byte, l4: seq<byte>, o: seq<byte>, u: seq<byte>, m: map<Addr, Addr>,
                                         w: map<Addr, Addr>)
    requires |o| == |u| == 8 && LeftInverse(m, w)
    ensures FixTransport(proto, FixTransport(proto, l4, o, u, m), u, o, w) == l4
       <==> TransportRestorable(proto, l4, m, w)
  {
    if proto == TCP && |l4| >= 18 {
      UpdateBack(Get16(l4, 16), o, u);
      PutBack(l4, 16, Rfc1624(Get16(l4, 16), o, u), Rfc1624(Rfc1624(Get16(l4, 16), o, u), u, o));
    } else if proto == UDP && |l4| >= 8 && Get16(l4, 6) != 0 {
      var there := UdpForm(Rfc1624(Get16(l4, 6), o, u));
      UdpBack(Get16(l4, 6), o, u);
      PutBack(l4, 6, there, UdpForm(Rfc1624(there, u, o)));
    } else if proto == ICMP {
      QuoteBack(l4, m, w);
    }
  }

  lemma {:induction false} PutBack(p: seq<byte>, i: nat, v: uint16, z: uint16)
    requires i + 2 <= |p|
    ensures Get16(Put16(p, i, v), i) == v
    ensures Put16(Put16(p, i, v), i, z) == p <==> z == Get16(p, i)
  {
    var b := Put16(Put16(p, i, v), i, z);
    assert Get16(b, i) == z;
    WordDecodes(p, i);
    assert b == p[..i] + Enc16(z) + p[i + 2..];
    assert p == p[..i] + p[i..i + 2] + p[i + 2..];
  }

  /** When the bytes of an accepted packet survive the trip. */
  predicate Restorable(p: seq<byte>, m: map<Addr, Addr>, w: map<Addr, Addr>)
    requires HeaderOk(p)
  {
    || NewPair(p, m) == Some(Pair(p))
    || (Get16(p, 10) != 0xffff
        && (FragmentOffset(p) != 0 || TransportRestorable(p[9], Payload(p), m, w)))
  }

  /** Translating an accepted packet back always succeeds, and gives the same bytes exactly when the
      packet is restorable. */
  lemma {:induction false} ThereAndBack(p: seq<byte>, m: map<Addr, Addr>, w: map<Addr, Addr>)
    requires Rewrite(p, m).Some? && LeftInverse(m, w)
    ensures Rewrite(Rewrite(p, m).value, w).Some?
    ensures Rewrite(Rewrite(p, m).value, w) == Some(p) <==> Restorable(p, m, w)
  {
    hide FixHeader, FixTransport, TransportRestorable, NewPair, Rfc1624, FragmentOffset;
    LaterFragmentIff(p);
    Anatomy(p, m);
    var q, u := Rewrite(p, m).value, NewPair(p, m).value;
    PairBack(p, q, m, w);
    Anatomy(q, w);
    if u != Pair(p) {
      var b := Rewrite(q, w).value;
      assert forall i :: 0 <= i < 10 ==> q[i] == q[..10][i] && p[i] == p[..10][i];
      assert LaterFragment(q) <==> LaterFragment(p);
      assert Pair(Header(p)) == Pair(p);
      FixHeaderBack(Header(p), u);
      TransportBack(p[9], Payload(p), Pair(p), u, m, w);
      assert b == p <==> Header(b) == Header(p) && Payload(b) == Payload(p) by {
        assert p == Header(p) + Payload(p) && b == Header(b) + Payload(b);
      }
    }
  }
}
