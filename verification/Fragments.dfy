/** Translating the fragments of a datagram one by one. */
module Fragments {
  import opened Net
  import opened Checksum
  import opened Packet
  import opened PacketLaws
  import opened Integrity

  /** The transport bytes a receiver reassembles from fragments in order. */
  function Reassembled(fs: seq<seq<byte>>): seq<byte>
    requires forall f :: f in fs ==> HeaderOk(f)
  {
    if fs == [] then [] else Payload(fs[0]) + Reassembled(fs[1..])
  }

  /** f is a fragment of the datagram d: same addresses and protocol. */
  predicate FragmentOf(f: seq<byte>, d: seq<byte>) {
    HeaderOk(f) && HeaderOk(d) && Pair(f) == Pair(d) && f[9] == d[9]
  }

  /** The mapping used for one fragment agrees with m on the datagram's addresses. */
  predicate AgreesOn(d: seq<byte>, m: map<Addr, Addr>, w: map<Addr, Addr>)
    requires |d| >= 20
  {
    NewPair(d, w) == NewPair(d, m)
  }

  lemma {:induction false} PairDecides(f: seq<byte>, d: seq<byte>, m: map<Addr, Addr>)
    requires |f| >= 20 && |d| >= 20 && Pair(f) == Pair(d)
    ensures NewPair(f, m) == NewPair(d, m)
  {
    assert AddrAt(f, 12) == AddrAt(Pair(f), 0) && AddrAt(f, 16) == AddrAt(Pair(f), 4);
    assert AddrAt(d, 12) == AddrAt(Pair(d), 0) && AddrAt(d, 16) == AddrAt(Pair(d), 4);
  }

  /** A tail of later fragments passes through with its transport bytes untouched. */
  lemma {:induction false} LaterFragmentsUntouched(d: seq<byte>, fs: seq<seq<byte>>, gs: seq<seq<byte>>,
                                                   ms: seq<map<Addr, Addr>>, m: map<Addr, Addr>)
    requires |fs| == |gs| == |ms| && HeaderOk(d)
    requires forall f :: f in fs ==> HeaderOk(f)
    requires forall i :: 0 <= i < |fs| ==>
      && FragmentOf(fs[i], d) && FragmentOffset(fs[i]) != 0 && AgreesOn(d, m, ms[i])
      && Rewrite(fs[i], ms[i]) == Some(gs[i])
    ensures forall g :: g in gs ==> HeaderOk(g)
    ensures Reassembled(gs) == Reassembled(fs)
  {
    if fs != [] {
      assert forall f :: f in fs[1..] ==> f in fs;
      LaterFragmentsUntouched(d, fs[1..], gs[1..], ms[1..], m);
      LaterFragmentIff(fs[0]);
      Anatomy(fs[0], ms[0]);
    }
  }

  /** The checksum of the old pair serves for the new one as it stands: an unused UDP checksum, or pairs
      of the same sum (and then a TCP field of all ones only where the edit would give it again). */
  predicate EditIsIdle(proto: byte, l4: seq<byte>, o: seq<byte>, u: seq<byte>)
    requires |l4| >= ShortestFixable(proto)
  {
    var cs := Get16(l4, ChecksumAt(proto));
    || (proto == UDP && cs == 0)
    || (&& Cong(WordSum(o), WordSum(u))
        && (proto == TCP && cs == 0xffff ==> WordSum(o) == 4 * 0xffff && WordSum(u) == 0))
  }

  /** What a first fragment with the bytes of head must have for the fragments of d to be translated
      one by one: the checksum field, unless d has none or needs no edit of it. */
  predicate FirstSuffices(d: seq<byte>, head: seq<byte>, m: map<Addr, Addr>)
    requires HeaderOk(d) && NewPair(d, m).Some?
  {
    || |head| >= ShortestFixable(d[9])
    || |Payload(d)| < ShortestFixable(d[9])
    || NewPair(d, m).value == Pair(d)
    || EditIsIdle(d[9], Payload(d), Pair(d), NewPair(d, m).value)
  }

  /** Rewriting each fragment by itself, under any mappings that agree on the pair, and reassembling
      gives the transport bytes of the datagram rewritten whole exactly when the first fragment
      suffices for it. */
  lemma {:induction false} FragmentwiseIsWhole(d: seq<byte>, fs: seq<seq<byte>>, gs: seq<seq<byte>>,
                                               ms: seq<map<Addr, Addr>>, m: map<Addr, Addr>)
    requires |fs| == |gs| == |ms| > 0
    requires forall f :: f in fs ==> HeaderOk(f)
    requires Rewrite(d, m).Some? && FragmentOffset(d) == 0 && (d[9] == TCP || d[9] == UDP)
    requires forall i :: 0 <= i < |fs| ==>
      && FragmentOf(fs[i], d) && AgreesOn(d, m, ms[i]) && Rewrite(fs[i], ms[i]) == Some(gs[i])
      && (FragmentOffset(fs[i]) == 0 <==> i == 0)
    requires Reassembled(fs) == Payload(d)
    ensures HeaderOk(Rewrite(d, m).value) && forall g :: g in gs ==> HeaderOk(g)
    ensures Reassembled(gs) == Payload(Rewrite(d, m).value) <==> FirstSuffices(d, Payload(fs[0]), m)
  {
    hide FixTransport, FixHeader, EditIsIdle, Rfc1624, Splice, NewPair, FragmentOffset, LaterFragment;
    LaterFragmentIff(d);
    LaterFragmentIff(fs[0]);
    assert forall f :: f in fs[1..] ==> f in fs;
    LaterFragmentsUntouched(d, fs[1..], gs[1..], ms[1..], m);
    var head, tail := Payload(fs[0]), Reassembled(fs[1..]);
    Anatomy(d, m);
    Anatomy(fs[0], ms[0]);
    PairDecides(fs[0], d, ms[0]);
    assert forall g :: g in gs ==> g == gs[0] || g in gs[1..];
    assert Payload(d) == head + tail;
    var u := NewPair(d, m).value;
    if u != Pair(d) {
      FixPrefix(d[9], head, tail, Pair(d), u, ms[0], m);
    }
  }

  /** The checksum edit looks no further than the field itself; cut off from it, it does nothing. */
  lemma {:induction false} FixPrefix(proto: byte, head: seq<byte>, tail: seq<byte>, o: seq<byte>, u: seq<byte>,
                                     w: map<Addr, Addr>, m: map<Addr, Addr>)
    requires |o| == |u| == 8 && (proto == TCP || proto == UDP)
    ensures FixTransport(proto, head, o, u, w) + tail == FixTransport(proto, head + tail, o, u, m)
       <==> || |head| >= ShortestFixable(proto) || |head + tail| < ShortestFixable(proto)
            || EditIsIdle(proto, head + tail, o, u)
  {
    hide Rfc1624, Enc16, WordSum, Cong, EditIsIdle;
    var at := ChecksumAt(proto);
    if |head| >= ShortestFixable(proto) {
      assert Get16(head + tail, at) == Get16(head, at);
      var r := Rfc1624(Get16(head, at), o, u);
      var v := if proto == UDP then UdpForm(r) else r;
      assert (head + tail)[..|head|] == head && (head + tail)[|head|..] == tail;
      SplicePrefix(head + tail, at, Enc16(v), |head|);
      var whole := Put16(head + tail, at, v);
      assert whole == whole[..|head|] + whole[|head|..];
    } else if |head + tail| >= ShortestFixable(proto) {
      assert FixTransport(proto, head, o, u, w) == head;
      EditIsIdleIff(proto, head + tail, o, u, m);
    }
  }

  lemma {:induction false} EditIsIdleIff(proto: byte, l4: seq<byte>, o: seq<byte>, u: seq<byte>, m: map<Addr, Addr>)
    requires |o| == |u| == 8 && (proto == TCP || proto == UDP) && |l4| >= ShortestFixable(proto)
    ensures FixTransport(proto, l4, o, u, m) == l4 <==> EditIsIdle(proto, l4, o, u)
  {
    hide Rfc1624, Enc16, WordSum, Cong;
    var at := ChecksumAt(proto);
    var cs := Get16(l4, at);
    var r := Rfc1624(cs, o, u);
    if proto == TCP {
      UpdateStandsIff(cs, o, u);
      PutStandsIff(l4, at, r);
    } else if cs != 0 {
      UdpStandsIff(cs, o, u);
      PutStandsIff(l4, at, UdpForm(r));
    }
  }

  lemma {:induction false} PutStandsIff(p: seq<byte>, i: nat, v: uint16)
    requires i + 2 <= |p|
    ensures Put16(p, i, v) == p <==> v == Get16(p, i)
  {
    hide Enc16, WordSum;
    var q := Put16(p, i, v);
    WordDecodes(p, i);
    SpliceBytes(p, i, Enc16(v));
    assert Get16(q, i) == v;
    assert p == p[..i] + p[i..i + 2] + p[i + 2..];
  }

  lemma {:induction false} UpdateStandsIff(cs: uint16, o: seq<byte>, u: seq<byte>)
    requires |o| == |u| == 8
    ensures Rfc1624(cs, o, u) == cs
       <==> Cong(WordSum(o), WordSum(u)) && (cs == 0xffff ==> WordSum(o) == 4 * 0xffff && WordSum(u) == 0)
  {
    hide Rfc1624, WordSum, Residue;
    var r := Rfc1624(cs, o, u);
    UpdateCongruent(cs, o, u);
    UpdateIsAllOnes(cs, o, u);
    Movement(r, cs, WordSum(u), WordSum(o));
    if Cong(r, cs) { CongInWord(r, cs); }
  }

  lemma {:induction false} UdpStandsIff(cs: uint16, o: seq<byte>, u: seq<byte>)
    requires |o| == |u| == 8 && cs != 0
    ensures UdpForm(Rfc1624(cs, o, u)) == cs <==> Cong(WordSum(o), WordSum(u))
  {
    hide Rfc1624, WordSum, Residue;
    var r := Rfc1624(cs, o, u);
    UpdateCongruent(cs, o, u);
    UdpFormBalance(r, UdpForm(r), WordSum(u), cs + WordSum(o));
    Movement(UdpForm(r), cs, WordSum(u), WordSum(o));
    if Cong(UdpForm(r), cs) { CongInWord(UdpForm(r), cs); }
  }

  /** A checksum moves with the data: it keeps its residue exactly when the data does. */
  lemma {:induction false} Movement(r: int, cs: int, u: int, o: int)
    requires Cong(r + u, cs + o)
    ensures Cong(r, cs) <==> Cong(o, u)
  {
    if Cong(r, cs) { CongSum(cs + o, r + u, cs, r); }
    if Cong(o, u) { CongSum(r + u, cs + o, u, o); }
  }

  // ----- a first fragment that does not suffice -----

  /** A TCP packet from 10.0.0.1 to 10.0.0.2, at a fragment offset in units of eight bytes, with its
      length and header checksum filled in. */
  function Example(more: bool, offset: byte, body: seq<byte>): (p: seq<byte>)
    requires |body| <= 0xffff - 20
    ensures |p| == 20 + |body|
  {
    var size := Enc16(20 + |body|);
    var flags := if more then 0x20 else 0;
    var h := [0x45, 0] + size + [0, 0, flags, offset, 64, TCP, 0, 0, 10, 0, 0, 1, 10, 0, 0, 2];
    Put16(h, 10, Scratch(h)) + body
  }

  const RENUMBERED: map<Addr, Addr> := map[0x0a00_0001 := 0x0a40_0001, 0x0a00_0002 := 0x0a40_0002]

  lemma {:induction false} ExampleBytes(more: bool, offset: byte, body: seq<byte>)
    requires |body| <= 0xffff - 20
    ensures var p := Example(more, offset, body);
      && p[0] == 0x45 && p[6] == (if more then 0x20 else 0) && p[7] == offset && p[9] == TCP
      && p[12..20] == [10, 0, 0, 1, 10, 0, 0, 2] && p[20..] == body
  {
    hide Enc16, Scratch, Splice;
    var size := Enc16(20 + |body|);
    var flags := if more then 0x20 else 0;
    var h := [0x45, 0] + size + [0, 0, flags, offset, 64, TCP, 0, 0, 10, 0, 0, 1, 10, 0, 0, 2];
    SpliceBytes(h, 10, Enc16(Scratch(h)));
    var g := Put16(h, 10, Scratch(h));
    assert g[12..] == h[12..] == [10, 0, 0, 1, 10, 0, 0, 2];
    assert Example(more, offset, body)[12..20] == g[12..];
  }

  lemma {:induction false} ExampleParts(more: bool, offset: byte, body: seq<byte>)
    requires |body| <= 0xffff - 20
    ensures var p := Example(more, offset, body);
      && HeaderOk(p) && Payload(p) == body && p[9] == TCP && FragmentOffset(p) == offset
      && Pair(p) == [10, 0, 0, 1, 10, 0, 0, 2]
      && NewPair(p, RENUMBERED) == Some(Enc32(0x0a40_0001) + Enc32(0x0a40_0002))
      && Rewrite(p, RENUMBERED).Some?
  {
    hide Example, Scratch, Enc32, FixHeader, FixTransport;
    var p := Example(more, offset, body);
    ExampleBytes(more, offset, body);
    assert Ihl(p) == 20;
    assert Get16(p, 12) == 0x0a00 && Get16(p, 14) == 1 && Get16(p, 16) == 0x0a00 && Get16(p, 18) == 2;
  }

  lemma {:induction false} FourWords(b: seq<byte>)
    requires |b| == 8
    ensures WordSum(b) == Get16(b, 0) + Get16(b, 2) + Get16(b, 4) + Get16(b, 6)
  {
    assert b[2..][2..] == b[4..] && b[4..][2..] == b[6..] && b[6..][2..] == [];
    assert WordSum(b[6..]) == Get16(b, 6);
    assert WordSum(b[4..]) == Get16(b, 4) + WordSum(b[6..]);
    assert WordSum(b[2..]) == Get16(b, 2) + WordSum(b[4..]);
  }

  lemma {:induction false} RenumberingMovesSum()
    ensures !Cong(WordSum([10, 0, 0, 1, 10, 0, 0, 2]), WordSum(Enc32(0x0a40_0001) + Enc32(0x0a40_0002)))
  {
    hide Enc32, WordSum, Cong;
    var o: seq<byte> := [10, 0, 0, 1, 10, 0, 0, 2];
    var x, y := Enc32(0x0a40_0001), Enc32(0x0a40_0002);
    FourWords(o);
    FourWords(x + y);
    assert Get16(x + y, 0) == Get16(x, 0) && Get16(x + y, 2) == Get16(x, 2);
    assert Get16(x + y, 4) == Get16(y, 0) && Get16(x + y, 6) == Get16(y, 2);
    CongIsMod(WordSum(o), WordSum(x + y));
  }

  /** Sixteen bytes of TCP in the first fragment end before the checksum field, which then nobody
      repairs: under a renumbering that moves the sum, every such datagram comes out wrong. */
  lemma {:induction false} SixteenByteFirstFragment(head: seq<byte>, tail: seq<byte>, m: map<Addr, Addr>,
                                                    whole: seq<byte>, one: seq<byte>, two: seq<byte>)
    requires |head| == 16 && 2 <= |tail| <= 0xffff - 36 && m == RENUMBERED
    requires Rewrite(Example(false, 0, head + tail), m) == Some(whole)
    requires Rewrite(Example(true, 0, head), m) == Some(one) && Rewrite(Example(false, 2, tail), m) == Some(two)
    ensures HeaderOk(whole) && HeaderOk(one) && HeaderOk(two)
    ensures Reassembled([one, two]) != Payload(whole)
  {
    hide Example, NewPair, Enc32, Rewrite, FixHeader, FixTransport, WordSum, Cong;
    var d, f, g := Example(false, 0, head + tail), Example(true, 0, head), Example(false, 2, tail);
    ExampleParts(false, 0, head + tail);
    ExampleParts(true, 0, head);
    ExampleParts(false, 2, tail);
    RenumberingMovesSum();
    var last: seq<seq<byte>> := [g];
    assert [f, g][1..] == last && last[1..] == [];
    assert Reassembled(last) == Payload(g);
    FragmentwiseIsWhole(d, [f, g], [one, two], [m, m], m);
    assert forall x :: x in [one, two] <==> x == one || x == two;
    DifferentPair();
  }

  lemma {:induction false} DifferentPair()
    ensures Enc32(0x0a40_0001) + Enc32(0x0a40_0002) != [10, 0, 0, 1, 10, 0, 0, 2]
  {
    RenumberingMovesSum();
  }
}
