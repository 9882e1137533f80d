/** The translation said over the bytes on the wire. */
module Wire {
  import opened Net
  import opened Checksum
  import opened Packet
  import opened PacketLaws
  import opened Integrity
  import opened Learning
  import T = Table

  /** The number bytes write, big end first. */
  function Number(b: seq<byte>): nat {
    if b == [] then 0
    else
      var low: int := b[|b| - 1];
      0x100 * Number(b[..|b| - 1]) + low
  }

  lemma {:induction false} WordIsNumber(p: seq<byte>, i: nat)
    requires i + 2 <= |p|
    ensures Get16(p, i) == Number(p[i..i + 2])
  {
    var b := p[i..i + 2];
    assert b[..1][..0] == [] && Number(b[..1]) == b[0];
  }

  lemma {:induction false} AddressIsNumber(p: seq<byte>, i: nat)
    requires i + 4 <= |p|
    ensures AddrAt(p, i) == Number(p[i..i + 4])
  {
    var b := p[i..i + 4];
    WordIsNumber(p, i);
    WordIsNumber(p, i + 2);
    assert b[..3][..2] == p[i..i + 2] && b[..3][2] == p[i + 2];
    assert Number(b[..3]) == 0x100 * Number(p[i..i + 2]) + p[i + 2];
    assert Number(p[i + 2..i + 4]) == Get16(p, i + 2);
  }

  /** What is translated: IPv4, with a header that is all there, between two mapped addresses. */
  lemma {:induction false} AcceptedIff(p: seq<byte>, m: map<Addr, Addr>)
    ensures Rewrite(p, m).Some? <==>
      && |p| >= 20 && 0x40 <= p[0] < 0x50 && 20 <= 4 * (p[0] - 0x40) <= |p|
      && Number(p[12..16]) in m && Number(p[16..20]) in m
    ensures Rewrite(p, m).Some? ==> HeaderOk(p) && Payload(p) == p[4 * (p[0] - 0x40)..]
  {
    AddressesTranslated(p, m);
    hide Rewrite, AddrAt;
    if |p| >= 20 {
      AddressIsNumber(p, 12);
      AddressIsNumber(p, 16);
    }
  }

  /** A TCP segment long enough to hold its checksum, in a packet whose fragment offset is zero, keeps
      its verdict under the pseudo-header: don't-fragment and more-fragments make no difference. */
  lemma {:induction false} TcpRepaired(p: seq<byte>, m: map<Addr, Addr>)
    requires Rewrite(p, m).Some? && p[9] == 6 && Number(p[6..8]) % 0x2000 == 0
    ensures var q := Rewrite(p, m).value;
      && HeaderOk(p) && HeaderOk(q) && q[9] == 6
      && (|Payload(p)| < 18 ==> Payload(q) == Payload(p))
      && (|Payload(p)| >= 18 ==> SameVerdict(Covered(q[12..20], 6, Payload(q)), Covered(p[12..20], 6, Payload(p))))
  {
    hide Rewrite, SameVerdict, Covered;
    AcceptedIff(p, m);
    WordIsNumber(p, 6);
    TransportIntegrity(p, m);
  }

  /** So does a UDP datagram with a checksum in use; one without, or too short for a header, is left. */
  lemma {:induction false} UdpRepaired(p: seq<byte>, m: map<Addr, Addr>)
    requires Rewrite(p, m).Some? && p[9] == 17 && Number(p[6..8]) % 0x2000 == 0
    ensures var q := Rewrite(p, m).value;
      && HeaderOk(p) && HeaderOk(q) && q[9] == 17
      && var l4 := Payload(p);
         var used := |l4| >= 8 && (l4[6] != 0 || l4[7] != 0);
         && (!used ==> Payload(q) == l4)
         && (used ==> SameVerdict(Covered(q[12..20], 17, Payload(q)), Covered(p[12..20], 17, l4)))
         && (used ==> Payload(q)[6] != 0 || Payload(q)[7] != 0)
  {
    hide Rewrite, SameVerdict, Covered;
    AcceptedIff(p, m);
    WordIsNumber(p, 6);
    TransportIntegrity(p, m);
  }

  /** At any other offset the payload is left alone, whatever the protocol. */
  lemma {:induction false} OtherOffsetsUntouched(p: seq<byte>, m: map<Addr, Addr>)
    requires Rewrite(p, m).Some? && Number(p[6..8]) % 0x2000 != 0
    ensures HeaderOk(p) && HeaderOk(Rewrite(p, m).value) && Payload(Rewrite(p, m).value) == Payload(p)
  {
    hide Rewrite, FixHeader, FixTransport, LaterFragment, NewPair;
    AcceptedIff(p, m);
    WordIsNumber(p, 6);
    LaterFragmentIff(p);
    Anatomy(p, m);
  }

  /** The three ICMP errors that quote the packet they are about. */
  predicate QuotesHeader(l4: seq<byte>) {
    |l4| >= 28 && (l4[0] == 3 || l4[0] == 11 || l4[0] == 12) && 0x40 <= l4[8] < 0x50
  }

  /** In an error whose outer pair changes, the quoted addresses are translated when both are mapped; any
      other message, and any other ICMP type, is left alone. */
  lemma {:induction false} ErrorsTranslated(p: seq<byte>, m: map<Addr, Addr>)
    requires Rewrite(p, m).Some? && p[9] == 1 && Number(p[6..8]) % 0x2000 == 0
    ensures var q := Rewrite(p, m).value;
      && HeaderOk(p) && HeaderOk(q)
      && var was, now := Payload(p), Payload(q);
         if QuotesHeader(was) && AddrAt(was, 20) in m && AddrAt(was, 24) in m && q[12..20] != p[12..20]
         then AddrAt(now, 20) == m[AddrAt(was, 20)] && AddrAt(now, 24) == m[AddrAt(was, 24)]
         else now == was
  {
    hide Rewrite, FixHeader, FixTransport, LaterFragment, RewriteQuote, Rfc1624;
    AcceptedIff(p, m);
    WordIsNumber(p, 6);
    Anatomy(p, m);
    var q := Rewrite(p, m).value;
    var was, now := Payload(p), Payload(q);
    if q[12..20] != p[12..20] {
      QuoteTranslated(p, m);
      if QuotesHeader(was) && AddrAt(was, 20) in m && AddrAt(was, 24) in m {
        QuotedAddresses(was, now, m);
      }
    }
  }

  lemma {:induction false} QuotedAddresses(was: seq<byte>, now: seq<byte>, m: map<Addr, Addr>)
    requires |was| == |now| >= 28 && AddrAt(was, 20) in m && AddrAt(was, 24) in m
    requires NewPair(was[8..], m).Some? ==> Pair(now[8..]) == NewPair(was[8..], m).value
    ensures NewPair(was[8..], m).Some?
    ensures AddrAt(now, 20) == m[AddrAt(was, 20)] && AddrAt(now, 24) == m[AddrAt(was, 24)]
  {
    var a, b := was[8..], now[8..];
    assert AddrAt(a, 12) == AddrAt(was, 20) && AddrAt(a, 16) == AddrAt(was, 24);
    assert AddrAt(b, 12) == AddrAt(now, 20) && AddrAt(b, 16) == AddrAt(now, 24);
    PairAddresses(a, m);
    PairHolds(b);
  }

  /** What a packet makes the table learn: nothing unless it is IPv4; else at most its two addresses, and,
      when its pair changes and it is the first fragment of an ICMP error, the two it quotes. */
  lemma {:induction false} LearnsOnly(s: T.State, p: seq<byte>, r: Addr)
    requires T.Inv(s) && |p| >= 20 && r in Learned(s, p).toLocal && r !in s.toLocal
    ensures HeaderOk(p)
    ensures r == AddrAt(p, 12) || r == AddrAt(p, 16)
         || (&& p[9] == 1 && Number(p[6..8]) % 0x2000 == 0 && QuotesHeader(Payload(p))
             && NewPair(p, T.Run(s, Endpoints(p)).toLocal).Some?
             && NewPair(p, T.Run(s, Endpoints(p)).toLocal).value != Pair(p)
             && (r == AddrAt(Payload(p), 20) || r == AddrAt(Payload(p), 24)))
  {
    hide T.Inv, T.Run, T.Extends, FragmentOffset, LaterFragment, NewPair, AddrAt;
    LaterFragmentIff(p);
    WordIsNumber(p, 6);
    OffsetOf(p);
    var t := T.Run(s, Endpoints(p));
    T.RunKeeps(s, Endpoints(p));
    if r !in t.toLocal {
      var inner := Payload(p)[8..];
      T.RunKeeps(t, Endpoints(inner));
      QuotedEndpoints(Payload(p));
      assert r in Endpoints(inner);
    } else {
      assert r in Endpoints(p);
    }
  }

  lemma {:induction false} OffsetOf(p: seq<byte>)
    requires |p| >= 20
    ensures FragmentOffset(p) == Get16(p, 6) % 0x2000
  {
  }

  lemma {:induction false} QuotedEndpoints(l4: seq<byte>)
    requires |l4| >= 28
    ensures AddrAt(l4[8..], 12) == AddrAt(l4, 20) && AddrAt(l4[8..], 16) == AddrAt(l4, 24)
  {
  }
}
