/** What a table learns from a packet off the tunnel, and why each answer it gave stays its answer. */
module Learning {
  import opened Net
  import opened Packet
  import T = Table

  lemma {:induction false} PairSettles(s: T.State, a: Addr, b: Addr)
    requires T.Inv(s)
    ensures var t := T.Run(s, [a, b]);
      && t == T.Request(T.Request(s, a).0, b).0
      && T.Inv(t) && T.Extends(s, t) && T.Settled(t, a) && T.Settled(t, b)
      && T.Request(s, a).1 == (if a in t.toLocal then Some(t.toLocal[a]) else None)
      && T.Request(T.Request(s, a).0, b).1 == (if b in t.toLocal then Some(t.toLocal[b]) else None)
  {
    var s1 := T.Request(s, a).0;
    var s2 := T.Request(s1, b).0;
    assert [a, b][1..] == [b] && [b][1..] == [];
    assert T.Run(s1, [b]) == T.Run(s2, []);
    T.LocalKeeps(s, a);
    T.LocalKeeps(s1, b);
    T.ExtendsTransitive(s, s1, s2);
    T.RequestSettles(s, a);
    T.RequestSettles(s1, b);
    T.SettledStays(s1, s2, a);
  }

  /** The translation gets as far as the transport header. */
  predicate TransportReached(p: seq<byte>, m: map<Addr, Addr>) {
    HeaderOk(p) && NewPair(p, m).Some? && NewPair(p, m).value != Pair(p) && !LaterFragment(p)
  }

  /** ... and to a quoted header in it. */
  predicate QuoteVisited(p: seq<byte>, m: map<Addr, Addr>) {
    TransportReached(p, m) && p[9] == ICMP && Quotes(Payload(p))
  }

  function Endpoints(p: seq<byte>): seq<Addr>
    requires |p| >= 20
  {
    [AddrAt(p, 12), AddrAt(p, 16)]
  }

  /** The table after one packet: its source and destination are looked up, even when the packet is
      then dropped, and so is a quoted pair if the translation gets that far. */
  function Learned(s: T.State, p: seq<byte>): T.State {
    if !HeaderOk(p) then s
    else
      var t := T.Run(s, Endpoints(p));
      if TransportReached(p, t.toLocal) then LearnedFromTransport(t, p[9], Payload(p)) else t
  }

  function LearnedFromTransport(s: T.State, proto: byte, l4: seq<byte>): T.State {
    if proto == ICMP && Quotes(l4) then T.Run(s, Endpoints(l4[8..])) else s
  }

  function LearnedAll(s: T.State, ps: seq<seq<byte>>): T.State
    decreases |ps|
  {
    if ps == [] then s else LearnedAll(Learned(s, ps[0]), ps[1..])
  }

  /** Every address the translation of p consults is settled. */
  predicate SettledFor(s: T.State, p: seq<byte>) {
    HeaderOk(p) ==>
      && T.Settled(s, AddrAt(p, 12)) && T.Settled(s, AddrAt(p, 16))
      && (QuoteVisited(p, s.toLocal) ==>
          T.Settled(s, AddrAt(Payload(p)[8..], 12)) && T.Settled(s, AddrAt(Payload(p)[8..], 16)))
  }

  /** One packet's outcome is the same under the table that answered it and under every later one. */
  lemma {:induction false} OutcomeIsFinal(s: T.State, t: T.State, p: seq<byte>)
    requires T.Inv(s) && T.Inv(t) && T.Extends(s, t) && SettledFor(s, p)
    ensures Rewrite(p, t.toLocal) == Rewrite(p, s.toLocal)
    ensures SettledFor(t, p)
  {
    hide T.Inv, T.Settled, FixHeader;
    if HeaderOk(p) {
      T.SettledStays(s, t, AddrAt(p, 12));
      T.SettledStays(s, t, AddrAt(p, 16));
      if QuoteVisited(p, s.toLocal) {
        var inner := Payload(p)[8..];
        T.SettledStays(s, t, AddrAt(inner, 12));
        T.SettledStays(s, t, AddrAt(inner, 16));
        assert NewPair(inner, t.toLocal) == NewPair(inner, s.toLocal);
      }
    }
  }

  lemma {:induction false} LearnedSettles(s: T.State, p: seq<byte>)
    requires T.Inv(s)
    ensures T.Inv(Learned(s, p)) && T.Extends(s, Learned(s, p)) && SettledFor(Learned(s, p), p)
  {
    if HeaderOk(p) {
      var t := T.Run(s, Endpoints(p));
      PairSettles(s, AddrAt(p, 12), AddrAt(p, 16));
      if QuoteVisited(p, t.toLocal) {
        var inner := Payload(p)[8..];
        var u := T.Run(t, Endpoints(inner));
        PairSettles(t, AddrAt(inner, 12), AddrAt(inner, 16));
        T.ExtendsTransitive(s, t, u);
        T.SettledStays(t, u, AddrAt(p, 12));
        T.SettledStays(t, u, AddrAt(p, 16));
      }
    }
  }

  /** After a batch, every packet's outcome can be read off the final table. */
  lemma {:induction false} BatchSettles(s: T.State, ps: seq<seq<byte>>)
    requires T.Inv(s)
    ensures T.Inv(LearnedAll(s, ps)) && T.Extends(s, LearnedAll(s, ps))
    ensures forall p :: p in ps ==> SettledFor(LearnedAll(s, ps), p)
    decreases |ps|
  {
    if ps != [] {
      var t := Learned(s, ps[0]);
      LearnedSettles(s, ps[0]);
      BatchSettles(t, ps[1..]);
      T.ExtendsTransitive(s, t, LearnedAll(t, ps[1..]));
      OutcomeIsFinal(t, LearnedAll(t, ps[1..]), ps[0]);
      assert forall p :: p in ps ==> p == ps[0] || p in ps[1..];
    }
  }

  lemma {:induction false} LearnedAllAppend(s: T.State, ps: seq<seq<byte>>, p: seq<byte>)
    ensures LearnedAll(s, ps + [p]) == Learned(LearnedAll(s, ps), p)
    decreases |ps|
  {
    if ps == [] {
      assert ps + [p] == [p] && [p][1..] == [];
    } else {
      LearnedAllAppend(Learned(s, ps[0]), ps[1..], p);
      assert (ps + [p])[1..] == ps[1..] + [p];
    }
  }
}
