/** The server's two allocators against a client's table: enough room, in any order. */
module AddressPlan {
  import opened Net
  import I = Ipam
  import T = Table

  // ----- counting -----

  lemma {:induction false} SubsetSize<A>(a: set<A>, b: set<A>)
    requires a <= b
    ensures |a| <= |b|
  {
    assert b == a + (b - a);
  }

  lemma {:induction false} ValuesSize<K, V>(m: map<K, V>)
    ensures |m.Values| <= |m|
    decreases |m|
  {
    if m.Keys != {} {
      var k :| k in m.Keys;
      var rest := m - {k};
      assert m == rest[k := m[k]] && |rest| == |m| - 1;
      ValuesSize(rest);
      assert m.Values == rest.Values + {m[k]};
    } else {
      assert m.Values == {};
    }
  }

  /** The integers from lo up to hi, and how many they are. */
  function Range(lo: int, hi: int): (r: set<int>)
    requires lo <= hi
    ensures forall i :: i in r <==> lo <= i < hi
    ensures |r| == hi - lo
    decreases hi - lo
  {
    if lo == hi then {} else Range(lo, hi - 1) + {hi - 1}
  }

  function AsInts(a: set<Addr>): (r: set<int>)
    ensures |r| == |a| && forall i :: i in r <==> i in a
  {
    var r: set<int> := set i: int | i in a;
    assert r == a;
    r
  }

  /** One index is used per mapping. */
  predicate Counted(s: T.State) { |s.toLocal| == |s.used| }

  lemma {:induction false} RunCounts(s: T.State, reqs: seq<Addr>)
    requires T.Inv(s) && Counted(s)
    ensures Counted(T.Run(s, reqs))
    decreases |reqs|
  {
    hide T.Inv, T.Request, T.Extends;
    if reqs != [] {
      RequestCounts(s, reqs[0]);
      T.LocalKeeps(s, reqs[0]);
      RunCounts(T.Request(s, reqs[0]).0, reqs[1..]);
    }
  }

  lemma {:induction false} RequestCounts(s: T.State, addr: Addr)
    requires T.Inv(s) && Counted(s)
    ensures Counted(T.Request(s, addr).0)
  {
    hide T.Linked, T.Shaped, T.Alloc, Contains;
    T.AllocSound(s, addr);
    var (got, next) := T.Alloc(s, addr);
    if addr !in s.toLocal && got.Some? {
      var t := T.Insert(s.(next := next), addr, got.value);
      assert |t.used| == |s.used| + 1 && |t.toLocal| == |s.toLocal| + 1;
    }
  }

  /** While some address of a small enough set is unmapped, a table mapping only that set has room. */
  lemma {:induction false} RoomLeft(s: T.State, handed: set<Addr>, addr: Addr)
    requires T.Ranged(s) && Counted(s) && s.toLocal.Keys <= handed && |handed| <= T.Span(s) - 2
    requires addr in handed && addr !in s.toLocal
    ensures !T.Exhausted(s)
  {
    SubsetSize(s.toLocal.Keys + {addr}, handed);
    var indexes, all := AsInts(s.used), Range(1, T.Span(s) - 1);
    if all <= indexes {
      SubsetSize(all, indexes);
      assert false;
    }
    var i :| i in all && i !in indexes;
  }

  // ----- what the server hands out -----

  /** A network's two allocators after any requests. */
  ghost predicate ServerState(cidr: Prefix, nodes: I.State, services: I.State) {
    && cidr.bits <= 28
    && I.Inv(nodes) && I.Counted(nodes) && nodes.prefix == I.Lower(cidr)
    && I.Inv(services) && I.Counted(services) && services.prefix == I.Upper(cidr)
  }

  function HandedOut(nodes: I.State, services: I.State): set<Addr> {
    nodes.byKey.Values + services.byKey.Values
  }

  /** Whatever was registered and published, in any order, reaches such a state. */
  lemma {:induction false} ServerReachable(cidr: Prefix, devices: seq<string>, names: seq<string>)
    requires cidr.bits <= 28
    ensures ServerState(cidr, I.Run(I.Fresh(I.Lower(cidr)), devices), I.Run(I.Fresh(I.Upper(cidr)), names))
  {
    I.HalvesPartition(cidr);
    I.FreshInv(I.Lower(cidr));
    I.FreshInv(I.Upper(cidr));
    hide I.Inv, I.Counted, I.Run, I.Fresh, I.Lower, I.Upper;
    I.RunKeeps(I.Fresh(I.Lower(cidr)), devices);
    I.RunKeeps(I.Fresh(I.Upper(cidr)), names);
    RunPrefix(I.Fresh(I.Lower(cidr)), devices);
    RunPrefix(I.Fresh(I.Upper(cidr)), names);
    FreshPrefix(I.Lower(cidr));
    FreshPrefix(I.Upper(cidr));
  }

  lemma {:induction false} FreshPrefix(p: Prefix)
    ensures I.Fresh(p).prefix == p
  {
  }

  lemma {:induction false} RunPrefix(s: I.State, keys: seq<string>)
    ensures I.Run(s, keys).prefix == s.prefix
    decreases |keys|
  {
    if keys != [] { RunPrefix(I.Request(s, keys[0]).0, keys[1..]); }
  }

  /** All of it lies in the network's range, node and service addresses never meet, and two
      addresses of the range (each half's network address) are never handed out. */
  lemma {:induction false} HandedOutBound(cidr: Prefix, nodes: I.State, services: I.State)
    requires ServerState(cidr, nodes, services)
    ensures forall a :: a in HandedOut(nodes, services) ==> Contains(cidr, a) && a != Base(cidr)
    ensures nodes.byKey.Values !! services.byKey.Values
    ensures |HandedOut(nodes, services)| <= Size(cidr) - 2
  {
    I.HalvesPartition(cidr);
    ValuesSize(nodes.byKey);
    ValuesSize(services.byKey);
    forall a | a in nodes.byKey.Values ensures Contains(I.Lower(cidr), a) && a != Base(cidr) {
      var k :| k in nodes.byKey && nodes.byKey[k] == a;
    }
    forall a | a in services.byKey.Values ensures Contains(I.Upper(cidr), a) && a != Base(cidr) {
      var k :| k in services.byKey && services.byKey[k] == a;
    }
    assert |HandedOut(nodes, services)| <= |nodes.byKey.Values| + |services.byKey.Values|;
  }

  /** A fresh table over a local range at least as large as the overlay serves every address the
      server can have handed out, whatever the order of the requests; the one exception is the last
      address of the IPv4 space under a local range of /0, whose size wraps. */
  lemma {:induction false} NeverExhausts(cidr: Prefix, nodes: I.State, services: I.State, local: Prefix,
                                         reqs: seq<Addr>, k: nat)
    requires ServerState(cidr, nodes, services)
    requires local.bits <= 30 && Size(cidr) <= Size(local)
    requires k < |reqs| && forall r :: r in reqs ==> r in HandedOut(nodes, services)
    ensures T.Request(T.Run(T.Fresh(local, cidr), reqs[..k]), reqs[k]).1.Some?
       <==> (local.bits == 0 ==> reqs[k] != 0xffff_ffff)
  {
    var s := T.Run(T.Fresh(local, cidr), reqs[..k]);
    var handed := HandedOut(nodes, services);
    FreshTable(local, cidr);
    T.RunKeeps(T.Fresh(local, cidr), reqs[..k]);
    RunCounts(T.Fresh(local, cidr), reqs[..k]);
    HandedOutBound(cidr, nodes, services);
    T.RefusedIff(s, reqs[k]);
    NetworkAddressZero(cidr);
    hide T.Run, T.Request, T.Exhausted, ServerState, HandedOut, Contains, Size, T.Fresh;
    if reqs[k] !in s.toLocal {
      RoomLeft(s, handed, reqs[k]);
    } else if local.bits == 0 {
      WideTableUsable(s, reqs[k]);
    }
  }

  lemma {:induction false} WideTableUsable(s: T.State, addr: Addr)
    requires T.Inv(s) && s.size == 0 && addr in s.toLocal
    ensures addr != 0xffff_ffff
  {
    hide Base, Size, Floor, Contains, T.Shaped;
    assert s.toLocal[addr] - s.base in s.used;
  }

  lemma {:induction false} NetworkAddressZero(cidr: Prefix)
    ensures Contains(cidr, 0) ==> Base(cidr) == 0
  {
  }

  lemma {:induction false} FreshTable(local: Prefix, cidr: Prefix)
    requires local.bits <= 30
    ensures var s := T.Fresh(local, cidr);
      && T.Inv(s) && Counted(s) && s.toLocal == map[]
      && (s.size == 0 <==> local.bits == 0) && T.Span(s) == Size(local)
      && forall a :: Contains(s.overlay, a) <==> Contains(cidr, a)
  {
    hide T.Shaped, T.Linked, T.Ranged, Base, Size;
    T.FreshInv(local, cidr);
    T.SpanIsSize(local);
    SameOverlay(cidr);
  }

  // ----- a table asked for anything -----

  /** Every index is taken exactly when span - 2 addresses are mapped. */
  lemma {:induction false} FullWhen(s: T.State)
    requires T.Ranged(s) && T.Linked(s) && Counted(s) && s.size != 0
    ensures |s.toLocal| <= T.Span(s) - 2
    ensures T.Exhausted(s) <==> |s.toLocal| == T.Span(s) - 2
  {
    var all := Range(1, T.Span(s) - 1);
    var indexes := AsInts(s.used);
    SubsetSize(indexes, all);
    if T.Exhausted(s) {
      assert forall i: uint32 :: 1 <= i < s.size - 1 ==> i in s.used;
      SubsetSize(all, indexes);
    }
    if |indexes| == |all| && indexes != all {
      var i :| i in all && i !in indexes;
      SubsetSize(indexes, all - {i});
      assert false;
    }
  }

  lemma {:induction false} RunLast(s: T.State, reqs: seq<Addr>)
    requires reqs != []
    ensures T.Run(s, reqs) == T.Request(T.Run(s, reqs[..|reqs| - 1]), reqs[|reqs| - 1]).0
  {
    hide T.Request;
    var n := |reqs| - 1;
    assert reqs == reqs[..n] + [reqs[n]];
    T.RunConcat(s, reqs[..n], [reqs[n]]);
    assert [reqs[n]][1..] == [];
  }

  lemma {:induction false} ServedLast(reqs: seq<Addr>, cidr: Prefix)
    requires reqs != []
    ensures var last := reqs[|reqs| - 1];
      T.Served(reqs, cidr) == T.Served(reqs[..|reqs| - 1], cidr) + if Contains(cidr, last) then {last} else {}
  {
    hide Contains;
    var n := |reqs| - 1;
    assert forall r :: r in reqs <==> r in reqs[..n] || r == reqs[n];
  }

  /** A fresh table maps every overlay address it is asked for until span - 2 different ones have
      been; from then on it is full. */
  lemma {:induction false} FillsUp(local: Prefix, cidr: Prefix, reqs: seq<Addr>)
    requires 1 <= local.bits <= 30
    ensures var s := T.Run(T.Fresh(local, cidr), reqs);
      && T.Inv(s) && Counted(s) && s.size != 0 && T.Span(s) == Size(local)
      && s.overlay == Masked(cidr) && s.toLocal.Keys <= T.Served(reqs, cidr)
      && (T.Exhausted(s) <==> |T.Served(reqs, cidr)| >= Size(local) - 2)
      && (!T.Exhausted(s) ==> s.toLocal.Keys == T.Served(reqs, cidr))
  {
    FreshTable(local, cidr);
    var s := T.Run(T.Fresh(local, cidr), reqs);
    if reqs == [] {
      FullWhen(s);
      T.SpanIsSize(local);
    } else {
      var front, last := reqs[..|reqs| - 1], reqs[|reqs| - 1];
      var before := T.Run(T.Fresh(local, cidr), front);
      FillsUp(local, cidr, front);
      RunLast(T.Fresh(local, cidr), reqs);
      ServedLast(reqs, cidr);
      SubsetSize(T.Served(front, cidr), T.Served(reqs, cidr));
      MaskedIsStable(cidr);
      OneMore(before, last, T.Served(front, cidr), cidr);
    }
  }

  lemma {:induction false} OneMore(s: T.State, addr: Addr, asked: set<Addr>, cidr: Prefix)
    requires T.Inv(s) && Counted(s) && s.size != 0 && s.overlay == Masked(cidr)
    requires s.toLocal.Keys <= asked
    requires T.Exhausted(s) <==> |asked| >= T.Span(s) - 2
    requires !T.Exhausted(s) ==> s.toLocal.Keys == asked
    ensures var t := T.Request(s, addr).0;
      var now := asked + if Contains(cidr, addr) then {addr} else {};
      && T.Inv(t) && Counted(t) && t.size == s.size && t.overlay == s.overlay
      && t.toLocal.Keys <= now
      && (T.Exhausted(t) <==> |now| >= T.Span(s) - 2)
      && (!T.Exhausted(t) ==> t.toLocal.Keys == now)
  {
    hide T.Request, T.Linked, T.Shaped, T.Exhausted, Contains, Size, Base, Masked;
    var t := T.Request(s, addr).0;
    T.LocalKeeps(s, addr);
    RequestCounts(s, addr);
    T.RefusedIff(s, addr);
    FullWhen(s);
    FullWhen(t);
    SameOverlay(cidr);
    var now := asked + if Contains(cidr, addr) then {addr} else {};
    SubsetSize(asked, now);
    assert |t.toLocal| == |t.toLocal.Keys| && |s.toLocal| == |s.toLocal.Keys|;
    if !T.Exhausted(s) {
      assert t.toLocal.Keys == now;
    } else {
      assert t.toLocal.Keys == s.toLocal.Keys;
    }
  }

  lemma {:induction false} SameOverlay(cidr: Prefix)
    ensures forall a :: Contains(Masked(cidr), a) <==> Contains(cidr, a)
  {
    MaskedIsStable(cidr);
    assert Size(Masked(cidr)) == Size(cidr);
  }

  /** The answer to the next request, and the mapping it leaves. */
  lemma {:induction false} NextAnswer(local: Prefix, cidr: Prefix, reqs: seq<Addr>, addr: Addr)
    requires 1 <= local.bits <= 30
    ensures var s := T.Run(T.Fresh(local, cidr), reqs);
      var (t, got) := T.Request(s, addr);
      && (got.Some? <==> Contains(cidr, addr) && (addr in s.toLocal || |T.Served(reqs, cidr)| < Size(local) - 2))
      && t.toLocal.Keys == s.toLocal.Keys + if got.Some? then {addr} else {}
  {
    hide T.Run, T.Request, T.Fresh, T.Shaped, T.Ranged, T.Linked, T.Exhausted, Contains, Size, Masked;
    FillsUp(local, cidr, reqs);
    T.LocalKeeps(T.Run(T.Fresh(local, cidr), reqs), addr);
    T.RefusedIff(T.Run(T.Fresh(local, cidr), reqs), addr);
    SameOverlay(cidr);
  }

  /** At some time the address was asked for, fewer than room different addresses of the overlay had
      been asked for before. */
  predicate AskedInTime(cidr: Prefix, reqs: seq<Addr>, addr: Addr, room: int) {
    exists k :: 0 <= k < |reqs| && reqs[k] == addr && |T.Served(reqs[..k], cidr)| < room
  }

  lemma {:induction false} AskedInTimeLast(cidr: Prefix, reqs: seq<Addr>, addr: Addr, room: int)
    requires reqs != []
    ensures var n := |reqs| - 1;
      AskedInTime(cidr, reqs, addr, room)
      <==> AskedInTime(cidr, reqs[..n], addr, room) || (reqs[n] == addr && |T.Served(reqs[..n], cidr)| < room)
  {
    hide Contains;
    var n := |reqs| - 1;
    var front := reqs[..n];
    assert forall k {:trigger reqs[..k]} :: 0 <= k < n ==> front[..k] == reqs[..k] && front[k] == reqs[k];
    if AskedInTime(cidr, reqs, addr, room) {
      var k :| 0 <= k < |reqs| && reqs[k] == addr && |T.Served(reqs[..k], cidr)| < room;
      if k < n { assert front[..k] == reqs[..k] && front[k] == addr; }
    }
    if AskedInTime(cidr, front, addr, room) {
      var k :| 0 <= k < |front| && front[k] == addr && |T.Served(front[..k], cidr)| < room;
      assert front[..k] == reqs[..k] && reqs[k] == addr;
    }
  }

  /** Whatever a fresh table is asked, by this node or by its peers' packets, it ends up mapping
      exactly the overlay addresses asked for in time. */
  lemma {:induction false} MappedIff(local: Prefix, cidr: Prefix, reqs: seq<Addr>, addr: Addr)
    requires 1 <= local.bits <= 30
    ensures addr in T.Run(T.Fresh(local, cidr), reqs).toLocal
       <==> Contains(cidr, addr) && AskedInTime(cidr, reqs, addr, Size(local) - 2)
  {
    var fresh_ := T.Fresh(local, cidr);
    if reqs != [] {
      var front, last := reqs[..|reqs| - 1], reqs[|reqs| - 1];
      hide T.Run, T.Request, T.Fresh, AskedInTime, Contains, Size;
      MappedIff(local, cidr, front, addr);
      MappedIff(local, cidr, front, last);
      RunLast(fresh_, reqs);
      AskedInTimeLast(cidr, reqs, addr, Size(local) - 2);
      NextAnswer(local, cidr, front, last);
    } else {
      FreshTable(local, cidr);
    }
  }

  /** Hence the exact condition for the next request to be served. */
  lemma {:induction false} ServedIff(local: Prefix, cidr: Prefix, reqs: seq<Addr>, addr: Addr)
    requires 1 <= local.bits <= 30
    ensures T.Request(T.Run(T.Fresh(local, cidr), reqs), addr).1.Some?
       <==> Contains(cidr, addr) && AskedInTime(cidr, reqs + [addr], addr, Size(local) - 2)
  {
    var fresh_ := T.Fresh(local, cidr);
    hide T.Run, T.Request, T.Fresh, AskedInTime, Contains, Size;
    NextAnswer(local, cidr, reqs, addr);
    assert (reqs + [addr])[..|reqs|] == reqs;
    RunLast(fresh_, reqs + [addr]);
    MappedIff(local, cidr, reqs + [addr], addr);
  }

  /** The addresses of the overlay other than one, in order. */
  function Others(cidr: Prefix, addr: Addr, n: nat): (reqs: seq<Addr>)
    requires n <= Size(cidr)
    ensures forall r :: r in reqs <==> Base(cidr) <= r < Base(cidr) + n && r != addr
    decreases n
  {
    BlockFits(cidr);
    if n == 0 then [] else Others(cidr, addr, n - 1) + if Base(cidr) + n - 1 == addr then [] else [Base(cidr) + n - 1]
  }

  lemma {:induction false} OthersSize(cidr: Prefix, addr: Addr)
    requires Contains(cidr, addr)
    ensures |T.Served(Others(cidr, addr, Size(cidr)), cidr)| == Size(cidr) - 1
  {
    var others := Range(Base(cidr), Base(cidr) + Size(cidr)) - {addr};
    assert |others| == Size(cidr) - 1;
    assert AsInts(T.Served(Others(cidr, addr, Size(cidr)), cidr)) == others;
  }

  /** A local range serves the whole overlay, whatever it is asked and in whatever order, exactly when
      it is larger than the overlay: one of the same size keeps two addresses back. */
  lemma {:induction false} AlwaysServedIff(local: Prefix, cidr: Prefix)
    requires 1 <= local.bits <= 30
    ensures (forall reqs: seq<Addr>, addr: Addr :: Contains(cidr, addr)
               ==> T.Request(T.Run(T.Fresh(local, cidr), reqs), addr).1.Some?)
       <==> Size(cidr) < Size(local)
  {
    if Size(cidr) < Size(local) {
      forall reqs: seq<Addr>, addr: Addr | Contains(cidr, addr)
        ensures T.Request(T.Run(T.Fresh(local, cidr), reqs), addr).1.Some?
      {
        LargerServes(local, cidr, reqs, addr);
      }
    } else {
      var addr := Base(cidr);
      assert Contains(cidr, addr);
      EqualRefuses(local, cidr, addr);
    }
  }

  lemma {:induction false} LargerServes(local: Prefix, cidr: Prefix, reqs: seq<Addr>, addr: Addr)
    requires 1 <= local.bits <= 30 && Size(cidr) < Size(local) && Contains(cidr, addr)
    ensures T.Request(T.Run(T.Fresh(local, cidr), reqs), addr).1.Some?
  {
    hide T.Run, T.Request, T.Fresh;
    var s := T.Run(T.Fresh(local, cidr), reqs);
    FillsUp(local, cidr, reqs);
    TwoToSpare(local, cidr);
    NextAnswer(local, cidr, reqs, addr);
    if addr !in s.toLocal && |T.Served(reqs, cidr)| >= Size(local) - 2 {
      FullAndMissing(s, cidr, addr);
      assert false;
    }
  }

  lemma {:induction false} FullAndMissing(s: T.State, cidr: Prefix, addr: Addr)
    requires T.Ranged(s) && T.Linked(s) && Counted(s) && s.size != 0 && T.Exhausted(s)
    requires forall a :: a in s.toLocal ==> Contains(cidr, a)
    requires Contains(cidr, addr) && addr !in s.toLocal
    ensures T.Span(s) - 1 <= Size(cidr)
  {
    FullWhen(s);
    hide T.Ranged, T.Linked, T.Exhausted;
    SubsetSize(AsInts(s.toLocal.Keys), Range(Base(cidr), Base(cidr) + Size(cidr)) - {addr});
  }

  lemma {:induction false} TwoToSpare(local: Prefix, cidr: Prefix)
    requires local.bits <= 30 && Size(cidr) < Size(local)
    ensures Size(cidr) + 2 <= Size(local)
  {
    if cidr.bits <= local.bits { Pow2Monotone(32 - local.bits, 32 - cidr.bits); }
    Pow2Monotone(32 - cidr.bits, 32 - local.bits);
    T.SpanIsSize(local);
  }

  /** Asked for every other address first, a range no larger than the overlay refuses any one. */
  lemma {:induction false} EqualRefuses(local: Prefix, cidr: Prefix, addr: Addr)
    requires 1 <= local.bits <= 30 && Size(local) <= Size(cidr) && Contains(cidr, addr)
    ensures T.Request(T.Run(T.Fresh(local, cidr), Others(cidr, addr, Size(cidr))), addr).1.None?
  {
    OthersSize(cidr, addr);
    Crowded(local, cidr, Others(cidr, addr, Size(cidr)), addr);
  }

  lemma {:induction false} Crowded(local: Prefix, cidr: Prefix, reqs: seq<Addr>, addr: Addr)
    requires 1 <= local.bits <= 30 && Contains(cidr, addr) && addr !in reqs
    requires |T.Served(reqs, cidr)| >= Size(local) - 2
    ensures T.Request(T.Run(T.Fresh(local, cidr), reqs), addr).1.None?
  {
    hide T.Run, T.Request, T.Fresh;
    NextAnswer(local, cidr, reqs, addr);
    FillsUp(local, cidr, reqs);
  }

  lemma {:induction false} SixteenAt16()
    ensures var cidr, local := Prefix(16, 28), Prefix(0, 28);
      Size(cidr) == Size(local) == 16 && Base(cidr) == 16 && Contains(I.Upper(cidr), 30)
  {
    var cidr: Prefix := Prefix(16, 28);
    assert Size(cidr) == Pow2(4) == 16;
    assert Floor(16, 16) == 16;
    I.HalvesPartition(cidr);
  }

  lemma {:induction false} FourteenAsked(cidr: Prefix, reqs: seq<Addr>)
    requires Base(cidr) == 16 && Size(cidr) == 16
    requires forall r: Addr :: 16 <= r < 30 ==> r in reqs
    ensures |T.Served(reqs, cidr)| >= 14
  {
    hide Base, Size;
    var asked := AsInts(T.Served(reqs, cidr));
    forall i | i in Range(16, 30) ensures i in asked {
      var r: Addr := i;
      assert r in reqs && Contains(cidr, r);
    }
    SubsetSize(Range(16, 30), asked);
  }

  /** For example: network 0.0.0.16/28, local range 0.0.0.0/28, and packets to 16 up to 29; then the
      sixth service address, 30, has no local address left. */
  lemma {:induction false} EqualRangeExample(reqs: seq<Addr>)
    requires reqs == [16, 17, 18, 19, 20, 21, 22, 23, 24, 25, 26, 27, 28, 29]
    ensures var cidr, local := Prefix(16, 28), Prefix(0, 28);
      Size(cidr) == Size(local) && Contains(I.Upper(cidr), 30)
      && T.Request(T.Run(T.Fresh(local, cidr), reqs), 30).1.None?
  {
    hide T.Run, T.Request, T.Fresh, Size, Base;
    SixteenAt16();
    forall r: Addr | 16 <= r < 30 ensures r in reqs { assert reqs[r - 16] == r; }
    FourteenAsked(Prefix(16, 28), reqs);
    Crowded(Prefix(0, 28), Prefix(16, 28), reqs, 30);
  }
}
