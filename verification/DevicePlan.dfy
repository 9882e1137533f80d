/** All the networks of one device together: their slices and their tables over whole runs. */
module DevicePlan {
  import opened Net
  import M = Manager
  import T = Table

  datatype Op =
    | Connect(alias: string, overlay: Prefix, starts: bool)
    | Disconnect(alias: string)
    | Forget(alias: string)
    | Lookup(alias: string, addr: Addr)

  datatype Sys = Sys(m: M.State, tables: map<string, T.State>)

  const IDLE := Sys(M.State(map[], []), map[])

  function Apply(c: M.Config, s: Sys, op: Op): Sys {
    match op
    case Connect(alias, overlay, starts) =>
      var (m, r) := M.AfterConnect(c, s.m, alias, starts);
      var rest := s.tables - {alias};
      Sys(m, if r.Ok? && r.value.Some? && r.value.value.bits <= 30
          then rest[alias := T.Fresh(r.value.value, overlay)] else rest)
    case Disconnect(alias) => Sys(M.AfterDisconnect(s.m, alias), s.tables - {alias})
    case Forget(alias) => Sys(M.AfterForget(s.m, alias), s.tables - {alias})
    case Lookup(alias, addr) =>
      if alias in s.tables then s.(tables := s.tables[alias := T.Request(s.tables[alias], addr).0]) else s
  }

  function Run(c: M.Config, ops: seq<Op>): Sys {
    if ops == [] then IDLE else Apply(c, Run(c, ops[..|ops| - 1]), ops[|ops| - 1])
  }

  ghost predicate TableOk(m: M.State, alias: string, t: T.State) {
    T.Inv(t) && alias in m.nets && m.nets[alias] == Some(t.prefix)
  }

  ghost predicate Inv(c: M.Config, s: Sys) {
    && M.Inv(c, s.m)
    && s.tables.Keys == s.m.nets.Keys
    && forall a :: a in s.tables ==> TableOk(s.m, a, s.tables[a])
  }

  lemma {:induction false} ApplyKeeps(c: M.Config, s: Sys, op: Op)
    requires !c.noTranslate && Inv(c, s)
    ensures Inv(c, Apply(c, s, op))
  {
    hide M.Inv, T.Inv, M.AfterForget, M.AfterConnect, T.Fresh, T.Request;
    match op
    case Connect(alias, overlay, starts) =>
      M.ConnectKeeps(c, s.m, alias, starts);
      ConnectParts(c, s.m, alias, starts, overlay);
    case Disconnect(alias) =>
      M.DisconnectKeeps(c, s.m, alias);
    case Forget(alias) =>
      M.ForgetKeeps(c, s.m, alias);
      assert M.AfterForget(s.m, alias).nets == s.m.nets - {alias} by { ForgetNets(s.m, alias); }
    case Lookup(alias, addr) =>
      if alias in s.tables {
        T.LocalKeeps(s.tables[alias], addr);
      }
  }

  lemma {:induction false} ForgetNets(s: M.State, alias: string)
    ensures M.AfterForget(s, alias).nets == s.nets - {alias}
  {
  }

  /** What connecting leaves: the other networks as they were, and the new one with a fresh table
      over a slice NewTable accepts. */
  lemma {:induction false} ConnectParts(c: M.Config, s: M.State, alias: string, starts: bool, overlay: Prefix)
    requires !c.noTranslate && M.Inv(c, s)
    ensures var (t, r) := M.AfterConnect(c, s, alias, starts);
      && t.nets == (if r.Ok? then (s.nets - {alias})[alias := r.value] else s.nets - {alias})
      && (r.Ok? ==> r.value.Some? && 1 <= r.value.value.bits <= 30)
      && (r.Ok? ==> T.Inv(T.Fresh(r.value.value, overlay)) && T.Fresh(r.value.value, overlay).prefix == r.value.value)
  {
    hide M.Inv, T.Inv, M.Slice, M.FirstFree, Base, Size;
    var taken := (s.nets - {alias}).Values;
    M.FreePrefixFailsIff(c, taken);
    if M.FreePrefix(c, taken).Ok? {
      var i :| 0 <= i < M.Count(c) && M.FreePrefix(c, taken).value == Some(M.Slice(c, i));
      M.SliceShape(c, i);
      T.FreshInv(M.Slice(c, i), overlay);
    }
  }

  lemma {:induction false} RunKeeps(c: M.Config, ops: seq<Op>)
    requires !c.noTranslate
    ensures Inv(c, Run(c, ops))
  {
    hide Apply;
    if ops != [] {
      RunKeeps(c, ops[..|ops| - 1]);
      ApplyKeeps(c, Run(c, ops[..|ops| - 1]), ops[|ops| - 1]);
    }
  }

  /** Over every serialised run, live networks hold pairwise disjoint slices inside the pool. */
  lemma {:induction false} LiveSlicesDisjoint(c: M.Config, ops: seq<Op>, a: string, b: string)
    requires !c.noTranslate && a in Run(c, ops).m.nets && b in Run(c, ops).m.nets && a != b
    ensures var nets := Run(c, ops).m.nets;
      && nets[a].Some? && nets[b].Some?
      && (forall x :: !(Contains(nets[a].value, x) && Contains(nets[b].value, x)))
      && (forall x :: Contains(nets[a].value, x) ==> Contains(c.pool, x))
  {
    RunKeeps(c, ops);
    hide Run, Contains, M.Slice, M.Count, M.Fits, M.Remembered;
    var nets := Run(c, ops).m.nets;
    var i :| 0 <= i < M.Count(c) && nets[a] == Some(M.Slice(c, i));
    var j :| 0 <= j < M.Count(c) && nets[b] == Some(M.Slice(c, j));
    M.SlicesDisjoint(c, i, j);
    M.SliceShape(c, i);
  }

  /** Hence a local address on this device names one network and one overlay address in it. */
  lemma {:induction false} LocalAddressesUnambiguous(c: M.Config, ops: seq<Op>, a: string, x: Addr, b: string, y: Addr)
    requires !c.noTranslate
    requires a in Run(c, ops).tables && x in Run(c, ops).tables[a].toLocal
    requires b in Run(c, ops).tables && y in Run(c, ops).tables[b].toLocal
    requires Run(c, ops).tables[a].toLocal[x] == Run(c, ops).tables[b].toLocal[y]
    ensures a == b && x == y
  {
    var s := Run(c, ops);
    RunKeeps(c, ops);
    assert TableOk(s.m, a, s.tables[a]) && TableOk(s.m, b, s.tables[b]);
    hide Run, Contains, M.Inv, T.Shaped, T.Ranged;
    T.LocalsInRange(s.tables[a], x);
    T.LocalsInRange(s.tables[b], y);
    if a != b {
      LiveSlicesDisjoint(c, ops, a, b);
    }
  }
}
