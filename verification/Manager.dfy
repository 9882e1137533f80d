/** The networks a device has joined, each with its own slice of one local pool. */
module Manager {
  import opened Net

  datatype Config = Config(pool: Prefix, bits: nat, noTranslate: bool)
  datatype Saved = Saved(alias: string, autoConnect: bool)

  /** nets maps a live network's alias to its slice; None is the invalid prefix of an untranslated one. */
  datatype State = State(nets: map<string, Option<Prefix>>, saved: seq<Saved>)

  datatype Error = NoFit | PoolTaken | StartFailed
  datatype Result<T> = Ok(value: T) | Err(error: Error)

  // ----- slices -----

  predicate Fits(c: Config) { c.pool.bits < c.bits <= 30 }

  function Step(c: Config): nat
    requires Fits(c)
  {
    Pow2(32 - c.bits)
  }

  function Count(c: Config): nat
    requires Fits(c)
  {
    Pow2(c.bits - c.pool.bits)
  }

  /** The i-th slice of the pool, in exact arithmetic. */
  function Slice(c: Config, i: nat): Prefix
    requires Fits(c) && i < Count(c)
  {
    SliceFits(c, i);
    Prefix(Base(c.pool) + i * Step(c), c.bits)
  }

  /** The 32-bit arithmetic never wraps, and every slice is an aligned block inside the pool. */
  lemma {:induction false} SliceFits(c: Config, i: nat)
    requires Fits(c) && i < Count(c)
    ensures 1 <= Step(c) < SPACE && Count(c) < SPACE && 0 <= i * Step(c) < SPACE
    ensures Base(c.pool) + i * Step(c) + Step(c) <= Base(c.pool) + Size(c.pool) <= SPACE
    ensures Aligned(Base(c.pool) + i * Step(c), Step(c))
  {
    hide Base, Size, Pow2, Aligned, Floor;
    BlockFits(c.pool);
    StepAndCount(c);
    Tile(Base(c.pool), Count(c), Step(c), i);
  }

  lemma {:induction false} StepAndCount(c: Config)
    requires Fits(c)
    ensures 1 <= Step(c) < SPACE && 1 <= Count(c) < SPACE && Size(c.pool) == Count(c) * Step(c)
  {
    hide Pow2, Size;
    Pow2Add(c.bits - c.pool.bits, 32 - c.bits);
    SizeIs(c.pool);
    Pow2Of32();
    Pow2Monotone(32 - c.bits, 32);
    Pow2Monotone(c.bits - c.pool.bits, 32);
  }

  lemma {:induction false} SizeIs(p: Prefix)
    ensures Size(p) == Pow2(32 - p.bits)
  {
  }

  /** The i-th of n tiles of size s in an aligned block. */
  lemma {:induction false} Tile(b: nat, n: nat, s: nat, i: nat)
    requires i < n && s > 0 && n * s > 0 && Aligned(b, n * s)
    ensures 0 <= i * s && i * s + s <= n * s
    ensures Aligned(b + i * s, s)
  {
    hide Aligned, Floor;
    MulMonotone(i + 1, n, s);
    assert (i + 1) * s == i * s + s;
    AlignedFiner(b, n, s);
    AlignedMultiple(i, s);
    AlignedSum(b, i * s, s);
  }

  lemma {:induction false} SliceShape(c: Config, i: nat)
    requires Fits(c) && i < Count(c)
    ensures var p := Slice(c, i);
      && Masked(p) == p && 1 <= p.bits <= 30 && Size(p) == Step(c)
      && forall a :: Contains(p, a) ==> Contains(c.pool, a)
  {
    hide Floor, Pow2;
    SliceFits(c, i);
    BlockFits(c.pool);
  }

  lemma {:induction false} SlicesDisjoint(c: Config, i: nat, j: nat)
    requires Fits(c) && i < Count(c) && j < Count(c) && i != j
    ensures Slice(c, i) != Slice(c, j)
    ensures forall a :: !(Contains(Slice(c, i), a) && Contains(Slice(c, j), a))
  {
    hide Base, Size, Floor, Pow2;
    SliceShape(c, i);
    SliceShape(c, j);
    var s := Step(c);
    if i < j {
      MulMonotone(i + 1, j, s);
      assert (i + 1) * s == i * s + s;
    } else {
      MulMonotone(j + 1, i, s);
      assert (j + 1) * s == j * s + s;
    }
  }

  // ----- allocation -----

  /** The first slice from i on that no live network holds. */
  function FirstFree(c: Config, taken: set<Option<Prefix>>, i: nat): Option<Prefix>
    requires Fits(c) && i <= Count(c)
    decreases Count(c) - i
  {
    if i == Count(c) then None
    else if Some(Slice(c, i)) !in taken then Some(Slice(c, i))
    else FirstFree(c, taken, i + 1)
  }

  function FreePrefix(c: Config, taken: set<Option<Prefix>>): Result<Option<Prefix>> {
    if c.noTranslate then Ok(None)
    else if !Fits(c) then Err(NoFit)
    else match FirstFree(c, taken, 0)
      case None => Err(PoolTaken)
      case Some(p) => Ok(Some(p))
  }

  predicate AllTaken(c: Config, taken: set<Option<Prefix>>, i: nat, j: nat)
    requires Fits(c) && j <= Count(c)
  {
    forall k :: i <= k < j ==> Some(Slice(c, k)) in taken
  }

  lemma {:induction false} FirstFreeIsFirst(c: Config, taken: set<Option<Prefix>>, i: nat)
    requires Fits(c) && i <= Count(c)
    ensures match FirstFree(c, taken, i)
      case None => forall j :: i <= j < Count(c) ==> Some(Slice(c, j)) in taken
      case Some(p) =>
        && Some(p) !in taken
        && exists j :: i <= j < Count(c) && p == Slice(c, j) && AllTaken(c, taken, i, j)
    decreases Count(c) - i
  {
    hide Slice;
    if i < Count(c) && Some(Slice(c, i)) in taken {
      FirstFreeIsFirst(c, taken, i + 1);
    }
  }

  /** Allocation fails exactly when the slice size does not fit or every slice is taken. */
  lemma {:induction false} FreePrefixFailsIff(c: Config, taken: set<Option<Prefix>>)
    ensures FreePrefix(c, taken).Err? <==>
      !c.noTranslate && (!Fits(c) || forall j :: 0 <= j < Count(c) ==> Some(Slice(c, j)) in taken)
    ensures c.noTranslate ==> FreePrefix(c, taken) == Ok(None)
    ensures FreePrefix(c, taken).Ok? && !c.noTranslate ==>
      && Fits(c) && FreePrefix(c, taken).value !in taken
      && exists j :: 0 <= j < Count(c) && FreePrefix(c, taken).value == Some(Slice(c, j))
  {
    hide Slice;
    if Fits(c) { FirstFreeIsFirst(c, taken, 0); }
  }

  // ----- transitions -----

  function Remember(saved: seq<Saved>, alias: string): seq<Saved> {
    if saved == [] then [Saved(alias, true)]
    else if saved[0].alias == alias then [Saved(alias, true)] + saved[1..]
    else [saved[0]] + Remember(saved[1..], alias)
  }

  function Unmark(saved: seq<Saved>, alias: string): seq<Saved> {
    if saved == [] then []
    else [if saved[0].alias == alias then Saved(alias, false) else saved[0]] + Unmark(saved[1..], alias)
  }

  function Drop(saved: seq<Saved>, alias: string): seq<Saved> {
    if saved == [] then []
    else (if saved[0].alias == alias then [] else [saved[0]]) + Drop(saved[1..], alias)
  }

  /** Connect as one step: an alias already up is taken down first, and the network is remembered
      whether or not it comes up. */
  function AfterConnect(c: Config, s: State, alias: string, starts: bool): (State, Result<Option<Prefix>>) {
    var nets := s.nets - {alias};
    var down := State(nets, Remember(s.saved, alias));
    match FreePrefix(c, nets.Values)
    case Err(e) => (down, Err(e))
    case Ok(p) => if !starts then (down, Err(StartFailed)) else (down.(nets := nets[alias := p]), Ok(p))
  }

  function AfterDisconnect(s: State, alias: string): State {
    State(s.nets - {alias}, Unmark(s.saved, alias))
  }

  function AfterForget(s: State, alias: string): State {
    var d := AfterDisconnect(s, alias);
    d.(saved := Drop(d.saved, alias))
  }

  /** Live networks hold distinct slices of the pool. */
  ghost predicate Tiled(c: Config, nets: map<string, Option<Prefix>>) {
    && (forall a :: a in nets ==>
        if c.noTranslate then nets[a] == None
        else Fits(c) && exists i :: 0 <= i < Count(c) && nets[a] == Some(Slice(c, i)))
    && (forall a, b :: a in nets && b in nets && !c.noTranslate && nets[a] == nets[b] ==> a == b)
  }

  /** Each live network is remembered as connected, and no alias is remembered twice. */
  ghost predicate Remembered(s: State) {
    && (forall a :: a in s.nets ==> Saved(a, true) in s.saved)
    && (forall i, j :: 0 <= i < j < |s.saved| ==> s.saved[i].alias != s.saved[j].alias)
  }

  ghost predicate Inv(c: Config, s: State) { Tiled(c, s.nets) && Remembered(s) }

  lemma {:induction false} RememberSpec(saved: seq<Saved>, alias: string)
    requires forall i, j :: 0 <= i < j < |saved| ==> saved[i].alias != saved[j].alias
    ensures var r := Remember(saved, alias);
      && (forall x :: x in r <==> x == Saved(alias, true) || (x in saved && x.alias != alias))
      && (forall i, j :: 0 <= i < j < |r| ==> r[i].alias != r[j].alias)
  {
    if saved != [] && saved[0].alias != alias {
      RememberSpec(saved[1..], alias);
      var r := Remember(saved[1..], alias);
      assert forall x :: x in saved <==> x == saved[0] || x in saved[1..];
      assert forall j :: 0 <= j < |r| ==> r[j] in r && r[j].alias != saved[0].alias;
    }
  }

  lemma {:induction false} UnmarkSpec(saved: seq<Saved>, alias: string)
    ensures var r := Unmark(saved, alias);
      && |r| == |saved|
      && forall i :: 0 <= i < |r| ==> r[i] == if saved[i].alias == alias then Saved(alias, false) else saved[i]
  {
    if saved != [] { UnmarkSpec(saved[1..], alias); }
  }

  lemma {:induction false} DropSpec(saved: seq<Saved>, alias: string)
    requires forall i, j :: 0 <= i < j < |saved| ==> saved[i].alias != saved[j].alias
    ensures var r := Drop(saved, alias);
      && (forall x :: x in r <==> x in saved && x.alias != alias)
      && (forall i, j :: 0 <= i < j < |r| ==> r[i].alias != r[j].alias)
  {
    DropHas(saved, alias);
    if saved != [] {
      DropSpec(saved[1..], alias);
      var r := Drop(saved[1..], alias);
      forall j | 0 <= j < |r| ensures r[j].alias != saved[0].alias {
        assert r[j] in r;
        var k :| 0 <= k < |saved[1..]| && saved[1..][k] == r[j];
        assert saved[k + 1] == r[j];
      }
    }
  }

  lemma {:induction false} DropHas(saved: seq<Saved>, alias: string)
    ensures forall x :: x in Drop(saved, alias) <==> x in saved && x.alias != alias
  {
    if saved != [] {
      DropHas(saved[1..], alias);
      assert forall x :: x in saved <==> x == saved[0] || x in saved[1..];
    }
  }

  lemma {:induction false} TakenSliceTiled(c: Config, nets: map<string, Option<Prefix>>, alias: string)
    requires Tiled(c, nets) && alias !in nets && FreePrefix(c, nets.Values).Ok?
    ensures Tiled(c, nets[alias := FreePrefix(c, nets.Values).value])
  {
    hide Slice, Fits, Count, FreePrefix;
    FreePrefixFailsIff(c, nets.Values);
    assert forall a :: a in nets ==> nets[a] in nets.Values;
  }

  /** Connecting keeps the slices distinct and inside the pool, and the live networks remembered. */
  lemma {:induction false} ConnectKeeps(c: Config, s: State, alias: string, starts: bool)
    requires Inv(c, s)
    ensures Inv(c, AfterConnect(c, s, alias, starts).0)
    ensures Saved(alias, true) in AfterConnect(c, s, alias, starts).0.saved
    ensures forall x :: x in s.saved && x.alias != alias ==> x in AfterConnect(c, s, alias, starts).0.saved
  {
    var nets := s.nets - {alias};
    assert Tiled(c, nets);
    hide Tiled, Remember, FreePrefix;
    RememberSpec(s.saved, alias);
    if FreePrefix(c, nets.Values).Ok? { TakenSliceTiled(c, nets, alias); }
  }

  lemma {:induction false} DisconnectKeeps(c: Config, s: State, alias: string)
    requires Inv(c, s)
    ensures Inv(c, AfterDisconnect(s, alias))
  {
    hide Slice, Fits, Count;
    UnmarkSpec(s.saved, alias);
    var t := AfterDisconnect(s, alias);
    forall a | a in t.nets ensures Saved(a, true) in t.saved {
      var i :| 0 <= i < |s.saved| && s.saved[i] == Saved(a, true);
      assert t.saved[i] == Saved(a, true);
    }
  }

  lemma {:induction false} ForgetKeeps(c: Config, s: State, alias: string)
    requires Inv(c, s)
    ensures Inv(c, AfterForget(s, alias))
    ensures forall x :: x in AfterForget(s, alias).saved ==> x.alias != alias
  {
    hide Slice, Fits, Count;
    DisconnectKeeps(c, s, alias);
    DropSpec(AfterDisconnect(s, alias).saved, alias);
  }

  // ----- what the transitions come to -----

  /** No live network other than the one being connected holds the slice. */
  predicate Unheld(c: Config, s: State, alias: string, i: nat)
    requires Fits(c) && i < Count(c)
  {
    forall a :: a in s.nets && a != alias ==> s.nets[a] != Some(Slice(c, i))
  }

  /** Connecting succeeds exactly when the network starts and there is a slice for it, the lowest nobody
      else holds; every other network keeps its own, and a failure leaves this one down. */
  lemma {:induction false} ConnectMeans(c: Config, s: State, alias: string, starts: bool)
    ensures var (t, r) := AfterConnect(c, s, alias, starts);
      var slice := Fits(c) && exists i :: 0 <= i < Count(c) && Unheld(c, s, alias, i);
      && r.Ok? == (starts && (c.noTranslate || slice))
      && (r == Err(NoFit) <==> !c.noTranslate && !(c.pool.bits < c.bits <= 30))
      && (r == Err(PoolTaken) <==> !c.noTranslate && Fits(c) && !slice)
      && (forall a :: a != alias ==> (a in t.nets <==> a in s.nets) && (a in s.nets ==> t.nets[a] == s.nets[a]))
      && (r.Err? ==> alias !in t.nets)
      && (r.Ok? ==> alias in t.nets && t.nets[alias] == r.value)
      && (r.Ok? && c.noTranslate ==> r.value == None)
      && (r.Ok? && !c.noTranslate ==>
            exists i :: 0 <= i < Count(c) && r.value == Some(Slice(c, i)) && Unheld(c, s, alias, i)
              && forall j :: 0 <= j < i ==> !Unheld(c, s, alias, j))
  {
    hide Slice, Step, Remember;
    var taken := (s.nets - {alias}).Values;
    if Fits(c) {
      hide Count;
      FirstFreeIsFirst(c, taken, 0);
      forall i: nat | i < Count(c) ensures Unheld(c, s, alias, i) <==> Some(Slice(c, i)) !in taken {
        HeldIffTaken(s, alias, Some(Slice(c, i)));
      }
    }
  }

  lemma {:induction false} HeldIffTaken(s: State, alias: string, x: Option<Prefix>)
    ensures x in (s.nets - {alias}).Values <==> exists a :: a in s.nets && a != alias && s.nets[a] == x
  {
    var rest := s.nets - {alias};
    if a :| a in s.nets && a != alias && s.nets[a] == x {
      assert a in rest && rest[a] == x;
    }
  }

  /** Whatever comes of it the network is remembered as one to connect: in its place if it was
      remembered, else at the end. */
  lemma {:induction false} ConnectRemembers(c: Config, s: State, alias: string, starts: bool)
    requires forall i, j :: 0 <= i < j < |s.saved| ==> s.saved[i].alias != s.saved[j].alias
    ensures var saved := AfterConnect(c, s, alias, starts).0.saved;
      && |saved| == |s.saved| + (if exists x :: x in s.saved && x.alias == alias then 0 else 1)
      && (forall i :: 0 <= i < |s.saved| ==>
            saved[i] == if s.saved[i].alias == alias then Saved(alias, true) else s.saved[i])
      && (|saved| > |s.saved| ==> saved[|s.saved|] == Saved(alias, true))
  {
    hide FreePrefix;
    RememberedInPlace(s.saved, alias);
  }

  lemma {:induction false} RememberedInPlace(saved: seq<Saved>, alias: string)
    requires forall i, j :: 0 <= i < j < |saved| ==> saved[i].alias != saved[j].alias
    ensures var r := Remember(saved, alias);
      && |r| == |saved| + (if exists x :: x in saved && x.alias == alias then 0 else 1)
      && (forall i :: 0 <= i < |saved| ==> r[i] == if saved[i].alias == alias then Saved(alias, true) else saved[i])
      && (|r| > |saved| ==> r[|saved|] == Saved(alias, true))
  {
    if saved != [] {
      var rest := saved[1..];
      assert forall x :: x in saved <==> x == saved[0] || x in rest;
      RememberedInPlace(rest, alias);
      if saved[0].alias == alias {
        assert saved[0] in saved;
      } else {
        var r := Remember(rest, alias);
        assert Remember(saved, alias) == [saved[0]] + r;
      }
    }
  }

  /** Disconnecting takes the one network down and remembers it as one not to connect. */
  lemma {:induction false} DisconnectMeans(s: State, alias: string)
    ensures var t := AfterDisconnect(s, alias);
      && alias !in t.nets
      && (forall a :: a != alias ==> (a in t.nets <==> a in s.nets) && (a in s.nets ==> t.nets[a] == s.nets[a]))
      && |t.saved| == |s.saved|
      && forall i :: 0 <= i < |s.saved| ==>
           && t.saved[i].alias == s.saved[i].alias
           && t.saved[i].autoConnect == (s.saved[i].autoConnect && s.saved[i].alias != alias)
  {
    UnmarkSpec(s.saved, alias);
  }

  /** Forgetting takes it down and drops it, and nothing else. */
  lemma {:induction false} ForgetMeans(s: State, alias: string)
    ensures var t := AfterForget(s, alias);
      && alias !in t.nets
      && (forall a :: a != alias ==> (a in t.nets <==> a in s.nets) && (a in s.nets ==> t.nets[a] == s.nets[a]))
      && forall x :: x in t.saved <==> x in s.saved && x.alias != alias
  {
    var d := AfterDisconnect(s, alias);
    UnmarkSpec(s.saved, alias);
    DropHas(d.saved, alias);
    forall x: Saved | x.alias != alias ensures x in d.saved <==> x in s.saved {
      if x in s.saved { var i :| 0 <= i < |s.saved| && s.saved[i] == x; assert d.saved[i] == x; }
      if x in d.saved { var i :| 0 <= i < |d.saved| && d.saved[i] == x; assert s.saved[i] == x; }
    }
  }

  // ----- the manager itself -----

  class Networks {
    const cfg: Config
    var nets: map<string, Option<Prefix>>
    var saved: seq<Saved>

    ghost function Now(): State
      reads this
    {
      State(nets, saved)
    }

    constructor (cfg: Config)
      ensures this.cfg == cfg && Now() == State(map[], []) && Inv(cfg, Now())
    {
      this.cfg, nets, saved := cfg, map[], [];
    }

    /** The next unused slice, in the 32-bit arithmetic of the original. */
    method FreePrefixLocked() returns (r: Result<Option<Prefix>>)
      ensures r == FreePrefix(cfg, nets.Values)
    {
      hide Slice;
      if cfg.noTranslate { return Ok(None); }
      if cfg.bits <= cfg.pool.bits || cfg.bits > 30 { return Err(NoFit); }
      var taken := nets.Values;
      SliceFits(cfg, 0);
      var step: uint32 := Step(cfg);
      var base: uint32 := Base(cfg.pool);
      var count: uint32 := Count(cfg);
      var i: uint32 := 0;
      while i < count
        invariant i <= count
        invariant FirstFree(cfg, taken, 0) == FirstFree(cfg, taken, i)
      {
        WrapFree(cfg, i);
        var p: Prefix := Prefix((base + (i * step) % SPACE) % SPACE, cfg.bits);
        if Some(p) !in taken { return Ok(Some(p)); }
        i := i + 1;
      }
      r := Err(PoolTaken);
    }

    method Connect(alias: string, starts: bool) returns (r: Result<Option<Prefix>>)
      modifies this
      ensures (Now(), r) == AfterConnect(cfg, old(Now()), alias, starts)
    {
      if alias in nets { nets := nets - {alias}; }
      assert nets == old(nets) - {alias};
      r := FreePrefixLocked();
      if r.Ok? && !starts { r := Err(StartFailed); }
      if r.Ok? { nets := nets[alias := r.value]; }
      RememberLocked(alias);
    }

    method RememberLocked(alias: string)
      modifies this`saved
      ensures saved == Remember(old(saved), alias)
    {
      hide Remember;
      ghost var was := saved;
      var i := 0;
      RememberFrom(was, 0, alias);
      while i < |saved|
        invariant 0 <= i <= |saved| && saved == was
        invariant Remember(was, alias) == was[..i] + Remember(was[i..], alias)
      {
        RememberFrom(was, i, alias);
        if saved[i].alias == alias {
          saved := saved[i := Saved(alias, true)];
          return;
        }
        i := i + 1;
      }
      RememberFrom(was, |was|, alias);
      saved := saved + [Saved(alias, true)];
    }

    method Disconnect(alias: string)
      modifies this
      ensures Now() == AfterDisconnect(old(Now()), alias)
    {
      nets := nets - {alias};
      ghost var was := saved;
      UnmarkSpec(was, alias);
      for i := 0 to |saved|
        invariant nets == old(nets) - {alias} && |saved| == |was|
        invariant forall j :: 0 <= j < i ==> saved[j] == Unmark(was, alias)[j]
        invariant forall j :: i <= j < |was| ==> saved[j] == was[j]
      {
        if saved[i].alias == alias {
          saved := saved[i := saved[i].(autoConnect := false)];
        }
      }
      assert saved == Unmark(was, alias);
    }

    method Forget(alias: string)
      modifies this
      ensures Now() == AfterForget(old(Now()), alias)
    {
      Disconnect(alias);
      ghost var was := saved;
      var kept: seq<Saved> := [];
      for i := 0 to |saved|
        invariant saved == was && nets == old(nets) - {alias}
        invariant Drop(was, alias) == kept + Drop(was[i..], alias)
      {
        assert was[i..][1..] == was[i + 1..];
        if saved[i].alias != alias { kept := kept + [saved[i]]; }
      }
      saved := kept;
    }
  }

  /** Remembering, seen from a position of the list. */
  lemma {:induction false} RememberFrom(saved: seq<Saved>, i: nat, alias: string)
    requires i <= |saved|
    ensures saved[..0] + Remember(saved[0..], alias) == Remember(saved, alias)
    ensures i == |saved| ==> saved[..i] + Remember(saved[i..], alias) == saved + [Saved(alias, true)]
    ensures i < |saved| && saved[i].alias == alias
      ==> saved[..i] + Remember(saved[i..], alias) == saved[i := Saved(alias, true)]
    ensures i < |saved| && saved[i].alias != alias ==>
      saved[..i] + Remember(saved[i..], alias) == saved[..i + 1] + Remember(saved[i + 1..], alias)
  {
    assert saved[0..] == saved;
    if i < |saved| { assert saved[i..][1..] == saved[i + 1..]; }
  }

  lemma {:induction false} WrapFree(c: Config, i: nat)
    requires Fits(c) && i < Count(c)
    ensures Prefix((Base(c.pool) + (i * Step(c)) % SPACE) % SPACE, c.bits) == Slice(c, i)
  {
    hide Base, Step, Count;
    SliceFits(c, i);
    var offset: nat := i * Step(c);
    assert offset % SPACE == offset && (Base(c.pool) + offset) % SPACE == Base(c.pool) + offset;
  }
}
