/** One network's two-way mapping between overlay addresses and this device's local addresses. */
module Table {
  import opened Net

  /** The fields of a table, as a value. size wraps to 0 for a /0 local range. */
  datatype State = State(
    prefix: Prefix, overlay: Prefix, base: Addr, size: uint32,
    toLocal: map<Addr, Addr>, toReal: map<Addr, Addr>, used: set<uint32>, next: uint32)

  /** size as a count: the wrapped 0 stands for the full 2^32. */
  function Span(s: State): (n: nat)
    ensures n > 0
  {
    if s.size == 0 then SPACE else s.size
  }

  /** Network and broadcast indexes are kept out of circulation; size-1 wraps when size is 0. */
  predicate Usable(i: uint32, size: uint32) { i != 0 && i != (size - 1) % SPACE }

  /** real & (size-1): the low bits, all of them when size has wrapped to 0. */
  function LowBits(addr: Addr, span: nat): (low: uint32)
    requires span > 0
    ensures low < span
  {
    addr - Floor(addr, span)
  }

  function Fresh(local: Prefix, overlay: Prefix): State
    requires local.bits <= 30
  {
    State(Masked(local), Masked(overlay), Base(local), Size(local) % SPACE, map[], map[], {}, 1)
  }

  // ----- allocation -----

  function Advance(next: uint32, size: uint32): uint32 {
    if (next + 1) % SPACE >= size then 1 else (next + 1) % SPACE
  }

  /** The wrapping scan: up to `left` candidates from the cursor on. */
  function Scan(used: set<uint32>, size: uint32, next: uint32, left: nat): (Option<uint32>, uint32)
    decreases left
  {
    if left == 0 then (None, next)
    else if Usable(next, size) && next !in used then (Some(next), Advance(next, size))
    else Scan(used, size, Advance(next, size), left - 1)
  }

  function Alloc(s: State, addr: Addr): (Option<uint32>, uint32) {
    var want := LowBits(addr, Span(s));
    if Usable(want, s.size) && want !in s.used then (Some(want), s.next)
    else Scan(s.used, s.size, s.next, s.size)
  }

  /** The local address with a given index. */
  function At(base: Addr, i: uint32): Addr { (base + i) % SPACE }

  function Insert(s: State, addr: Addr, i: uint32): State {
    var local := At(s.base, i);
    s.(used := s.used + {i}, toLocal := s.toLocal[addr := local], toReal := s.toReal[local := addr])
  }

  /** One lookup: the existing mapping, or a new one, or a refusal. */
  function Request(s: State, addr: Addr): (State, Option<Addr>) {
    if !Contains(s.overlay, addr) then (s, None)
    else if addr in s.toLocal then (s, Some(s.toLocal[addr]))
    else
      var (got, next) := Alloc(s, addr);
      match got
      case None => (s.(next := next), None)
      case Some(i) => (Insert(s.(next := next), addr, i), Some(At(s.base, i)))
  }

  /** The state after a sequence of requests. */
  function Run(s: State, reqs: seq<Addr>): State
    decreases |reqs|
  {
    if reqs == [] then s else Run(Request(s, reqs[0]).0, reqs[1..])
  }

  // ----- the invariant -----

  /** The ranges are those NewTable set up. */
  predicate Shaped(s: State) {
    && s.prefix == Masked(s.prefix) && s.prefix.bits <= 30 && s.overlay == Masked(s.overlay)
    && s.base == Base(s.prefix) && s.size == Size(s.prefix) % SPACE
  }

  predicate Ranged(s: State) {
    && 4 <= Span(s) && s.base + Span(s) <= SPACE
    && 1 <= s.next && (s.size == 0 || s.next < s.size)
  }

  /** The two maps are mutually inverse, and used is exactly the set of indexes handed out. */
  predicate Linked(s: State) {
    && (forall r :: r in s.toLocal ==> s.toLocal[r] in s.toReal && s.toReal[s.toLocal[r]] == r)
    && (forall l :: l in s.toReal ==> s.toReal[l] in s.toLocal && s.toLocal[s.toReal[l]] == l)
    && (forall l :: l in s.toReal ==> s.base <= l && l - s.base in s.used)
    && (forall i :: i in s.used ==> Usable(i, s.size) && i < Span(s))
    && (forall i {:trigger At(s.base, i)} :: i in s.used ==> At(s.base, i) in s.toReal)
    && (s.size == 0 ==> forall r :: r in s.toLocal ==> s.toLocal[r] == r)
  }

  predicate Inv(s: State) {
    Shaped(s) && Ranged(s) && Linked(s) && forall r :: r in s.toLocal ==> Contains(s.overlay, r)
  }

  /** t remembers everything s did, in the same ranges. */
  predicate Extends(s: State, t: State) {
    && t.prefix == s.prefix && t.overlay == s.overlay && t.base == s.base && t.size == s.size
    && (forall r :: r in s.toLocal ==> r in t.toLocal && t.toLocal[r] == s.toLocal[r])
    && (forall l :: l in s.toReal ==> l in t.toReal && t.toReal[l] == s.toReal[l])
    && s.used <= t.used
  }

  lemma {:induction false} SpanIsSize(local: Prefix)
    requires local.bits <= 30
    ensures 4 <= Size(local)
    ensures Size(local) % SPACE == if local.bits == 0 then 0 else Size(local)
    ensures Base(local) + Size(local) <= SPACE
  {
    BlockFits(local);
    Pow2Of32();
    assert Pow2(2) == 4;
    Pow2Monotone(2, 32 - local.bits);
    if local.bits > 0 { Pow2Monotone(32 - local.bits, 32); }
  }

  lemma {:induction false} FreshInv(local: Prefix, overlay: Prefix)
    requires local.bits <= 30
    ensures Inv(Fresh(local, overlay))
    ensures Span(Fresh(local, overlay)) == Size(local) && Canonical(Fresh(local, overlay))
  {
    MaskedIsStable(local);
    MaskedIsStable(overlay);
    SpanIsSize(local);
  }

  // ----- the scan -----

  lemma {:induction false} ScanSound(used: set<uint32>, size: uint32, next: uint32, left: nat)
    requires size >= 4 && 1 <= next < size
    ensures var (got, after) := Scan(used, size, next, left);
      && 1 <= after < size
      && (got.Some? ==> got.value < size && Usable(got.value, size) && got.value !in used)
    decreases left
  {
    if left > 0 && !(Usable(next, size) && next !in used) {
      ScanSound(used, size, Advance(next, size), left - 1);
    }
  }

  /** What a scan that finds nothing has visited: from the cursor up, then from 1 up. */
  lemma {:induction false} ScanVisits(used: set<uint32>, size: uint32, next: uint32, left: nat)
    requires size >= 4 && 1 <= next < size
    requires Scan(used, size, next, left).0.None?
    ensures forall i: uint32 :: next <= i < size && i < next + left ==> !Usable(i, size) || i in used
    ensures forall i: uint32 :: 1 <= i < size && i < 1 + left - (size - next) ==> !Usable(i, size) || i in used
    decreases left
  {
    if left > 0 {
      ScanVisits(used, size, Advance(next, size), left - 1);
    }
  }

  /** From any cursor position, a full scan fails only when every usable index is taken. */
  lemma {:induction false} ScanComplete(used: set<uint32>, size: uint32, next: uint32)
    requires size >= 4 && 1 <= next < size
    ensures Scan(used, size, next, size).0.None? <==> (forall i: uint32 :: 1 <= i < size - 1 ==> i in used)
  {
    if Scan(used, size, next, size).0.None? {
      ScanVisits(used, size, next, size);
    } else {
      ScanSound(used, size, next, size);
    }
  }

  /** How many steps the cursor takes from one index to another. */
  function Ahead(from: uint32, to: uint32, size: uint32): int {
    if to >= from then to - from else to - from + (size - 1)
  }

  /** The scan finds the first free index from the cursor on, and leaves the cursor just past it. */
  lemma {:induction false} ScanIsFirst(used: set<uint32>, size: uint32, next: uint32, left: nat)
    requires size >= 4 && 1 <= next < size && Scan(used, size, next, left).0.Some?
    ensures var (got, after) := Scan(used, size, next, left);
      && 1 <= got.value < size - 1 && got.value !in used
      && (forall j: uint32 :: 1 <= j < size - 1 && j !in used ==> Ahead(next, got.value, size) <= Ahead(next, j, size))
      && after == if got.value + 1 < size then got.value + 1 else 1
    decreases left
  {
    if !(Usable(next, size) && next !in used) {
      var step := Advance(next, size);
      ScanIsFirst(used, size, step, left - 1);
      hide Scan;
      forall j: uint32 | 1 <= j < size - 1 && j !in used
        ensures Ahead(next, j, size) == 1 + Ahead(step, j, size) {}
    }
  }

  /** Every index a table could hand out is taken. */
  predicate Exhausted(s: State) {
    forall i: uint32 :: i < Span(s) && Usable(i, s.size) ==> i in s.used
  }

  lemma {:induction false} AllocSound(s: State, addr: Addr)
    requires Ranged(s)
    ensures var (got, next) := Alloc(s, addr);
      && Ranged(s.(next := next))
      && (got.Some? ==> got.value < Span(s) && Usable(got.value, s.size) && got.value !in s.used)
      && (s.size == 0 && got.Some? ==> got.value == addr)
  {
    if s.size != 0 { ScanSound(s.used, s.size, s.next, s.size); }
  }

  // ----- one request -----

  lemma {:induction false} InsertKeeps(s: State, addr: Addr, i: uint32)
    requires Ranged(s) && Linked(s) && addr !in s.toLocal
    requires i < Span(s) && Usable(i, s.size) && i !in s.used && (s.size == 0 ==> i == addr)
    ensures Linked(Insert(s, addr, i)) && Extends(s, Insert(s, addr, i))
  {
    hide Usable;
    var t := Insert(s, addr, i);
    assert At(s.base, i) == s.base + i && At(s.base, i) !in s.toReal;
    assert forall j :: j in t.used ==> j == i || j in s.used;
  }

  /** One request keeps the two directions mutually inverse, the used set exact, and every earlier
      mapping in place. */
  lemma {:induction false} LocalKeeps(s: State, addr: Addr)
    requires Inv(s)
    ensures var (t, got) := Request(s, addr);
      && Inv(t) && Extends(s, t)
      && (got.Some? <==> addr in t.toLocal) && (got.Some? ==> got.value == t.toLocal[addr])
      && t.toLocal.Keys == s.toLocal.Keys + (if got.Some? then {addr} else {})
  {
    hide Linked, Contains, Alloc, Usable, Base, Size;
    if Contains(s.overlay, addr) && addr !in s.toLocal {
      AllocSound(s, addr);
      var (got, next) := Alloc(s, addr);
      CursorKeeps(s, next);
      if got.Some? {
        InsertKeeps(s.(next := next), addr, got.value);
      }
    }
  }

  lemma {:induction false} CursorKeeps(s: State, next: uint32)
    requires Linked(s)
    ensures Linked(s.(next := next))
  {
  }

  /** Locals lie in the local range, short of its network and broadcast addresses. */
  lemma {:induction false} LocalsInRange(s: State, addr: Addr)
    requires Inv(s) && addr in s.toLocal
    ensures Contains(s.prefix, s.toLocal[addr])
    ensures s.base < s.toLocal[addr] < s.base + Span(s) - 1
  {
    hide Base, Size, Floor, Masked;
    SpanIsSize(s.prefix);
    assert s.toLocal[addr] - s.base in s.used;
  }

  /** Exactly when a request is refused: outside the overlay, or new with every index taken; a /0
      range, whose scan never runs, refuses instead the two addresses with unusable bits. */
  lemma {:induction false} RefusedIff(s: State, addr: Addr)
    requires Inv(s)
    ensures Request(s, addr).1.None? <==>
      || !Contains(s.overlay, addr)
      || (addr !in s.toLocal && if s.size == 0 then !Usable(addr, 0) else Exhausted(s))
  {
    if Contains(s.overlay, addr) && addr !in s.toLocal {
      AllocRefusedIff(s, addr);
    }
  }

  lemma {:induction false} AllocRefusedIff(s: State, addr: Addr)
    requires Ranged(s) && Linked(s) && addr !in s.toLocal
    ensures Alloc(s, addr).0.None? <==> if s.size == 0 then !Usable(addr, 0) else Exhausted(s)
  {
    if s.size != 0 {
      SmallAllocRefusedIff(s, addr);
    } else {
      assert At(s.base, addr) == addr;
    }
  }

  lemma {:induction false} SmallAllocRefusedIff(s: State, addr: Addr)
    requires Ranged(s) && s.size != 0
    ensures Alloc(s, addr).0.None? <==> Exhausted(s)
  {
    hide LowBits, Scan;
    ScanComplete(s.used, s.size, s.next);
    if Usable(LowBits(addr, Span(s)), s.size) && LowBits(addr, Span(s)) !in s.used {
      assert !Exhausted(s);
    }
    assert Exhausted(s) <==> forall i: uint32 :: 1 <= i < s.size - 1 ==> i in s.used;
  }

  /** An address gained later was given an index that was free. */
  lemma {:induction false} GainedIndexWasFree(s: State, t: State, addr: Addr)
    requires Inv(s) && Inv(t) && Extends(s, t) && addr !in s.toLocal && addr in t.toLocal
    ensures if s.size == 0 then Usable(addr, 0) else !Exhausted(s)
  {
    hide Base, Size, Masked, Contains, Floor;
    var i: uint32 := t.toLocal[addr] - t.base;
    assert i in t.used;
    assert At(s.base, i) == t.toLocal[addr];
    assert i in s.used ==> At(s.base, i) in s.toReal;
  }

  /** A refusal is final: no later table that remembers this one has the address. */
  lemma {:induction false} RefusalIsFinal(s: State, addr: Addr, t: State)
    requires Inv(s) && Inv(t) && Request(s, addr).1.None? && Extends(Request(s, addr).0, t)
    ensures addr !in t.toLocal
  {
    RefusedIff(s, addr);
    LocalKeeps(s, addr);
    if addr in t.toLocal {
      GainedIndexWasFree(s, t, addr);
    }
  }

  /** The address has its final answer: it is mapped, or it is refused for good. */
  predicate Settled(s: State, addr: Addr) {
    addr in s.toLocal || Request(s, addr).1.None?
  }

  lemma {:induction false} SettledStays(s: State, t: State, addr: Addr)
    requires Inv(s) && Inv(t) && Extends(s, t) && Settled(s, addr)
    ensures Settled(t, addr)
    ensures addr in t.toLocal <==> addr in s.toLocal
  {
    if addr !in s.toLocal {
      RefusalIsFinal(s, addr, t);
      RefusedIff(s, addr);
      RefusedIff(t, addr);
    }
  }

  lemma {:induction false} RequestSettles(s: State, addr: Addr)
    requires Inv(s)
    ensures Settled(Request(s, addr).0, addr)
  {
    LocalKeeps(s, addr);
    RefusedIff(s, addr);
    RefusedIff(Request(s, addr).0, addr);
  }

  lemma {:induction false} ExtendsReflexive(s: State)
    ensures Extends(s, s)
  {
  }

  lemma {:induction false} ExtendsTransitive(r: State, s: State, t: State)
    requires Extends(r, s) && Extends(s, t)
    ensures Extends(r, t)
  {
  }

  // ----- runs of requests -----

  lemma {:induction false} RunKeeps(s: State, reqs: seq<Addr>)
    requires Inv(s)
    ensures Inv(Run(s, reqs)) && Extends(s, Run(s, reqs))
    ensures Run(s, reqs).toLocal.Keys <= s.toLocal.Keys + (set r | r in reqs)
    decreases |reqs|
  {
    if reqs != [] {
      LocalKeeps(s, reqs[0]);
      RunKeeps(Request(s, reqs[0]).0, reqs[1..]);
    }
  }

  lemma {:induction false} RunConcat(s: State, a: seq<Addr>, b: seq<Addr>)
    ensures Run(s, a + b) == Run(Run(s, a), b)
    decreases |a|
  {
    if a == [] {
      assert a + b == b;
    } else {
      RunConcat(Request(s, a[0]).0, a[1..], b);
      assert (a + b)[1..] == a[1..] + b;
    }
  }

  /** The answer to the k-th request of a run is what the table at the end of the run says. */
  lemma {:induction false} AnswersAreFinal(s: State, reqs: seq<Addr>, k: nat)
    requires Inv(s) && k < |reqs|
    ensures var t := Run(s, reqs);
      Request(Run(s, reqs[..k]), reqs[k]).1 == if reqs[k] in t.toLocal then Some(t.toLocal[reqs[k]]) else None
  {
    hide Inv, Request;
    var before := Run(s, reqs[..k]);
    var (after, got) := Request(before, reqs[k]);
    RunKeeps(s, reqs[..k]);
    LocalKeeps(before, reqs[k]);
    RunKeeps(after, reqs[k + 1..]);
    RunConcat(s, reqs[..k], reqs[k..]);
    assert reqs == reqs[..k] + reqs[k..] && reqs[k..][1..] == reqs[k + 1..];
    RunKeeps(s, reqs);
    if got.None? { RefusalIsFinal(before, reqs[k], Run(s, reqs)); }
  }

  // ----- when the local range is as large as the overlay -----

  /** Every mapping keeps the low bits. */
  predicate Canonical(s: State) {
    forall r :: r in s.toLocal ==> s.toLocal[r] == s.base + LowBits(r, Span(s))
  }

  lemma {:induction false} IndexHolder(s: State, i: uint32) returns (r: Addr)
    requires Inv(s) && i in s.used
    ensures r in s.toLocal && s.toLocal[r] == s.base + i && Contains(s.overlay, r)
  {
    hide Shaped, Contains, Usable;
    assert At(s.base, i) == s.base + i;
    r := s.toReal[At(s.base, i)];
  }

  lemma {:induction false} LowBitsFree(s: State, addr: Addr)
    requires Inv(s) && Canonical(s) && Size(s.overlay) <= Span(s)
    requires Contains(s.overlay, addr) && addr !in s.toLocal
    ensures LowBits(addr, Span(s)) !in s.used
  {
    hide Inv, Base, Size, Span;
    if LowBits(addr, Span(s)) in s.used {
      var r := IndexHolder(s, LowBits(addr, Span(s)));
      RemaindersDistinct(r, addr, Base(s.overlay), Size(s.overlay), Span(s));
    }
  }

  /** The requests a table may serve. */
  function Served(reqs: seq<Addr>, overlay: Prefix): (rs: set<Addr>)
    ensures forall r :: r in rs <==> r in reqs && Contains(overlay, r)
  {
    set r | r in reqs && Contains(overlay, r)
  }

  lemma {:induction false} ServedSplit(reqs: seq<Addr>, overlay: Prefix)
    requires reqs != []
    ensures Served(reqs, overlay) == (if Contains(overlay, reqs[0]) then {reqs[0]} else {}) + Served(reqs[1..], overlay)
  {
    hide Contains;
    assert forall r :: r in reqs <==> r == reqs[0] || r in reqs[1..];
  }

  /** With room for the whole overlay, and addresses with usable low bits only, a run in any order
      gives each address base + low bits; the fallback scan never runs, the cursor never moves. */
  lemma {:induction false} RunIsCanonical(s: State, reqs: seq<Addr>)
    requires Inv(s) && Canonical(s) && Size(s.overlay) <= Span(s)
    requires forall r :: r in reqs && Contains(s.overlay, r) ==> Usable(LowBits(r, Span(s)), s.size)
    ensures var t := Run(s, reqs);
      && Canonical(t) && t.next == s.next
      && t.toLocal.Keys == s.toLocal.Keys + Served(reqs, s.overlay)
    decreases |reqs|
  {
    hide Inv, Extends, Request, Canonical, LowBits, Contains, Usable, Size;
    if reqs != [] {
      var addr := reqs[0];
      var t := Request(s, addr).0;
      StepIsCanonical(s, addr);
      ServedSplit(reqs, s.overlay);
      RunIsCanonical(t, reqs[1..]);
    }
  }

  lemma {:induction false} StepIsCanonical(s: State, addr: Addr)
    requires Inv(s) && Canonical(s) && Size(s.overlay) <= Span(s)
    requires Contains(s.overlay, addr) ==> Usable(LowBits(addr, Span(s)), s.size)
    ensures var t := Request(s, addr).0;
      && Inv(t) && Canonical(t) && t.next == s.next && t.size == s.size && t.overlay == s.overlay
      && t.toLocal.Keys == s.toLocal.Keys + if Contains(s.overlay, addr) then {addr} else {}
  {
    hide Linked, Contains, Size, Base;
    LocalKeeps(s, addr);
    if Contains(s.overlay, addr) && addr !in s.toLocal {
      LowBitsFree(s, addr);
      assert At(s.base, LowBits(addr, Span(s))) == s.base + LowBits(addr, Span(s));
      var t := Request(s, addr).0;
      assert t == Insert(s, addr, LowBits(addr, Span(s)));
    }
  }

  /** Hence the mapping, from a fresh table or any canonical one, does not depend on the order of
      the requests. */
  lemma {:induction false} OrderIndependent(s: State, a: seq<Addr>, b: seq<Addr>)
    requires Inv(s) && Canonical(s) && Size(s.overlay) <= Span(s)
    requires forall r :: r in a <==> r in b
    requires forall r :: r in a && Contains(s.overlay, r) ==> Usable(LowBits(r, Span(s)), s.size)
    ensures Run(s, a).toLocal == Run(s, b).toLocal
  {
    hide Inv, Contains, Usable, Run, LowBits;
    RunIsCanonical(s, a);
    RunIsCanonical(s, b);
    RunKeeps(s, a);
    RunKeeps(s, b);
    assert Served(a, s.overlay) == Served(b, s.overlay);
    var x, y := Run(s, a).toLocal, Run(s, b).toLocal;
    assert x.Keys == y.Keys;
    assert forall r :: r in x.Keys ==> x[r] == y[r];
  }

  // ----- which local address, in numbers -----

  lemma {:induction false} LowBitsAreRemainder(addr: Addr, span: nat)
    requires span > 0
    ensures LowBits(addr, span) == addr % span
  {
    FloorIsMod(addr, span);
  }

  /** From a fresh range as large as the overlay, with no address asked for that falls on the first or
      last index, each address is mapped to the base plus its remainder. */
  lemma {:induction false} RemaindersKept(local: Prefix, overlay: Prefix, reqs: seq<Addr>)
    requires local.bits <= 30 && Size(overlay) <= Size(local)
    requires forall r :: r in reqs && Contains(overlay, r) ==>
      r % Size(local) != 0 && r % Size(local) != Size(local) - 1
    ensures var t := Run(Fresh(local, overlay), reqs);
      && (forall r :: r in t.toLocal <==> r in reqs && Contains(overlay, r))
      && (forall r :: r in t.toLocal ==> t.toLocal[r] == Base(local) + r % Size(local))
  {
    var s := Fresh(local, overlay);
    FreshInv(local, overlay);
    FreshParts(local, overlay);
    hide Fresh, Run, Inv, LowBits, Size, Base, Contains, Masked, Usable, Canonical, Span;
    var t := Run(s, reqs);
    forall r: Addr | r in reqs && Contains(s.overlay, r) ensures Usable(LowBits(r, Span(s)), s.size) {
      LowBitsAreRemainder(r, Span(s));
    }
    EmptyIsCanonical(s);
    RunIsCanonical(s, reqs);
    RunKeeps(s, reqs);
    forall r | r in t.toLocal ensures t.toLocal[r] == Base(local) + r % Size(local) {
      CanonicalAt(t, r);
    }
  }

  lemma {:induction false} EmptyIsCanonical(s: State)
    requires s.toLocal == map[]
    ensures Canonical(s)
  {
  }

  lemma {:induction false} CanonicalAt(s: State, r: Addr)
    requires Canonical(s) && r in s.toLocal
    ensures s.toLocal[r] == s.base + r % Span(s)
  {
    LowBitsAreRemainder(r, Span(s));
  }

  lemma {:induction false} FreshParts(local: Prefix, overlay: Prefix)
    requires local.bits <= 30
    ensures var s := Fresh(local, overlay);
      && s.base == Base(local) && s.toLocal == map[] && Size(s.overlay) == Size(overlay)
      && (forall a :: Contains(s.overlay, a) <==> Contains(overlay, a))
      && forall i: uint32 :: i < Size(local) ==> (Usable(i, s.size) <==> i != 0 && i != Size(local) - 1)
  {
    MaskedIsStable(overlay);
    SpanIsSize(local);
    assert Size(Masked(overlay)) == Size(overlay);
  }

  /** One request for a new address: base plus remainder when that index is usable and free, cursor
      unmoved; otherwise base plus the first free index from the cursor on. */
  lemma {:induction false} ChoiceMeans(s: State, addr: Addr)
    requires Inv(s) && Contains(s.overlay, addr) && addr !in s.toLocal
    ensures var (t, got) := Request(s, addr);
      var want := addr % Span(s);
      if want != 0 && want != Span(s) - 1 && want !in s.used
      then got == Some(s.base + want) && t.next == s.next
      else got.Some? ==>
        var i := got.value - s.base;
        && 1 <= i < Span(s) - 1 && i !in s.used
        && forall j: uint32 :: 1 <= j < Span(s) - 1 && j !in s.used ==>
             Ahead(s.next, i, s.size) <= Ahead(s.next, j, s.size)
  {
    hide Inv, Request, LowBits, Span, Ahead;
    LowBitsAreRemainder(addr, Span(s));
    ChoiceAt(s, addr, LowBits(addr, Span(s)));
  }

  lemma {:induction false} ChoiceAt(s: State, addr: Addr, want: uint32)
    requires Inv(s) && Contains(s.overlay, addr) && addr !in s.toLocal && want == LowBits(addr, Span(s))
    ensures var (t, got) := Request(s, addr);
      if want != 0 && want != Span(s) - 1 && want !in s.used
      then got == Some(s.base + want) && t.next == s.next
      else got.Some? ==>
        var i := got.value - s.base;
        && 1 <= i < Span(s) - 1 && i !in s.used
        && forall j: uint32 :: 1 <= j < Span(s) - 1 && j !in s.used ==>
             Ahead(s.next, i, s.size) <= Ahead(s.next, j, s.size)
  {
    hide Linked, Shaped, Contains, LowBits, Ahead, Scan, At;
    UsableIff(s, want);
    var (got, next) := Alloc(s, addr);
    if got.Some? {
      if !(Usable(want, s.size) && want !in s.used) {
        hide Usable;
        assert s.size != 0 by { EmptyScan(s); }
        ScanIsFirst(s.used, s.size, s.next, s.size);
      }
      Unwrapped(s, got.value);
    }
  }

  lemma {:induction false} EmptyScan(s: State)
    ensures Scan(s.used, s.size, s.next, 0) == (None, s.next)
  {
  }

  lemma {:induction false} UsableIff(s: State, i: uint32)
    ensures Usable(i, s.size) <==> i != 0 && i != Span(s) - 1
  {
  }

  lemma {:induction false} Unwrapped(s: State, i: uint32)
    requires Ranged(s) && i < Span(s)
    ensures At(s.base, i) == s.base + i
  {
  }

  // ----- the table itself -----

  /** A table as the program holds it. */
  class Mapping {
    const prefix: Prefix
    const overlay: Prefix
    const base: Addr
    const size: uint32
    var toLocal: map<Addr, Addr>
    var toReal: map<Addr, Addr>
    var used: set<uint32>
    var next: uint32

    ghost function Now(): State
      reads this
    {
      State(prefix, overlay, base, size, toLocal, toReal, used, next)
    }

    ghost predicate Ok()
      reads this
    {
      Inv(Now())
    }

    constructor Init(local: Prefix, overlay: Prefix)
      requires local.bits <= 30
      ensures Now() == Fresh(local, overlay) && Ok()
    {
      this.prefix, this.overlay := Masked(local), Masked(overlay);
      this.base := Base(local);
      this.size := Size(local) % SPACE;
      toLocal, toReal, used, next := map[], map[], {}, 1;
      new;
      FreshInv(local, overlay);
    }

    /** A local range needs at least four addresses. */
    static method New(local: Prefix, overlay: Prefix) returns (r: Option<Mapping>)
      ensures r.None? <==> local.bits > 30
      ensures r.Some? ==> fresh(r.value) && r.value.Ok() && r.value.Now() == Fresh(local, overlay)
    {
      if local.bits > 30 { return None; }
      var t := new Mapping.Init(local, overlay);
      r := Some(t);
    }

    method Local(addr: Addr) returns (got: Option<Addr>)
      requires Ok()
      modifies this
      ensures (Now(), got) == Request(old(Now()), addr)
      ensures Ok() && Extends(old(Now()), Now())
    {
      ghost var before := Now();
      LocalKeeps(before, addr);
      if !Contains(overlay, addr) { return None; }
      if addr in toLocal { return Some(toLocal[addr]); }
      var idx := AllocLocked(addr);
      if idx.None? { return None; }
      var local := At(base, idx.value);
      used := used + {idx.value};
      toLocal := toLocal[addr := local];
      toReal := toReal[local := addr];
      got := Some(local);
    }

    method AllocLocked(addr: Addr) returns (idx: Option<uint32>)
      requires Ok()
      modifies this`next
      ensures (idx, next) == Alloc(old(Now()), addr)
    {
      var want := LowBits(addr, if size == 0 then SPACE else size);
      if Usable(want, size) && want !in used { return Some(want); }
      var scanned := 0;
      while scanned < size
        invariant 0 <= scanned <= size
        invariant Scan(used, size, old(next), size) == Scan(used, size, next, size - scanned)
      {
        var i := next;
        next := (next + 1) % SPACE;
        if next >= size { next := 1; }
        if Usable(i, size) && i !in used { return Some(i); }
        scanned := scanned + 1;
      }
      idx := None;
    }

    /** The overlay address a local address stands for. */
    method Real(local: Addr) returns (got: Option<Addr>)
      requires Ok()
      ensures got.Some? <==> exists r :: r in toLocal && toLocal[r] == local
      ensures got.Some? ==> got.value in toLocal && toLocal[got.value] == local
    {
      got := if local in toReal then Some(toReal[local]) else None;
    }
  }
}
