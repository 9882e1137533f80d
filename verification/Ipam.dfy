/** Overlay addresses handed out from a prefix, stable per key; a network's range split in halves. */
module Ipam {
  import opened Net

  /** next is the successor address; past 255.255.255.255 it is SPACE, which no prefix contains. */
  datatype State = State(prefix: Prefix, next: nat, byKey: map<string, Addr>, used: set<Addr>)

  function Fresh(p: Prefix): State { State(p, Base(p) + 1, map[], {}) }

  /** The next free address at or after the cursor, and the cursor past it. */
  function NextFree(p: Prefix, used: set<Addr>, next: nat): (Option<Addr>, nat)
    decreases SPACE - next
  {
    BlockFits(p);
    if !Contains(p, next) then (None, next)
    else if next in used then NextFree(p, used, next + 1)
    else (Some(next), next + 1)
  }

  function Request(s: State, key: string): (State, Option<Addr>) {
    if key in s.byKey then (s, Some(s.byKey[key]))
    else
      var (ip, next) := NextFree(s.prefix, s.used, s.next);
      match ip
      case None => (s.(next := next), None)
      case Some(a) => (s.(next := next, used := s.used + {a}, byKey := s.byKey[key := a]), ip)
  }

  function Run(s: State, keys: seq<string>): State
    decreases |keys|
  {
    if keys == [] then s else Run(Request(s, keys[0]).0, keys[1..])
  }

  /** Addresses are handed out in order from the one after the network address, one per key. */
  ghost predicate Inv(s: State) {
    && s.prefix == Masked(s.prefix)
    && Base(s.prefix) < s.next <= Base(s.prefix) + Size(s.prefix)
    && (forall a :: a in s.used <==> Base(s.prefix) < a < s.next)
    && (forall k :: k in s.byKey ==> s.byKey[k] in s.used)
    && (forall j, k :: j in s.byKey && k in s.byKey && s.byKey[j] == s.byKey[k] ==> j == k)
  }

  /** Every address below the cursor has its key. */
  predicate Counted(s: State) { |s.byKey| == s.next - Base(s.prefix) - 1 }

  predicate Extends(s: State, t: State) {
    t.prefix == s.prefix && forall k :: k in s.byKey ==> k in t.byKey && t.byKey[k] == s.byKey[k]
  }

  lemma {:induction false} FreshInv(p: Prefix)
    requires p == Masked(p)
    ensures Inv(Fresh(p)) && Counted(Fresh(p))
  {
  }

  /** A key keeps its address for good, two keys never share one, the network address is never
      handed out, and a request fails exactly when every other address is taken. */
  lemma {:induction false} RequestKeeps(s: State, key: string)
    requires Inv(s)
    ensures var (t, got) := Request(s, key);
      && Inv(t) && Extends(s, t)
      && (got.None? <==> key !in s.byKey && s.next == Base(s.prefix) + Size(s.prefix))
      && (got.None? ==> t == s)
      && (got.Some? ==> key in t.byKey && t.byKey[key] == got.value)
      && (got.Some? ==> Contains(s.prefix, got.value) && got.value != Base(s.prefix))
  {
    hide Masked, Base, Size;
    BlockFits(s.prefix);
    if key !in s.byKey && Contains(s.prefix, s.next) {
      var t := Request(s, key).0;
      assert t.byKey == s.byKey[key := s.next] && s.next !in s.used;
    }
  }

  lemma {:induction false} RequestCounts(s: State, key: string)
    requires Inv(s) && Counted(s)
    ensures Counted(Request(s, key).0)
    ensures Request(s, key).1.None? <==> key !in s.byKey && |s.byKey| == Size(s.prefix) - 1
  {
    hide Masked, Base, Size;
    RequestKeeps(s, key);
    BlockFits(s.prefix);
    if key !in s.byKey && Contains(s.prefix, s.next) {
      var t := Request(s, key).0;
      assert t.byKey == s.byKey[key := s.next];
    }
  }

  lemma {:induction false} RunKeeps(s: State, keys: seq<string>)
    requires Inv(s) && Counted(s)
    ensures Inv(Run(s, keys)) && Counted(Run(s, keys)) && Extends(s, Run(s, keys))
    decreases |keys|
  {
    hide Inv, Counted, Request;
    if keys != [] {
      RequestKeeps(s, keys[0]);
      RequestCounts(s, keys[0]);
      RunKeeps(Request(s, keys[0]).0, keys[1..]);
    }
  }

  // ----- halves -----

  function Lower(p: Prefix): Prefix
    requires p.bits < 32
  {
    Prefix(Base(p), p.bits + 1)
  }

  function Upper(p: Prefix): Prefix
    requires p.bits < 32
  {
    Prefix((Base(p) + Pow2(31 - p.bits)) % SPACE, p.bits + 1)
  }

  lemma {:induction false} SizeHalves(p: Prefix)
    requires p.bits < 32
    ensures Size(p) == 2 * Pow2(31 - p.bits)
  {
  }

  /** The halves are aligned prefixes that partition the range. */
  lemma {:induction false} HalvesPartition(p: Prefix)
    requires p.bits < 32
    ensures Masked(Lower(p)) == Lower(p) && Masked(Upper(p)) == Upper(p)
    ensures Base(Lower(p)) == Base(p) && Base(Upper(p)) == Base(p) + Size(Lower(p))
    ensures Size(Lower(p)) == Size(Upper(p)) && Size(p) == 2 * Size(Lower(p))
    ensures forall a :: Contains(p, a) <==> Contains(Lower(p), a) || Contains(Upper(p), a)
    ensures forall a :: !(Contains(Lower(p), a) && Contains(Upper(p), a))
  {
    hide Pow2, Floor;
    var b, s := Base(p), Pow2(31 - p.bits);
    BlockFits(p);
    SizeHalves(p);
    AlignedFiner(b, 2, s);
    AlignedSum(b, s, s);
    AlignedMultiple(1, s);
    assert Upper(p).addr == b + s && Size(Upper(p)) == s;
  }

  class Allocator {
    const prefix: Prefix
    var next: nat
    var byKey: map<string, Addr>
    var used: set<Addr>

    ghost function Now(): State
      reads this
    {
      State(prefix, next, byKey, used)
    }

    constructor (p: Prefix)
      requires p == Masked(p)
      ensures Now() == Fresh(p) && Inv(Now())
    {
      prefix, next, byKey, used := p, Base(p) + 1, map[], {};
    }

    method Allocate(key: string) returns (ip: Option<Addr>)
      modifies this
      ensures (Now(), ip) == Request(old(Now()), key)
    {
      ghost var s := Now();
      if key in byKey { return Some(byKey[key]); }
      BlockFits(prefix);
      while Contains(prefix, next)
        invariant Now() == s.(next := next)
        invariant NextFree(prefix, used, next) == NextFree(prefix, used, s.next)
        decreases SPACE - next
      {
        var a := next;
        next := next + 1;
        if a in used { continue; }
        used := used + {a};
        byKey := byKey[key := a];
        return Some(a);
      }
      ip := None;
    }
  }

  /** Nodes from the lower half, services from the upper; ranges below 16 addresses are refused. */
  method Split(cidr: Prefix) returns (r: Option<(Allocator, Allocator)>)
    ensures r.None? <==> cidr.bits > 28
    ensures r.Some? ==>
      && fresh(r.value.0) && fresh(r.value.1) && r.value.0 != r.value.1
      && r.value.0.Now() == Fresh(Lower(cidr)) && r.value.1.Now() == Fresh(Upper(cidr))
  {
    hide Base, Size, Inv;
    var p := Masked(cidr);
    MaskedIsStable(cidr);
    if p.bits > 28 { return None; }
    HalvesPartition(cidr);
    var half := p.bits + 1;
    var lower := Masked(Prefix(p.addr, half));
    var step := Pow2(32 - half);
    var top := (Base(p) + step) % SPACE;
    var upper := Masked(Prefix(top, half));
    var nodes := new Allocator(lower);
    var services := new Allocator(upper);
    r := Some((nodes, services));
  }
}
