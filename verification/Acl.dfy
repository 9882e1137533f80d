/** Which groups of members may reach each other, and which groups a service admits. */
module Acl {
  import opened Text

  const WILDCARD := "*"
  const DEFAULT_GROUP := "default"

  datatype Rule = Rule(src: seq<string>, dst: seq<string>)

  /** A missing policy and one without rules are the same: everything is allowed. */
  type Policy = seq<Rule>

  predicate Matches(list: seq<string>, group: string) {
    exists g :: g in list && (g == WILDCARD || Normalize(g) == group)
  }

  predicate Allows(p: Policy, src: string, dst: string) {
    p == [] || exists r :: r in p && Matches(r.src, Normalize(src)) && Matches(r.dst, Normalize(dst))
  }

  /** A tunnel needs both ends, so visibility is symmetric. */
  predicate Connected(p: Policy, a: string, b: string) { Allows(p, a, b) || Allows(p, b, a) }

  /** An empty list admits everyone who can reach the node. */
  predicate AllowsGroup(list: seq<string>, group: string) {
    list == [] || Matches(list, Normalize(group))
  }

  /** Adding a rule never silently widens access: the first one turns everything else off, and a
      later one adds exactly what it says. */
  lemma {:induction false} RuleAdded(p: Policy, r: Rule, src: string, dst: string)
    ensures Allows(p + [r], src, dst) <==>
      (p != [] && Allows(p, src, dst)) || (Matches(r.src, Normalize(src)) && Matches(r.dst, Normalize(dst)))
  {
    assert forall x :: x in p + [r] <==> x in p || x == r;
    assert r in p + [r];
  }

  // ----- whom lists and policies cover -----

  /** A list of groups covers a group: by the wildcard, or under another spelling of its name. */
  ghost predicate Covers(list: seq<string>, group: string) {
    "*" in list || exists g :: g in list && SameName(g, group)
  }

  /** A rule leads from one group to another. */
  ghost predicate Leads(r: Rule, src: string, dst: string) { Covers(r.src, src) && Covers(r.dst, dst) }

  lemma {:induction false} MatchesIff(list: seq<string>, group: string)
    ensures Matches(list, Normalize(group)) <==> Covers(list, group)
  {
    hide Normalize, SameName;
    forall g ensures SameName(g, group) <==> Normalize(g) == Normalize(group) { SameNameIff(g, group); }
  }

  /** A service's list admits everyone when it is empty, and otherwise exactly the groups it covers. */
  lemma {:induction false} AllowsGroupIff(list: seq<string>, group: string)
    ensures AllowsGroup(list, group) <==> list == [] || Covers(list, group)
  {
    MatchesIff(list, group);
  }

  /** No policy allows everything; with one, a group reaches another exactly along a rule. */
  lemma {:induction false} AllowsIff(p: Policy, src: string, dst: string)
    ensures Allows(p, src, dst) <==> p == [] || exists r :: r in p && Leads(r, src, dst)
  {
    hide Matches, Covers;
    forall r ensures Leads(r, src, dst) <==> Matches(r.src, Normalize(src)) && Matches(r.dst, Normalize(dst)) {
      MatchesIff(r.src, src);
      MatchesIff(r.dst, dst);
    }
  }

  /** Two groups are linked without a policy, or along a rule in either direction. */
  ghost predicate Linked(p: Policy, a: string, b: string) {
    p == [] || exists r :: r in p && (Leads(r, a, b) || Leads(r, b, a))
  }

  lemma {:induction false} ConnectedIff(p: Policy, a: string, b: string)
    ensures Connected(p, a, b) <==> Linked(p, a, b)
  {
    hide Leads, Allows;
    AllowsIff(p, a, b);
    AllowsIff(p, b, a);
  }

  // ----- join tokens -----

  /** The group a join token admits to, always in normal form. */
  function GroupOf(tokens: map<string, string>, token: string): (r: (string, bool))
    ensures r.1 ==> Normalize(r.0) == r.0 && token in tokens
  {
    if token == "" || token !in tokens then ("", false)
    else
      var g := if tokens[token] == "" then DEFAULT_GROUP else tokens[token];
      NormalizeIdempotent(g);
      (Normalize(g), true)
  }

  /** g is the name raw stands for: "default" when it is blank, and otherwise its core in lower case. */
  ghost predicate Named(raw: string, g: string) {
    if Core(raw, "") then g == "default" else LowerCase(g) && exists x :: Core(raw, x) && EqualFold(x, g)
  }

  lemma {:induction false} NormalizeNames(raw: string)
    ensures Core(raw, "") <==> Normalize(raw) == ""
    ensures !Core(raw, "") ==> forall g :: Named(raw, g) <==> g == Normalize(raw)
  {
    hide Core, EqualFold, Trim, Lower;
    TrimIsCore(raw);
    LowerIsLowerCase(Trim(raw));
    if Core(raw, "") { CoreUnique(raw, ""); }
    forall g | !Core(raw, "") ensures Named(raw, g) <==> g == Normalize(raw) {
      LowerIff(Trim(raw), g);
      LowerOfLower(g);
      FoldTurned(Trim(raw), Lower(Trim(raw)));
      if Named(raw, g) {
        var x :| Core(raw, x) && EqualFold(x, g);
        CoreUnique(raw, x);
      }
    }
  }

  lemma {:induction false} LowerOfLower(g: string)
    ensures LowerCase(g) ==> Lower(g) == g
  {
  }

  lemma {:induction false} FoldTurned(a: string, b: string)
    ensures EqualFold(a, b) <==> EqualFold(b, a)
  {
  }

  /** A join token admits exactly when the table has it, and then to the group its entry names;
      an entry of blanks, which no table built from settings has, is not a default. */
  lemma {:induction false} GroupOfMeans(tokens: map<string, string>, token: string)
    ensures var (g, ok) := GroupOf(tokens, token);
      && (ok <==> token != "" && token in tokens)
      && (ok ==> if tokens[token] != "" && Core(tokens[token], "") then g == "" else Named(tokens[token], g))
  {
    hide Core, Named, Normalize;
    if token in tokens {
      NormalizeNames(tokens[token]);
      DefaultIsNormal();
      if tokens[token] == "" { EmptyIsBlank(); }
    }
  }

  lemma {:induction false} DefaultIsNormal()
    ensures Normalize("default") == "default" && Normalize("") == ""
  {
    TightTrims("default");
  }

  lemma {:induction false} EmptyIsBlank()
    ensures Core("", "") && Named("", "default")
  {
    assert AloneAt("", 0, "");
  }

  /** What it means that the entries claim a token for a group. */
  lemma {:induction false} ClaimedIff(entries: seq<(string, string)>, token: string, group: string)
    ensures Claimed(entries, token, group)
       <==> token != "" && exists e :: e in entries && Core(e.1, token) && Named(e.0, group)
  {
    hide Core, Named, Normalize, Trim;
    forall e: (string, string)
      ensures Trim(e.1) == token && GroupName(e.0) == group <==> Core(e.1, token) && Named(e.0, group)
    {
      TrimIsCore(e.1);
      if Core(e.1, token) { CoreUnique(e.1, token); }
      NormalizeNames(e.0);
      DefaultIsNormal();
      BlankIsDefault(e.0, group);
    }
  }

  lemma {:induction false} BlankIsDefault(raw: string, g: string)
    ensures Core(raw, "") ==> (Named(raw, g) <==> g == "default")
  {
  }

  datatype Built = Tokens(table: map<string, string>) | Shared(token: string)

  /** A blank group is the default one. */
  function GroupName(group: string): string {
    if Normalize(group) == "" then Normalize(DEFAULT_GROUP) else Normalize(group)
  }

  /** One entry of the token table under construction; owner holds who claimed each token. */
  function AddToken(b: Built, group: string, token: string): Built {
    if b.Shared? || Trim(token) == "" then b
    else if Trim(token) in b.table && b.table[Trim(token)] != GroupName(group) then Shared(Trim(token))
    else Tokens(b.table[Trim(token) := GroupName(group)])
  }

  function BuildFrom(b: Built, entries: seq<(string, string)>): Built
    decreases |entries|
  {
    if entries == [] then b else BuildFrom(AddToken(b, entries[0].0, entries[0].1), entries[1..])
  }

  /** The entries claim a token, spaces apart, for a group. */
  predicate Claimed(entries: seq<(string, string)>, token: string, group: string) {
    token != "" && exists e :: e in entries && Trim(e.1) == token && GroupName(e.0) == group
  }

  ghost predicate Conflict(entries: seq<(string, string)>) {
    exists t, g, h :: g != h && Claimed(entries, t, g) && Claimed(entries, t, h)
  }

  /** The table says exactly what the entries claim. */
  ghost predicate Exact(table: map<string, string>, entries: seq<(string, string)>) {
    forall t, g {:trigger Claimed(entries, t, g)} :: Claimed(entries, t, g) <==> t in table && table[t] == g
  }

  lemma {:induction false} ClaimedAppend(entries: seq<(string, string)>, e: (string, string), t: string, g: string)
    ensures Claimed(entries + [e], t, g) <==> Claimed(entries, t, g) || Claimed([e], t, g)
  {
    assert forall x :: x in entries + [e] <==> x in entries || x == e;
    assert e in [e];
  }

  lemma {:induction false} AddTokenExact(table: map<string, string>, done: seq<(string, string)>, e: (string, string))
    requires Exact(table, done)
    ensures match AddToken(Tokens(table), e.0, e.1)
      case Tokens(t) => Exact(t, done + [e])
      case Shared(_) => Conflict(done + [e])
  {
    hide Claimed, GroupName, Trim;
    var token, group := Trim(e.1), GroupName(e.0);
    ClaimedBy(done, e);
    if AddToken(Tokens(table), e.0, e.1).Shared? {
      assert Claimed(done, token, table[token]);
      assert Claimed(done + [e], token, table[token]) && Claimed(done + [e], token, group);
    }
  }

  lemma {:induction false} ClaimedBy(done: seq<(string, string)>, e: (string, string))
    ensures forall t, g {:trigger Claimed(done + [e], t, g)} ::
      Claimed(done + [e], t, g) <==> Claimed(done, t, g) || (t != "" && t == Trim(e.1) && g == GroupName(e.0))
  {
    hide GroupName, Trim;
    forall t, g
      ensures Claimed(done + [e], t, g) <==> Claimed(done, t, g) || (t != "" && t == Trim(e.1) && g == GroupName(e.0))
    {
      ClaimedAppend(done, e, t, g);
    }
  }

  /** A token shared by two groups is rejected; otherwise the table is exactly what was claimed, so
      neither the order of the entries nor repeating one matters. */
  lemma {:induction false} BuildExact(table: map<string, string>, done: seq<(string, string)>,
                                      rest: seq<(string, string)>)
    requires Exact(table, done)
    ensures match BuildFrom(Tokens(table), rest)
      case Tokens(t) => Exact(t, done + rest) && !Conflict(done + rest)
      case Shared(_) => Conflict(done + rest)
    decreases |rest|
  {
    if rest == [] {
      assert done + rest == done;
    } else {
      AddTokenExact(table, done, rest[0]);
      assert done + [rest[0]] + rest[1..] == done + rest;
      match AddToken(Tokens(table), rest[0].0, rest[0].1)
      case Tokens(t) => BuildExact(t, done + [rest[0]], rest[1..]);
      case Shared(token) =>
        SharedStays(token, rest[1..]);
        ConflictStays(done + [rest[0]], rest[1..]);
    }
  }

  lemma {:induction false} ConflictStays(a: seq<(string, string)>, b: seq<(string, string)>)
    requires Conflict(a)
    ensures Conflict(a + b)
  {
    var t, g, h :| g != h && Claimed(a, t, g) && Claimed(a, t, h);
    assert Claimed(a + b, t, g) && Claimed(a + b, t, h);
  }

  lemma {:induction false} SharedStays(token: string, entries: seq<(string, string)>)
    ensures BuildFrom(Shared(token), entries) == Shared(token)
    decreases |entries|
  {
    if entries != [] { SharedStays(token, entries[1..]); }
  }

  /** The whole table: rejected exactly on a conflict, and otherwise exact. */
  lemma {:induction false} BuiltIsExact(entries: seq<(string, string)>)
    ensures match BuildFrom(Tokens(map[]), entries)
      case Tokens(t) => Exact(t, entries) && !Conflict(entries)
      case Shared(_) => Conflict(entries)
  {
    BuildExact(map[], [], entries);
    assert [] + entries == entries;
  }

  method BuildJoinTokens(entries: seq<(string, string)>) returns (r: Built)
    ensures r == BuildFrom(Tokens(map[]), entries)
  {
    r := Tokens(map[]);
    for i := 0 to |entries|
      invariant r.Tokens?
      invariant BuildFrom(Tokens(map[]), entries) == BuildFrom(r, entries[i..])
    {
      var (group, token) := entries[i];
      token := Trim(token);
      assert entries[i..][1..] == entries[i + 1..];
      if token == "" { continue; }
      if token in r.table && r.table[token] != GroupName(group) {
        SharedStays(token, entries[i + 1..]);
        return Shared(token);
      }
      r := Tokens(r.table[token := GroupName(group)]);
    }
  }
}
