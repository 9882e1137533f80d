/** Keeping the machine's name-resolution policy table equal to the suffixes of the joined networks. */
module Nrpt {
  import opened Text

  datatype Rule = Rule(id: string, namespace: string, servers: seq<string>)

  // ----- the order of strings -----

  predicate Less(a: string, b: string) {
    b != "" && (a == "" || a[0] < b[0] || (a[0] == b[0] && Less(a[1..], b[1..])))
  }

  lemma {:induction false} LessTotal(a: string, b: string)
    ensures a == b || Less(a, b) || Less(b, a)
    ensures !(Less(a, b) && Less(b, a)) && !Less(a, a)
  {
    if a != "" {
      if b != "" { LessTotal(a[1..], b[1..]); }
      LessIrreflexive(a);
    }
  }

  lemma {:induction false} LessIrreflexive(a: string)
    ensures !Less(a, a)
  {
    if a != "" { LessIrreflexive(a[1..]); }
  }

  lemma {:induction false} LessTransitive(a: string, b: string, c: string)
    requires Less(a, b) && Less(b, c)
    ensures Less(a, c)
  {
    if a != "" && a[0] == b[0] == c[0] { LessTransitive(a[1..], b[1..], c[1..]); }
  }

  predicate Sorted(xs: seq<string>) { forall i, j :: 0 <= i < j < |xs| ==> Less(xs[i], xs[j]) }

  function Insert(x: string, xs: seq<string>): seq<string> {
    if xs == [] || Less(x, xs[0]) then [x] + xs else [xs[0]] + Insert(x, xs[1..])
  }

  function Sort(xs: seq<string>): seq<string> {
    if xs == [] then [] else Insert(xs[0], Sort(xs[1..]))
  }

  lemma {:induction false} InsertSorts(x: string, xs: seq<string>)
    requires Sorted(xs) && x !in xs
    ensures Sorted(Insert(x, xs))
    ensures forall y :: y in Insert(x, xs) <==> y == x || y in xs
  {
    if xs != [] {
      LessTotal(x, xs[0]);
      if Less(x, xs[0]) {
        forall j | 0 < j < |xs| ensures Less(x, xs[j]) { LessTransitive(x, xs[0], xs[j]); }
      } else {
        InsertSorts(x, xs[1..]);
        var r := Insert(x, xs[1..]);
        assert forall y :: y in xs <==> y == xs[0] || y in xs[1..];
        forall j | 0 <= j < |r| ensures Less(xs[0], r[j]) {
          assert r[j] in r;
          if r[j] != x { var k :| 0 <= k < |xs[1..]| && xs[1..][k] == r[j]; assert xs[k + 1] == r[j]; }
        }
      }
    }
  }

  predicate Distinct(xs: seq<string>) { forall i, j :: 0 <= i < j < |xs| ==> xs[i] != xs[j] }

  lemma {:induction false} SortSorts(xs: seq<string>)
    requires Distinct(xs)
    ensures Sorted(Sort(xs))
    ensures forall y :: y in Sort(xs) <==> y in xs
  {
    if xs != [] {
      SortSorts(xs[1..]);
      assert xs[0] !in xs[1..];
      InsertSorts(xs[0], Sort(xs[1..]));
    }
  }

  /** A set has one sorted listing. */
  lemma {:induction false} SortedUnique(xs: seq<string>, ys: seq<string>)
    requires Sorted(xs) && Sorted(ys) && forall x :: x in xs <==> x in ys
    ensures xs == ys
  {
    assert ys != [] ==> ys[0] in ys && ys[0] in xs;
    if xs != [] {
      assert xs[0] in ys && ys != [];
      HeadsAgree(xs, ys);
      TailSet(xs);
      TailSet(ys);
      SortedUnique(xs[1..], ys[1..]);
    }
  }

  lemma {:induction false} TailSet(xs: seq<string>)
    requires Sorted(xs) && xs != []
    ensures Sorted(xs[1..]) && forall x :: x in xs[1..] <==> x in xs && x != xs[0]
  {
    LessIrreflexive(xs[0]);
  }

  lemma {:induction false} HeadsAgree(xs: seq<string>, ys: seq<string>)
    requires Sorted(xs) && Sorted(ys) && xs != [] && ys != [] && xs[0] in ys && ys[0] in xs
    ensures xs[0] == ys[0]
  {
    var i :| 0 <= i < |ys| && ys[i] == xs[0];
    var j :| 0 <= j < |xs| && xs[j] == ys[0];
    LessTotal(xs[0], ys[0]);
  }

  // ----- wanted namespaces -----

  function TrimDotsLeft(s: string): string { if s != "" && s[0] == '.' then TrimDotsLeft(s[1..]) else s }

  function TrimDotsRight(s: string): string {
    if s != "" && s[|s| - 1] == '.' then TrimDotsRight(s[..|s| - 1]) else s
  }

  /** The name in a suffix: no surrounding spaces or dots, lower case. */
  function NameOf(suffix: string): string { Lower(TrimDotsRight(TrimDotsLeft(Trim(suffix)))) }

  predicate PlainChar(c: char) { 'a' <= c <= 'z' || '0' <= c <= '9' || c == '-' || c == '.' }

  predicate PlainName(s: string) {
    && (forall i :: 0 <= i < |s| ==> PlainChar(s[i]))
    && (forall i :: 0 <= i < |s| - 1 ==> !(s[i] == '.' && s[i + 1] == '.'))
  }

  /** The suffix asks for something: anything that is not a plain name is dropped. */
  predicate Asks(suffix: string) { NameOf(suffix) != "" && PlainName(NameOf(suffix)) }

  function Collect(suffixes: seq<string>): seq<string> {
    if suffixes == [] then []
    else
      var front, s := Collect(suffixes[..|suffixes| - 1]), suffixes[|suffixes| - 1];
      if Asks(s) && "." + NameOf(s) !in front then front + ["." + NameOf(s)] else front
  }

  function Namespaces(suffixes: seq<string>): seq<string> { Sort(Collect(suffixes)) }

  /** A namespace as we write it. */
  predicate Clean(ns: string) {
    |ns| > 1 && ns[0] == '.' && ns[|ns| - 1] != '.' && forall i :: 0 <= i < |ns| ==> PlainChar(ns[i])
  }

  lemma {:induction false} TrimDotsEnds(s: string)
    ensures var r := TrimDotsRight(s);
      r <= s && (r != "" ==> r[|r| - 1] != '.')
  {
    if s != "" && s[|s| - 1] == '.' { TrimDotsEnds(s[..|s| - 1]); }
  }

  lemma {:induction false} AskedIsClean(s: string)
    requires Asks(s)
    ensures Clean("." + NameOf(s))
  {
    TrimDotsEnds(TrimDotsLeft(Trim(s)));
  }

  lemma {:induction false} CollectMeans(suffixes: seq<string>)
    ensures forall ns :: ns in Collect(suffixes) <==> exists s :: s in suffixes && Asks(s) && ns == "." + NameOf(s)
    ensures Distinct(Collect(suffixes))
  {
    hide Asks, NameOf;
    if suffixes != [] {
      var front, last := suffixes[..|suffixes| - 1], suffixes[|suffixes| - 1];
      CollectMeans(front);
      assert forall s :: s in suffixes <==> s in front || s == last;
    }
  }

  /** What Apply works towards: sorted, without duplicates, each one clean, and exactly what the
      suffixes ask for. */
  lemma {:induction false} NamespacesMean(suffixes: seq<string>)
    ensures var want := Namespaces(suffixes);
      && Sorted(want) && Distinct(want)
      && (forall ns :: ns in want <==> exists s :: s in suffixes && Asks(s) && ns == "." + NameOf(s))
      && (forall ns :: ns in want ==> Clean(ns))
  {
    CollectMeans(suffixes);
    SortSorts(Collect(suffixes));
    hide Asks, NameOf, Clean, Collect, Sort, Less;
    var want := Namespaces(suffixes);
    forall i, j | 0 <= i < j < |want| ensures want[i] != want[j] { LessIrreflexive(want[i]); }
    forall ns | ns in want ensures Clean(ns) {
      var s :| s in suffixes && Asks(s) && ns == "." + NameOf(s);
      AskedIsClean(s);
    }
  }

  /** The loop of the original, then the sort. */
  method NamespacesOf(suffixes: seq<string>) returns (out: seq<string>)
    ensures out == Namespaces(suffixes)
  {
    var seen: set<string> := {};
    out := [];
    for i := 0 to |suffixes|
      invariant out == Collect(suffixes[..i])
      invariant forall s :: s in seen <==> "." + s in out
    {
      assert suffixes[..i + 1][..i] == suffixes[..i];
      var s := NameOf(suffixes[i]);
      assert forall t :: t == s <==> "." + t == "." + s by { forall t ensures ("." + t)[1..] == t {} }
      if s == "" || s in seen || !PlainName(s) { continue; }
      seen := seen + {s};
      out := out + ["." + s];
    }
    assert suffixes[..|suffixes|] == suffixes;
    out := Sort(out);
  }

  /** The cache key tells lists of namespaces apart, although it joins them with commas. */
  lemma {:induction false} SignatureInjective(a: seq<string>, b: seq<string>)
    requires Join(Namespaces(a)) == Join(Namespaces(b))
    ensures Namespaces(a) == Namespaces(b)
  {
    NamespacesMean(a);
    NamespacesMean(b);
    hide Namespaces;
    forall ns | Clean(ns) ensures ns != "" && CommaFree(ns) {
      assert forall i :: 0 <= i < |ns| ==> PlainChar(ns[i]) && ns[i] != ',';
    }
    JoinInjective(Namespaces(a), Namespaces(b));
  }

  predicate AskedFor(suffixes: seq<string>, name: string) { exists s :: s in suffixes && Asks(s) && NameOf(s) == name }

  /** And it depends only on what the suffixes ask for, not on their order, spelling or repetition. */
  lemma {:induction false} SameQuestionSameSignature(a: seq<string>, b: seq<string>)
    requires forall n :: AskedFor(a, n) <==> AskedFor(b, n)
    ensures Namespaces(a) == Namespaces(b)
  {
    NamespacesMean(a);
    NamespacesMean(b);
    hide Asks, NameOf, Clean, Namespaces, Sorted;
    forall ns | ns in Namespaces(a) ensures ns in Namespaces(b) {
      var s :| s in a && Asks(s) && ns == "." + NameOf(s);
      assert AskedFor(a, NameOf(s));
    }
    forall ns | ns in Namespaces(b) ensures ns in Namespaces(a) {
      var s :| s in b && Asks(s) && ns == "." + NameOf(s);
      assert AskedFor(b, NameOf(s));
    }
    SortedUnique(Namespaces(a), Namespaces(b));
  }

  // ----- the plan -----

  /** A namespace read back from the system, in the form we write. */
  function SameNamespace(ns: string): string {
    var t := Lower(Trim(ns));
    if |t| > 1 && t[|t| - 1] == '.' then t[..|t| - 1] else t
  }

  /** The rule sends its names to our resolver and nowhere else. */
  predicate ServedBy(servers: seq<string>, server: string) {
    |servers| == 1 && Lower(Trim(servers[0])) == Lower(server)
  }

  lemma {:induction false} CleanIsSame(ns: string)
    requires Clean(ns)
    ensures SameNamespace(ns) == ns
  {
    assert Tight(ns);
    TightTrims(ns);
    assert Lower(ns) == ns;
  }

  /** The rule stays: wanted, the first of its namespace, and ours in every respect. */
  predicate Keeps(r: Rule, want: seq<string>, found: set<string>, server: string) {
    SameNamespace(r.namespace) in want && SameNamespace(r.namespace) !in found && ServedBy(r.servers, server)
  }

  /** The namespaces kept, and the ids removed, going through the rules installed. */
  function Scan(have: seq<Rule>, want: seq<string>, server: string): (set<string>, seq<string>) {
    if have == [] then ({}, [])
    else
      var (found, remove) := Scan(have[..|have| - 1], want, server);
      var r := have[|have| - 1];
      if Keeps(r, want, found, server) then (found + {SameNamespace(r.namespace)}, remove) else (found, remove + [r.id])
  }

  function Missing(want: seq<string>, found: set<string>): seq<string> {
    if want == [] then []
    else Missing(want[..|want| - 1], found) + if want[|want| - 1] in found then [] else [want[|want| - 1]]
  }

  /** The additions and the removals. */
  function Plan(want: seq<string>, have: seq<Rule>, server: string): (seq<string>, seq<string>) {
    var (found, remove) := Scan(have, want, server);
    (Missing(want, found), remove)
  }

  method PlanFor(want: seq<string>, have: seq<Rule>, server: string) returns (add: seq<string>, remove: seq<string>)
    ensures (add, remove) == Plan(want, have, server)
  {
    var wanted := set ns | ns in want;
    var found: set<string> := {};
    remove := [];
    for i := 0 to |have|
      invariant (found, remove) == Scan(have[..i], want, server)
    {
      assert have[..i + 1][..i] == have[..i];
      var ns := SameNamespace(have[i].namespace);
      if ns !in wanted || ns in found || !ServedBy(have[i].servers, server) {
        remove := remove + [have[i].id];
        continue;
      }
      found := found + {ns};
    }
    assert have[..|have|] == have;
    add := [];
    for i := 0 to |want|
      invariant add == Missing(want[..i], found)
    {
      assert want[..i + 1][..i] == want[..i];
      if want[i] !in found { add := add + [want[i]]; }
    }
    assert want[..|want|] == want;
  }

  // ----- the same without trimming or lowering -----

  /** A rule is ours in its server exactly when it names one, and that is our resolver but for case and
      surrounding blanks. */
  lemma {:induction false} ServedByIff(servers: seq<string>, server: string)
    ensures ServedBy(servers, server) <==>
      |servers| == 1 && exists x :: Core(servers[0], x) && EqualFold(x, server)
  {
    hide Core, EqualFold, Trim, Lower;
    if |servers| == 1 {
      TrimIsCore(servers[0]);
      LowerIff(Trim(servers[0]), server);
      if x :| Core(servers[0], x) && EqualFold(x, server) { CoreUnique(servers[0], x); }
    }
  }

  /** A rule is for a namespace of ours exactly when it names it but for case, surrounding blanks and one
      final dot. */
  lemma {:induction false} SameNamespaceIff(raw: string, ns: string)
    requires Clean(ns)
    ensures SameNamespace(raw) == ns <==> exists x :: Core(raw, x) && (EqualFold(x, ns) || EqualFold(x, ns + "."))
  {
    hide Core, EqualFold, Trim, Clean, Lower;
    var t := Trim(raw);
    TrimIsCore(raw);
    CleanIsLower(ns);
    LowerIff(t, ns);
    LowerIff(t, ns + ".");
    forall x | Core(raw, x) ensures x == t { CoreUnique(raw, x); }
    UndotIff(Lower(t), ns);
    SameIsUndot(raw);
    hide SameNamespace, Undot;
  }

  function Undot(t: string): string { if |t| > 1 && t[|t| - 1] == '.' then t[..|t| - 1] else t }

  lemma {:induction false} SameIsUndot(raw: string)
    ensures SameNamespace(raw) == Undot(Lower(Trim(raw)))
  {
  }

  lemma {:induction false} UndotIff(t: string, ns: string)
    requires |ns| > 1 && ns[|ns| - 1] != '.'
    ensures Undot(t) == ns <==> t == ns || t == ns + "."
  {
    if t == ns + "." { assert t[..|t| - 1] == ns; }
  }

  lemma {:induction false} CleanIsLower(ns: string)
    requires Clean(ns)
    ensures Lower(ns) == ns && Lower(ns + ".") == ns + "." && |ns| > 1 && ns[|ns| - 1] != '.'
  {
    var long := ns + ".";
    assert forall i :: 0 <= i < |ns| ==> PlainChar(ns[i]) && LowerChar(ns[i]) == ns[i];
    assert forall i :: 0 <= i < |long| ==> Lower(long)[i] == long[i];
    assert Lower(ns) == ns && Lower(long) == long;
  }

  /** x sits in s at i, with nothing but dots around it. */
  ghost predicate DottedAt(s: string, i: nat, x: string) {
    && i + |x| <= |s| && s[i..i + |x|] == x
    && forall k :: 0 <= k < i || i + |x| <= k < |s| ==> s[k] == '.'
  }

  /** The suffix is a spelling of the name: but for case, surrounding blanks, and dots around it. */
  ghost predicate Spells(suffix: string, name: string) {
    exists c, x, i: nat :: Core(suffix, c) && DottedAt(c, i, x) && EqualFold(x, name)
  }

  lemma {:induction false} DotsLeft(s: string) returns (k: nat)
    ensures k <= |s| && TrimDotsLeft(s) == s[k..] && forall i :: 0 <= i < k ==> s[i] == '.'
    ensures k < |s| ==> s[k] != '.'
  {
    k := 0;
    if s != "" && s[0] == '.' {
      var j := DotsLeft(s[1..]);
      k := j + 1;
    }
  }

  lemma {:induction false} DotsRight(s: string) returns (k: nat)
    ensures k <= |s| && TrimDotsRight(s) == s[..k] && forall i :: k <= i < |s| ==> s[i] == '.'
    ensures k > 0 ==> s[k - 1] != '.'
  {
    k := |s|;
    if s != "" && s[|s| - 1] == '.' {
      k := DotsRight(s[..|s| - 1]);
    }
  }

  /** Letters, digits and hyphens, and single dots between them. */
  ghost predicate DnsName(s: string) {
    && s != "" && s[0] != '.' && s[|s| - 1] != '.'
    && (forall c :: c in s ==> 'a' <= c <= 'z' || '0' <= c <= '9' || c == '-' || c == '.')
    && (forall i, j :: 0 <= i < j < |s| && j == i + 1 ==> s[i] != '.' || s[j] != '.')
  }

  lemma {:induction false} DnsNameIff(s: string)
    ensures DnsName(s) <==> s != "" && PlainName(s) && s[0] != '.' && s[|s| - 1] != '.'
  {
    if DnsName(s) {
      forall i | 0 <= i < |s| ensures PlainChar(s[i]) { assert s[i] in s; }
    }
  }

  /** A namespace is wanted exactly for the names the suffixes spell. */
  lemma {:induction false} WantedIff(suffixes: seq<string>, name: string)
    ensures "." + name in Namespaces(suffixes) <==> DnsName(name) && exists s :: s in suffixes && Spells(s, name)
  {
    DnsNameIff(name);
    hide DnsName;
    NamespacesMean(suffixes);
    hide Namespaces, Asks, Spells, PlainName;
    var ns := "." + name;
    if ns in Namespaces(suffixes) {
      var s :| s in suffixes && Asks(s) && ns == "." + NameOf(s);
      assert ns[1..] == name && ("." + NameOf(s))[1..] == NameOf(s);
      AsksIff(s, name);
    }
    if name != "" && name[0] != '.' && name[|name| - 1] != '.' && PlainName(name) {
      if s :| s in suffixes && Spells(s, name) { AsksIff(s, name); }
    }
  }

  function Undotted(c: string): string { TrimDotsRight(TrimDotsLeft(c)) }

  lemma {:induction false} UndottedMeans(c: string) returns (i: nat)
    ensures var x := Undotted(c);
      DottedAt(c, i, x) && (x == "" || (x[0] != '.' && x[|x| - 1] != '.'))
  {
    i := DotsLeft(c);
    var t := c[i..];
    var n := DotsRight(t);
    assert t[..n] == c[i..i + n];
    forall k | i + n <= k < |c| ensures c[k] == '.' { assert c[k] == t[k - i]; }
    if n > 0 { assert t[0] == c[i]; }
  }

  lemma {:induction false} UndottedUnique(c: string, i: nat, y: string)
    requires DottedAt(c, i, y) && y != "" && y[0] != '.' && y[|y| - 1] != '.'
    ensures y == Undotted(c)
  {
    var j := UndottedMeans(c);
    hide Undotted;
    var x := Undotted(c);
    assert c[i] == y[0] && c[i + |y| - 1] == y[|y| - 1];
    if x != "" { assert c[j] == x[0] && c[j + |x| - 1] == x[|x| - 1]; }
  }

  lemma {:induction false} FoldKeepsEnds(y: string, name: string)
    requires EqualFold(y, name) && name != ""
    ensures y != "" && (y[0] == '.' <==> name[0] == '.') && (y[|y| - 1] == '.' <==> name[|name| - 1] == '.')
  {
  }

  lemma {:induction false} AsksIff(s: string, name: string)
    ensures Asks(s) && NameOf(s) == name <==>
      name != "" && PlainName(name) && name[0] != '.' && name[|name| - 1] != '.' && Spells(s, name)
  {
    hide Core, Trim, PlainName, DottedAt, Undotted, EqualFold;
    var c := Trim(s);
    TrimIsCore(s);
    var i := UndottedMeans(c);
    var x := Undotted(c);
    LowerIff(x, name);
    assert NameOf(s) == Lower(x) by { NameIsUndotted(s); }
    hide NameOf, Lower;
    if name != "" && PlainName(name) {
      PlainIsLower(name);
      if NameOf(s) == name {
        FoldKeepsEnds(x, name);
      }
      if name[0] != '.' && name[|name| - 1] != '.' && Spells(s, name) {
        var d, y, j: nat :| Core(s, d) && DottedAt(d, j, y) && EqualFold(y, name);
        CoreUnique(s, d);
        FoldKeepsEnds(y, name);
        UndottedUnique(c, j, y);
      }
    }
  }

  lemma {:induction false} NameIsUndotted(s: string)
    ensures NameOf(s) == Lower(Undotted(Trim(s)))
  {
  }

  lemma {:induction false} PlainIsLower(name: string)
    requires PlainName(name)
    ensures Lower(name) == name
  {
    assert forall i :: 0 <= i < |name| ==> PlainChar(name[i]) && LowerChar(name[i]) == name[i];
  }

  /** Which installed rules go: those for no wanted namespace, those not served by us alone, and those after
      an earlier good one for the same namespace. */
  lemma {:induction false} RemovedIff(want: seq<string>, have: seq<Rule>, server: string, i: nat)
    requires i < |have| && forall j, k :: 0 <= j < k < |have| ==> have[j].id != have[k].id
    ensures have[i].id in Plan(want, have, server).1 <==>
      !Good(want, have[i], server)
      || exists j :: 0 <= j < i && Good(want, have[j], server)
           && SameNamespace(have[j].namespace) == SameNamespace(have[i].namespace)
  {
    ScanRemoves(want, have, server, i);
  }

  predicate Good(want: seq<string>, r: Rule, server: string) {
    SameNamespace(r.namespace) in want && ServedBy(r.servers, server)
  }

  lemma {:induction false} FoundIff(want: seq<string>, have: seq<Rule>, server: string, ns: string)
    ensures ns in Scan(have, want, server).0 <==>
      exists j :: 0 <= j < |have| && Good(want, have[j], server) && SameNamespace(have[j].namespace) == ns
  {
    hide SameNamespace, ServedBy;
    if have != [] {
      var front, r := have[..|have| - 1], have[|have| - 1];
      FoundIff(want, front, server, ns);
      FoundIff(want, front, server, SameNamespace(r.namespace));
      assert forall j :: 0 <= j < |front| ==> front[j] == have[j];
      if j :| 0 <= j < |have| && Good(want, have[j], server) && SameNamespace(have[j].namespace) == ns {
        assert j < |front| ==> front[j] == have[j];
      }
    }
  }

  lemma {:induction false} ScanRemoves(want: seq<string>, have: seq<Rule>, server: string, i: nat)
    requires i < |have| && forall j, k :: 0 <= j < k < |have| ==> have[j].id != have[k].id
    ensures have[i].id in Scan(have, want, server).1 <==>
      !Good(want, have[i], server)
      || exists j :: 0 <= j < i && Good(want, have[j], server)
           && SameNamespace(have[j].namespace) == SameNamespace(have[i].namespace)
  {
    hide SameNamespace, ServedBy;
    var front, r := have[..|have| - 1], have[|have| - 1];
    ScanRemovesListed(front, want, server);
    LastIdIsNew(have);
    if i < |front| {
      ScanRemoves(want, front, server, i);
      assert forall j :: 0 <= j <= i ==> front[j] == have[j];
    } else {
      FoundIff(want, front, server, SameNamespace(r.namespace));
      assert forall j :: 0 <= j < |front| ==> front[j] == have[j];
    }
  }

  // ----- the system's table -----

  /** One installed rule; ours carries our tag. */
  datatype Entry = Entry(namespace: string, servers: seq<string>, ours: bool)
  type Table = map<string, Entry>

  /** A listing of our rules, in any order. */
  ghost predicate Lists(table: Table, have: seq<Rule>) {
    && (forall i, j :: 0 <= i < j < |have| ==> have[i].id != have[j].id)
    && (forall r :: r in have ==> r.id in table && table[r.id] == Entry(r.namespace, r.servers, true))
    && (forall id :: id in table && table[id].ours ==> Rule(id, table[id].namespace, table[id].servers) in have)
  }

  /** The rules added, under the ids the system picks. */
  function Added(add: seq<string>, server: string, ids: seq<string>): Table
    requires |ids| == |add|
  {
    if add == [] then map[] else Added(add[1..], server, ids[1..])[ids[0] := Entry(add[0], [server], true)]
  }

  /** Removals first, then the additions. */
  function Mutated(table: Table, add: seq<string>, remove: seq<string>, server: string, ids: seq<string>): Table
    requires |ids| == |add|
  {
    (table - (set id | id in remove)) + Added(add, server, ids)
  }

  predicate FreshIds(table: Table, ids: seq<string>) { Distinct(ids) && forall id :: id in ids ==> id !in table }

  predicate SameOurs(a: Entry, b: Entry) {
    a.ours && b.ours && SameNamespace(a.namespace) == SameNamespace(b.namespace)
  }

  /** Exactly one rule of ours per wanted namespace, served by us alone, and no other of ours. */
  ghost predicate Matches(table: Table, want: seq<string>, server: string) {
    && (forall id :: id in table && table[id].ours ==>
          SameNamespace(table[id].namespace) in want && ServedBy(table[id].servers, server))
    && (forall i, j :: i in table && j in table && SameOurs(table[i], table[j]) ==> i == j)
    && (forall ns :: ns in want ==> Installed(table, ns))
  }

  ghost predicate Installed(table: Table, ns: string) {
    exists id :: id in table && table[id].ours && SameNamespace(table[id].namespace) == ns
  }

  predicate Rivals(q: Rule, r: Rule, remove: seq<string>) {
    q.id !in remove && r.id !in remove && SameNamespace(q.namespace) == SameNamespace(r.namespace)
  }

  lemma {:induction false} ScanRemovesListed(have: seq<Rule>, want: seq<string>, server: string)
    ensures forall id :: id in Scan(have, want, server).1 ==> exists r :: r in have && r.id == id
  {
    hide Keeps;
    if have != [] {
      ScanRemovesListed(have[..|have| - 1], want, server);
      assert forall q :: q in have <==> q in have[..|have| - 1] || q == have[|have| - 1];
    }
  }

  lemma {:induction false} LastIdIsNew(have: seq<Rule>)
    requires have != [] && forall i, j :: 0 <= i < j < |have| ==> have[i].id != have[j].id
    ensures forall q :: q in have[..|have| - 1] ==> q.id != have[|have| - 1].id
  {
    forall q | q in have[..|have| - 1] ensures q.id != have[|have| - 1].id {
      var i :| 0 <= i < |have| - 1 && have[i] == q;
    }
  }

  /** What a scan is to find and remove: each kept rule is the only one kept for its namespace. */
  ghost predicate ScanOk(have: seq<Rule>, want: seq<string>, server: string, found: set<string>, remove: seq<string>) {
    && (forall ns :: ns in found ==>
          ns in want && exists r :: r in have && r.id !in remove && SameNamespace(r.namespace) == ns)
    && (forall r :: r in have && r.id !in remove ==> SameNamespace(r.namespace) in found && ServedBy(r.servers, server))
    && (forall q, r :: q in have && r in have && Rivals(q, r, remove) ==> q == r)
  }

  lemma {:induction false} NothingScanned(want: seq<string>, server: string)
    ensures ScanOk([], want, server, {}, [])
  {
    hide SameNamespace, ServedBy;
  }

  lemma {:induction false} ScanMeans(have: seq<Rule>, want: seq<string>, server: string)
    requires forall i, j :: 0 <= i < j < |have| ==> have[i].id != have[j].id
    ensures var (found, remove) := Scan(have, want, server);
      && ScanOk(have, want, server, found, remove)
      && (forall id :: id in remove ==> exists r :: r in have && r.id == id)
  {
    hide SameNamespace, ServedBy;
    ScanRemovesListed(have, want, server);
    if have == [] {
      NothingScanned(want, server);
    } else {
      hide ScanOk, Keeps;
      var front, r := have[..|have| - 1], have[|have| - 1];
      ScanMeans(front, want, server);
      LastIdIsNew(have);
      ScanRemovesListed(front, want, server);
      var (found, remove) := Scan(front, want, server);
      assert r.id !in remove;
      ScanStep(front, r, found, remove, want, server);
      assert have == front + [r];
    }
  }

  lemma {:induction false} ScanStep(front: seq<Rule>, r: Rule, found: set<string>, remove: seq<string>,
                                    want: seq<string>, server: string)
    requires r.id !in remove && forall q :: q in front ==> q.id != r.id
    requires ScanOk(front, want, server, found, remove)
    ensures if Keeps(r, want, found, server)
            then ScanOk(front + [r], want, server, found + {SameNamespace(r.namespace)}, remove)
            else ScanOk(front + [r], want, server, found, remove + [r.id])
  {
    hide SameNamespace, ServedBy;
    assert forall q :: q in front + [r] <==> q in front || q == r;
  }

  lemma {:induction false} MissingMeans(want: seq<string>, found: set<string>)
    requires Distinct(want)
    ensures forall ns :: ns in Missing(want, found) <==> ns in want && ns !in found
    ensures Distinct(Missing(want, found))
  {
    if want != [] {
      var front, last := want[..|want| - 1], want[|want| - 1];
      MissingMeans(front, found);
      assert forall ns :: ns in want <==> ns in front || ns == last;
      assert last !in front;
    }
  }

  lemma {:induction false} AddedMeans(add: seq<string>, server: string, ids: seq<string>)
    requires |ids| == |add| && Distinct(ids)
    ensures var t := Added(add, server, ids);
      && (forall id :: id in t <==> id in ids)
      && (forall i :: 0 <= i < |ids| ==> ids[i] in t && t[ids[i]] == Entry(add[i], [server], true))
  {
    if add != [] {
      AddedMeans(add[1..], server, ids[1..]);
      assert forall id :: id in ids <==> id == ids[0] || id in ids[1..];
      forall i | 0 < i < |ids| ensures ids[i] == ids[1..][i - 1] && add[i] == add[1..][i - 1] {}
    }
  }

  lemma {:induction false} MutatedMeans(table: Table, add: seq<string>, remove: seq<string>, server: string,
                                        ids: seq<string>)
    requires |ids| == |add| && FreshIds(table, ids)
    ensures var t := Mutated(table, add, remove, server, ids);
      && (forall id :: id in t <==> (id in table && id !in remove) || id in ids)
      && (forall id :: id in table && id !in remove ==> t[id] == table[id])
      && (forall i :: 0 <= i < |ids| ==> t[ids[i]] == Entry(add[i], [server], true))
  {
    AddedMeans(add, server, ids);
    hide Added;
  }

  lemma {:induction false} OwnRuleServes(server: string)
    requires Tight(server)
    ensures ServedBy([server], server)
  {
    TightTrims(server);
  }

  /** A rule of ours after the change was kept or added. */
  ghost predicate Origin(t: Table, have: seq<Rule>, add: seq<string>, remove: seq<string>, server: string,
                         ids: seq<string>, id: string) {
    && id in t && |ids| == |add|
    && if id in ids then t[id].namespace in add && t[id].servers == [server]
       else id !in remove && Rule(id, t[id].namespace, t[id].servers) in have
  }

  lemma {:induction false} OursHaveOrigin(table: Table, have: seq<Rule>, add: seq<string>, remove: seq<string>,
                                          server: string, ids: seq<string>, id: string)
    requires Lists(table, have) && FreshIds(table, ids) && |ids| == |add|
    requires id in Mutated(table, add, remove, server, ids) && Mutated(table, add, remove, server, ids)[id].ours
    ensures Origin(Mutated(table, add, remove, server, ids), have, add, remove, server, ids, id)
  {
    MutatedMeans(table, add, remove, server, ids);
    hide Mutated;
    if id in ids {
      var k :| 0 <= k < |ids| && ids[k] == id;
      assert add[k] in add;
    }
  }

  lemma {:induction false} RemovalsAreOurs(table: Table, have: seq<Rule>, add: seq<string>, remove: seq<string>,
                                           server: string, ids: seq<string>)
    requires Lists(table, have) && FreshIds(table, ids) && |ids| == |add|
    requires forall id :: id in remove ==> exists r :: r in have && r.id == id
    ensures var t := Mutated(table, add, remove, server, ids);
      && (forall id :: id in table && !table[id].ours ==> id in t && t[id] == table[id])
      && (forall id :: id in t && !t[id].ours ==> id in table && table[id] == t[id])
      && (forall r :: r in have && r.id !in remove ==> r.id in t && t[r.id] == Entry(r.namespace, r.servers, true))
      && (forall ns :: ns in add ==> exists id :: id in t && t[id] == Entry(ns, [server], true))
  {
    MutatedMeans(table, add, remove, server, ids);
    hide Mutated;
    var t := Mutated(table, add, remove, server, ids);
    assert forall id :: id in ids ==> t[id].ours;
    forall ns | ns in add ensures exists id :: id in t && t[id] == Entry(ns, [server], true) {
      var k :| 0 <= k < |add| && add[k] == ns;
      assert t[ids[k]] == Entry(ns, [server], true);
    }
  }

  /** From any table with unique ids: removing and adding what the plan says leaves exactly one rule
      per wanted namespace, pointing only at our server, and nothing else of ours; and it touches no
      rule that is not ours. */
  lemma {:induction false} PlanInstalls(table: Table, have: seq<Rule>, want: seq<string>, server: string,
                                        ids: seq<string>)
    requires Lists(table, have) && Distinct(want) && (forall ns :: ns in want ==> Clean(ns))
      && (want != [] ==> Tight(server))
    requires FreshIds(table, ids) && |ids| == |Plan(want, have, server).0|
    ensures var (add, remove) := Plan(want, have, server);
      var t := Mutated(table, add, remove, server, ids);
      && Matches(t, want, server)
      && (forall id :: id in table && !table[id].ours ==> id in t && t[id] == table[id])
      && (forall id :: id in t && !t[id].ours ==> id in table && table[id] == t[id])
  {
    var (found, remove) := Scan(have, want, server);
    var add := Missing(want, found);
    ScanMeans(have, want, server);
    MissingMeans(want, found);
    RemovalsAreOurs(table, have, add, remove, server, ids);
    hide *;
    Assembled(table, have, want, found, add, remove, server, ids);
  }

  lemma {:induction false} Assembled(table: Table, have: seq<Rule>, want: seq<string>, found: set<string>,
                                     add: seq<string>, remove: seq<string>,
                                     server: string, ids: seq<string>)
    requires Lists(table, have) && (forall ns :: ns in want ==> Clean(ns)) && (want != [] ==> Tight(server))
    requires FreshIds(table, ids) && |ids| == |add| && Distinct(add)
    requires forall ns :: ns in found ==>
      ns in want && exists r :: r in have && r.id !in remove && SameNamespace(r.namespace) == ns
    requires forall r :: r in have && r.id !in remove ==>
      SameNamespace(r.namespace) in found && ServedBy(r.servers, server)
    requires forall q, r :: q in have && r in have && Rivals(q, r, remove) ==> q == r
    requires forall ns :: ns in add <==> ns in want && ns !in found
    requires var t := Mutated(table, add, remove, server, ids);
      && (forall r :: r in have && r.id !in remove ==> r.id in t && t[r.id] == Entry(r.namespace, r.servers, true))
      && (forall ns :: ns in add ==> exists id :: id in t && t[id] == Entry(ns, [server], true))
    ensures Matches(Mutated(table, add, remove, server, ids), want, server)
  {
    hide SameNamespace, ServedBy, Clean, Tight, Mutated, Lists, FreshIds, Distinct;
    var t := Mutated(table, add, remove, server, ids);
    if want != [] { OwnRuleServes(server); }
    forall ns | ns in want ensures SameNamespace(ns) == ns { CleanIsSame(ns); }
    forall id | id in t && t[id].ours ensures Origin(t, have, add, remove, server, ids, id) {
      OursHaveOrigin(table, have, add, remove, server, ids, id);
    }
    AddedAt(table, add, remove, server, ids);
    forall i, j | i in t && j in t && SameOurs(t[i], t[j]) ensures i == j {
      OneRuleEach(t, have, found, add, remove, server, ids, i, j);
    }
    forall ns | ns in want ensures Installed(t, ns) {
      if ns in found {
        var r :| r in have && r.id !in remove && SameNamespace(r.namespace) == ns;
      } else {
        assert ns in add;
      }
    }
  }

  ghost predicate AddedUnder(t: Table, add: seq<string>, server: string, ids: seq<string>) {
    |ids| == |add| && forall k :: 0 <= k < |ids| ==> ids[k] in t && t[ids[k]] == Entry(add[k], [server], true)
  }

  lemma {:induction false} AddedAt(table: Table, add: seq<string>, remove: seq<string>, server: string,
                                   ids: seq<string>)
    requires FreshIds(table, ids) && |ids| == |add|
    ensures AddedUnder(Mutated(table, add, remove, server, ids), add, server, ids)
  {
    MutatedMeans(table, add, remove, server, ids);
    hide Mutated;
  }

  lemma {:induction false} OneRuleEach(t: Table, have: seq<Rule>, found: set<string>, add: seq<string>,
                                       remove: seq<string>,
                                       server: string, ids: seq<string>, i: string, j: string)
    requires Distinct(add) && AddedUnder(t, add, server, ids)
    requires forall ns :: ns in add ==> ns !in found && SameNamespace(ns) == ns
    requires forall r :: r in have && r.id !in remove ==> SameNamespace(r.namespace) in found
    requires forall q, r :: q in have && r in have && Rivals(q, r, remove) ==> q == r
    requires i in t && j in t && SameOurs(t[i], t[j])
    requires Origin(t, have, add, remove, server, ids, i) && Origin(t, have, add, remove, server, ids, j)
    ensures i == j
  {
    hide SameNamespace;
    if i in ids && j in ids {
      var k :| 0 <= k < |ids| && ids[k] == i;
      var l :| 0 <= l < |ids| && ids[l] == j;
      assert add[k] in add && add[l] in add;
    } else if i !in ids && j !in ids {
      assert Rivals(Rule(i, t[i].namespace, t[i].servers), Rule(j, t[j].namespace, t[j].servers), remove);
    }
  }

  /** A scan that finds every rule right keeps them all. */
  lemma {:induction false} ScanKeepsAll(have: seq<Rule>, want: seq<string>, server: string)
    requires forall r :: r in have ==> SameNamespace(r.namespace) in want && ServedBy(r.servers, server)
    requires forall i, j :: 0 <= i < j < |have| ==> SameNamespace(have[i].namespace) != SameNamespace(have[j].namespace)
    ensures Scan(have, want, server).1 == []
    ensures forall ns :: ns in Scan(have, want, server).0 <==> exists r :: r in have && SameNamespace(r.namespace) == ns
  {
    hide SameNamespace, ServedBy;
    if have != [] {
      var front, last := have[..|have| - 1], have[|have| - 1];
      assert last in have && forall r :: r in have <==> r in front || r == last;
      ScanKeepsAll(front, want, server);
      forall r | r in front ensures SameNamespace(r.namespace) != SameNamespace(last.namespace) {
        var i :| 0 <= i < |front| && front[i] == r;
        assert have[i] == r;
      }
    }
  }

  lemma {:induction false} NothingMissing(want: seq<string>, found: set<string>)
    requires forall ns :: ns in want ==> ns in found
    ensures Missing(want, found) == []
  {
    if want != [] {
      assert want[|want| - 1] in want;
      NothingMissing(want[..|want| - 1], found);
    }
  }

  /** There is nothing to do exactly when the table is already right: planning again after a
      plan is carried out yields nothing. */
  lemma {:induction false} NothingToDoIff(table: Table, have: seq<Rule>, want: seq<string>, server: string)
    requires Lists(table, have) && Distinct(want) && (forall ns :: ns in want ==> Clean(ns))
      && (want != [] ==> Tight(server))
    ensures Plan(want, have, server) == ([], []) <==> Matches(table, want, server)
  {
    hide SameNamespace, ServedBy, Clean, Tight, Lists, Distinct, Matches, Scan, Missing, Plan;
    if Matches(table, want, server) {
      MatchingIsKept(table, have, want, server);
    }
    if Plan(want, have, server) == ([], []) {
      IdleMatches(table, have, want, server);
    }
  }

  lemma {:induction false} IdleMatches(table: Table, have: seq<Rule>, want: seq<string>, server: string)
    requires Lists(table, have) && Distinct(want) && (forall ns :: ns in want ==> Clean(ns))
      && (want != [] ==> Tight(server))
    requires Plan(want, have, server) == ([], [])
    ensures Matches(table, want, server)
  {
    hide Lists, Matches, Plan, Clean, Tight, Mutated;
    PlanInstalls(table, have, want, server, []);
    NoChange(table, server);
  }

  lemma {:induction false} NoChange(table: Table, server: string)
    ensures Mutated(table, [], [], server, []) == table
  {
    var none: seq<string> := [];
    assert (set id | id in none) == {};
  }

  lemma {:induction false} MatchingIsKept(table: Table, have: seq<Rule>, want: seq<string>, server: string)
    requires Lists(table, have) && Matches(table, want, server)
    ensures Plan(want, have, server) == ([], [])
  {
    hide SameNamespace, ServedBy, Scan, Missing;
    forall i, j | 0 <= i < j < |have| ensures SameNamespace(have[i].namespace) != SameNamespace(have[j].namespace) {
      assert have[i] in have && have[j] in have;
      assert have[i].id != have[j].id;
      assert !SameOurs(table[have[i].id], table[have[j].id]);
    }
    ScanKeepsAll(have, want, server);
    var found := Scan(have, want, server).0;
    forall ns | ns in want ensures ns in found {
      assert Installed(table, ns);
      var id :| id in table && table[id].ours && SameNamespace(table[id].namespace) == ns;
      assert Rule(id, table[id].namespace, table[id].servers) in have;
    }
    NothingMissing(want, found);
  }

  // ----- the binder -----

  /** The machine's table, which outlives us and which others may edit. */
  class System {
    var table: Table

    constructor ()
      ensures table == map[]
    {
      table := map[];
    }
  }

  /** What the system does with one Apply: whether listing and mutating succeed, the listing it
      gives, and the ids it picks. */
  datatype Answer = Answer(listOk: bool, have: seq<Rule>, mutateOk: bool, ids: seq<string>)

  ghost predicate Honest(table: Table, want: seq<string>, server: string, a: Answer) {
    a.listOk ==> Lists(table, a.have) && FreshIds(table, a.ids) && |a.ids| == |Plan(want, a.have, server).0|
  }

  /** The binder's memory together with the table; edited records an edit by others since the table was
      last listed with success, or the memory reset. */
  datatype State = State(synced: bool, last: string, table: Table, edited: bool)

  /** Apply: cached, or list, plan and mutate; a failed mutation leaves everything as it was. */
  function AfterApply(s: State, suffixes: seq<string>, server: string, a: Answer): (State, bool)
    requires a.listOk ==> |a.ids| == |Plan(Namespaces(suffixes), a.have, server).0|
  {
    var want := Namespaces(suffixes);
    if s.synced && Join(want) == s.last then (s, true)
    else if !a.listOk then (s, false)
    else
      var (add, remove) := Plan(want, a.have, server);
      if !a.mutateOk && (add != [] || remove != []) then (s, false)
      else (s.(synced := true, last := Join(want), table := Mutated(s.table, add, remove, server, a.ids),
          edited := false), true)
  }

  /** The memory answers for these suffixes without a look at the table. */
  predicate Cached(s: State, suffixes: seq<string>) { s.synced && Join(Namespaces(suffixes)) == s.last }

  /** What the binder believes is true, unless the table was edited behind its back. */
  ghost predicate Sound(s: State, server: string) {
    s.synced && !s.edited ==>
      exists suffixes :: s.last == Join(Namespaces(suffixes)) && Matches(s.table, Namespaces(suffixes), server)
  }

  /** An Apply that reports success leaves the table matching the suffixes, unless the memory answered
      for a table edited meanwhile: then exactly when the table matches all the same. A failing one
      changes nothing. */
  lemma {:induction false} ApplySound(s: State, suffixes: seq<string>, server: string, a: Answer)
    requires Sound(s, server) && Honest(s.table, Namespaces(suffixes), server, a) && Tight(server)
    ensures var (t, ok) := AfterApply(s, suffixes, server, a);
      && Sound(t, server)
      && (ok && !s.edited ==> Matches(t.table, Namespaces(suffixes), server))
      && (ok ==> (Matches(t.table, Namespaces(suffixes), server)
                  <==> !Cached(s, suffixes) || Matches(s.table, Namespaces(suffixes), server)))
      && (ok && !Cached(s, suffixes) ==> !t.edited)
      && (!ok ==> t == s)
      && (forall id :: id in s.table && !s.table[id].ours ==> id in t.table && t.table[id] == s.table[id])
  {
    var want := Namespaces(suffixes);
    NamespacesMean(suffixes);
    hide Namespaces, Join, Tight, Clean;
    if s.synced && Join(want) == s.last {
      if !s.edited {
        var remembered :| s.last == Join(Namespaces(remembered)) && Matches(s.table, Namespaces(remembered), server);
        SignatureInjective(suffixes, remembered);
      }
    } else if a.listOk {
      PlanInstalls(s.table, a.have, want, server, a.ids);
    }
  }

  /** When Apply reports success, and what it remembers: the next one for the same suffixes is answered
      from memory, and then touches nothing. */
  lemma {:induction false} ApplyOkIff(s: State, suffixes: seq<string>, server: string, a: Answer)
    requires Honest(s.table, Namespaces(suffixes), server, a)
    ensures var (t, ok) := AfterApply(s, suffixes, server, a);
      && ok == (Cached(s, suffixes)
                || (a.listOk && (a.mutateOk || Plan(Namespaces(suffixes), a.have, server) == ([], []))))
      && (ok ==> Cached(t, suffixes))
      && (Cached(s, suffixes) ==> t == s)
  {
    hide Namespaces, Plan, Join, Mutated, Lists;
  }

  datatype Op = Apply(suffixes: seq<string>, answer: Answer) | Resync | Edit(table: Table)

  /** One event: a call, or somebody else editing the table. Clear is Apply of nothing. */
  function Next(s: State, op: Op, server: string): State {
    match op
    case Apply(suffixes, a) =>
      if a.listOk && |a.ids| != |Plan(Namespaces(suffixes), a.have, server).0| then s
          else AfterApply(s, suffixes, server, a).0
    case Resync => s.(synced := false, edited := false)
    case Edit(table) => s.(table := table, edited := true)
  }

  function Run(s: State, ops: seq<Op>, server: string): State {
    if ops == [] then s else Next(Run(s, ops[..|ops| - 1], server), ops[|ops| - 1], server)
  }

  ghost predicate HonestRun(s: State, ops: seq<Op>, server: string) {
    if ops == [] then true
    else
      var before, op := Run(s, ops[..|ops| - 1], server), ops[|ops| - 1];
      && HonestRun(s, ops[..|ops| - 1], server)
      && (op.Apply? ==> Honest(before.table, Namespaces(op.suffixes), server, op.answer))
  }

  /** Over any run of calls and edits from a new binder over any table. */
  lemma {:induction false} RunSound(table: Table, ops: seq<Op>, server: string)
    requires Tight(server) && HonestRun(State(false, "", table, false), ops, server)
    ensures Sound(Run(State(false, "", table, false), ops, server), server)
  {
    if ops != [] {
      var front, op := ops[..|ops| - 1], ops[|ops| - 1];
      RunSound(table, front, server);
      if op.Apply? {
        ApplySound(Run(State(false, "", table, false), front, server), op.suffixes, server, op.answer);
      }
    }
  }

  /** So after any run, an Apply that reports success, cached or not, leaves exactly the wanted rules
      when nobody edited the table since it was last listed or the memory reset; and otherwise unless
      the memory answers and the edit shows. */
  lemma {:induction false} ApplyAfterAnyRun(table: Table, ops: seq<Op>, suffixes: seq<string>, server: string,
                                            a: Answer)
    requires Tight(server) && HonestRun(State(false, "", table, false), ops, server)
    requires var s := Run(State(false, "", table, false), ops, server);
      Honest(s.table, Namespaces(suffixes), server, a) && AfterApply(s, suffixes, server, a).1
    ensures var s := Run(State(false, "", table, false), ops, server);
      var right := Matches(AfterApply(s, suffixes, server, a).0.table, Namespaces(suffixes), server);
      && (!s.edited ==> right)
      && (right <==> !Cached(s, suffixes) || Matches(s.table, Namespaces(suffixes), server))
  {
    RunSound(table, ops, server);
    ApplySound(Run(State(false, "", table, false), ops, server), suffixes, server, a);
  }

  /** The failing run: install, have somebody empty the table, apply the same suffixes again. The memory
      answers, and nothing is put back until the memory is reset. */
  lemma {:induction false} StaleMemory(suffixes: seq<string>, server: string, ids: seq<string>, a: Answer)
    requires Tight(server) && Namespaces(suffixes) != []
    requires FreshIds(map[], ids) && |ids| == |Plan(Namespaces(suffixes), [], server).0|
    requires Honest(map[], Namespaces(suffixes), server, a)
    ensures var ops := [Apply(suffixes, Answer(true, [], true, ids)), Edit(map[])];
      var s := Run(State(false, "", map[], false), ops, server);
      && HonestRun(State(false, "", map[], false), ops, server)
      && s.table == map[] && Cached(s, suffixes)
      && AfterApply(s, suffixes, server, a) == (s, true)
      && !Matches(s.table, Namespaces(suffixes), server)
  {
    hide Namespaces, Plan, Mutated, FreshIds, Join;
    var s0 := State(false, "", map[], false);
    var install, edit := Apply(suffixes, Answer(true, [], true, ids)), Edit(map[]);
    var ops := [install, edit];
    assert ops[..1] == [install] && ops[..1][..0] == [];
    assert Run(s0, [], server) == s0 && HonestRun(s0, [], server);
    assert Run(s0, ops[..1], server) == Next(s0, install, server);
    assert HonestRun(s0, ops[..1], server);
    var want := Namespaces(suffixes);
    assert want[0] in want;
  }

  class Binder {
    const server: string
    const system: System
    var synced: bool
    var last: string
    ghost var edited: bool

    ghost function Now(): State
      reads this, system
    {
      State(synced, last, system.table, edited)
    }

    constructor (server: string, system: System)
      ensures this.server == server && this.system == system && !synced && !edited
    {
      this.server, this.system := server, system;
      synced, last, edited := false, "", false;
    }

    method Apply(suffixes: seq<string>, a: Answer) returns (ok: bool)
      requires Sound(Now(), server) && Tight(server)
      requires Honest(system.table, Namespaces(suffixes), server, a)
      modifies this, system
      ensures (Now(), ok) == AfterApply(old(Now()), suffixes, server, a)
      ensures Sound(Now(), server)
      ensures ok && (!old(edited) || !Cached(old(Now()), suffixes))
        ==> Matches(system.table, Namespaces(suffixes), server)
    {
      ApplySound(Now(), suffixes, server, a);
      hide Sound, Matches, Namespaces, Plan, Join, Lists;
      var want := NamespacesOf(suffixes);
      var sig := Join(want);
      if synced && sig == last { return true; }
      if !a.listOk { return false; }
      var add, remove := PlanFor(want, a.have, server);
      if !a.mutateOk && (add != [] || remove != []) { return false; }
      system.table := Mutated(system.table, add, remove, server, a.ids);
      synced, last, edited := true, sig, false;
      ok := true;
    }

    /** Forgets what was installed, so that the next Apply looks at the table again. */
    method Resync()
      modifies this`synced, this`edited
      ensures Now() == old(Now()).(synced := false, edited := false) && Sound(Now(), server)
    {
      synced := false;
      edited := false;
    }

    method Clear(a: Answer) returns (ok: bool)
      requires Sound(Now(), server) && Tight(server)
      requires Honest(system.table, Namespaces([]), server, a)
      modifies this, system
      ensures (Now(), ok) == AfterApply(old(Now()), [], server, a) && Sound(Now(), server)
      ensures ok && (!old(edited) || !Cached(old(Now()), []))
        ==> forall id :: id in system.table ==> !system.table[id].ours
    {
      ok := Apply([], a);
    }
  }
}
