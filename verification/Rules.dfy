/** The command-line shorthand for access rules, read and written. */
module Rules {
  import opened Net
  import opened Text
  import opened Acl

  predicate ArrowAt(s: string, i: int) { 0 <= i < |s| - 1 && s[i] == '-' && s[i + 1] == '>' }
  ghost predicate NoArrow(s: string) { forall i :: !ArrowAt(s, i) }

  /** The first arrow at or after i, or the length. */
  function FirstArrow(s: string, i: nat): (j: nat)
    requires i <= |s|
    ensures i <= j <= |s| && (j < |s| ==> ArrowAt(s, j)) && forall k :: i <= k < j ==> !ArrowAt(s, k)
    decreases |s| - i
  {
    if i == |s| || ArrowAt(s, i) then i else FirstArrow(s, i + 1)
  }

  /** Normal forms of the non-blank groups. */
  function Groups(gs: seq<string>): seq<string> {
    if gs == [] then [] else (if Normalize(gs[0]) == "" then [] else [Normalize(gs[0])]) + Groups(gs[1..])
  }

  function SplitGroups(s: string): seq<string> { Groups(Split(s)) }

  function ParseRule(s: string): Option<Rule> {
    var j := FirstArrow(s, 0);
    if j == |s| then None
    else
      var src, dst := SplitGroups(s[..j]), SplitGroups(s[j + 2..]);
      if src == [] || dst == [] then None else Some(Rule(src, dst))
  }

  function Render(r: Rule): string { Join(r.src) + "->" + Join(r.dst) }

  /** A group name as the policy keeps it. */
  predicate Plain(g: string) { g != "" && Normalize(g) == g && CommaFree(g) }

  /** A rule the shorthand can express: no side empty, plain names, and no arrow in a source. */
  ghost predicate Expressible(r: Rule) {
    && r.src != [] && r.dst != []
    && (forall g :: g in r.src ==> Plain(g) && NoArrow(g))
    && (forall g :: g in r.dst ==> Plain(g))
  }

  /** Reading a rendered rule gives the rule back exactly when the shorthand can express it. */
  lemma {:induction false} ParseRenderIff(r: Rule)
    ensures ParseRule(Render(r)) == Some(r) <==> Expressible(r)
  {
    if Expressible(r) { RenderedReadsBack(r); }
    if ParseRule(Render(r)) == Some(r) { ReadIsExpressible(Render(r)); }
  }

  lemma {:induction false} RenderedReadsBack(r: Rule)
    requires Expressible(r)
    ensures ParseRule(Render(r)) == Some(r)
  {
    var a, b := Join(r.src), Join(r.dst);
    JoinNoArrow(r.src);
    ArrowFound(a, b);
    assert Render(r)[..|a|] == a && Render(r)[|a| + 2..] == b;
    SplitJoin(r.src);
    SplitJoin(r.dst);
    GroupsOfPlain(r.src);
    GroupsOfPlain(r.dst);
  }

  lemma {:induction false} ArrowFound(a: string, b: string)
    requires NoArrow(a)
    ensures FirstArrow(a + "->" + b, 0) == |a|
  {
    var s := a + "->" + b;
    assert ArrowAt(s, |a|);
    forall k | 0 <= k < |a| ensures !ArrowAt(s, k) {
      assert !ArrowAt(a, k);
      assert s[k] == a[k] && s[k + 1] == (if k + 1 < |a| then a[k + 1] else '-');
    }
  }

  lemma {:induction false} JoinNoArrow(gs: seq<string>)
    requires forall g :: g in gs ==> NoArrow(g)
    ensures NoArrow(Join(gs))
  {
    if |gs| == 1 {
      assert gs[0] in gs;
    } else if |gs| > 1 {
      JoinNoArrow(gs[1..]);
      assert gs[0] in gs;
      var a, b := gs[0], Join(gs[1..]);
      var s := a + "," + b;
      forall i ensures !ArrowAt(s, i) {
        assert !ArrowAt(a, i) && !ArrowAt(b, i - |a| - 1);
        if 0 <= i < |s| - 1 {
          assert s[i] == (if i < |a| then a[i] else if i == |a| then ',' else b[i - |a| - 1]);
          assert s[i + 1] == (if i + 1 < |a| then a[i + 1] else if i + 1 == |a| then ',' else b[i - |a|]);
        }
      }
    }
  }

  lemma {:induction false} GroupsOfPlain(gs: seq<string>)
    requires forall g :: g in gs ==> Plain(g)
    ensures Groups(gs) == gs
  {
    if gs != [] {
      assert gs[0] in gs;
      GroupsOfPlain(gs[1..]);
    }
  }

  // ----- whatever is read is expressible -----

  lemma {:induction false} ReadIsExpressible(s: string)
    requires ParseRule(s).Some?
    ensures Expressible(ParseRule(s).value)
  {
    var j := FirstArrow(s, 0);
    forall i ensures !ArrowAt(s[..j], i) { assert ArrowAt(s[..j], i) ==> ArrowAt(s, i); }
    PartsOf(s[..j]);
    PartsOf(s[j + 2..]);
    GroupsArePlain(Split(s[..j]));
    GroupsArePlain(Split(s[j + 2..]));
  }

  lemma {:induction false} PartsOf(s: string)
    ensures forall g :: g in Split(s) ==> CommaFree(g) && (NoArrow(s) ==> NoArrow(g))
    decreases |s|
  {
    var i := CommaAt(s, 0);
    assert CommaFree(s[..i]);
    assert forall k :: ArrowAt(s[..i], k) ==> ArrowAt(s, k);
    if i < |s| {
      var rest := s[i + 1..];
      assert forall k :: ArrowAt(rest, k) ==> ArrowAt(s, k + i + 1);
      PartsOf(rest);
    } else {
      assert s[..i] == s;
    }
  }

  lemma {:induction false} GroupsArePlain(gs: seq<string>)
    requires forall g :: g in gs ==> CommaFree(g)
    ensures forall g :: g in Groups(gs) ==> Plain(g)
    ensures (forall g :: g in gs ==> NoArrow(g)) ==> forall g :: g in Groups(gs) ==> NoArrow(g)
  {
    if gs != [] {
      assert gs[0] in gs && forall g :: g in gs[1..] ==> g in gs;
      GroupsArePlain(gs[1..]);
      NormalizeIdempotent(gs[0]);
      NormalizeKeeps(gs[0]);
    }
  }

  /** Normalizing introduces neither commas nor arrows. */
  lemma {:induction false} NormalizeKeeps(g: string)
    ensures CommaFree(g) ==> CommaFree(Normalize(g))
    ensures NoArrow(g) ==> NoArrow(Normalize(g))
  {
    var k := TrimIsWindow(g);
    var t, n := Trim(g), Normalize(g);
    assert forall i :: 0 <= i < |t| ==> t[i] == g[k + i];
    forall i | 0 <= i < |n| && n[i] == ',' ensures ',' in g { assert g[k + i] == ','; }
    forall i ensures ArrowAt(n, i) ==> ArrowAt(g, k + i) {}
  }

  lemma {:induction false} TrimIsWindow(g: string) returns (k: nat)
    ensures k + |Trim(g)| <= |g| && Trim(g) == g[k..k + |Trim(g)|]
  {
    k := LeftCut(g);
    TrimRightTight(TrimLeft(g));
  }
}
