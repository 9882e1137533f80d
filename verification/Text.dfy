/** The string handling the control plane and the reconciler rest on, for ASCII text. */
module Text {
  predicate IsSpace(c: char) { c == ' ' || '\t' <= c <= '\r' }

  function LowerChar(c: char): char {
    if 'A' <= c <= 'Z' then (c as int + 32) as char else c
  }

  function Lower(s: string): (r: string)
    ensures |r| == |s| && forall i :: 0 <= i < |s| ==> r[i] == LowerChar(s[i])
  {
    if s == "" then "" else [LowerChar(s[0])] + Lower(s[1..])
  }

  function TrimLeft(s: string): string {
    if s != "" && IsSpace(s[0]) then TrimLeft(s[1..]) else s
  }

  function TrimRight(s: string): string {
    if s != "" && IsSpace(s[|s| - 1]) then TrimRight(s[..|s| - 1]) else s
  }

  function Trim(s: string): string { TrimRight(TrimLeft(s)) }

  predicate Tight(s: string) { s == "" || (!IsSpace(s[0]) && !IsSpace(s[|s| - 1])) }

  lemma {:induction false} TrimLeftTight(s: string)
    ensures TrimLeft(s) == "" || !IsSpace(TrimLeft(s)[0])
  {
    if s != "" && IsSpace(s[0]) { TrimLeftTight(s[1..]); }
  }

  lemma {:induction false} TrimRightTight(s: string)
    ensures var r := TrimRight(s);
      r <= s && (r == "" || !IsSpace(r[|r| - 1]))
  {
    if s != "" && IsSpace(s[|s| - 1]) { TrimRightTight(s[..|s| - 1]); }
  }

  lemma {:induction false} TrimTight(s: string)
    ensures Tight(Trim(s))
  {
    TrimLeftTight(s);
    TrimRightTight(TrimLeft(s));
  }

  lemma {:induction false} TightTrims(s: string)
    requires Tight(s)
    ensures Trim(s) == s
  {
  }

  /** Group names are compared without case or surrounding spaces. */
  function Normalize(s: string): string { Lower(Trim(s)) }

  lemma {:induction false} LowerTight(s: string)
    requires Tight(s)
    ensures Tight(Lower(s)) && Lower(Lower(s)) == Lower(s)
  {
  }

  lemma {:induction false} NormalizeIdempotent(s: string)
    ensures Normalize(Normalize(s)) == Normalize(s)
  {
    TrimTight(s);
    LowerTight(Trim(s));
    TightTrims(Lower(Trim(s)));
  }

  // ----- the same without trimming or lowering -----

  /** The ASCII blanks. */
  predicate Blank(c: char) {
    c == ' ' || c == '\t' || c == '\n' || c == '\r' || c == '\U{0B}' || c == '\U{0C}'
  }

  /** x sits in s at i, with nothing but blanks around it. */
  ghost predicate AloneAt(s: string, i: nat, x: string) {
    && i + |x| <= |s| && s[i..i + |x|] == x
    && forall k :: 0 <= k < i || i + |x| <= k < |s| ==> Blank(s[k])
  }

  /** x is what s says, blanks around it apart. */
  ghost predicate Core(s: string, x: string) {
    && (x == "" || (!Blank(x[0]) && !Blank(x[|x| - 1])))
    && exists i: nat :: AloneAt(s, i, x)
  }

  predicate SameLetter(x: char, y: char) {
    || x == y
    || ('A' <= x <= 'Z' && y as int == x as int + 32)
    || ('A' <= y <= 'Z' && x as int == y as int + 32)
  }

  predicate EqualFold(a: string, b: string) {
    |a| == |b| && forall i :: 0 <= i < |a| ==> SameLetter(a[i], b[i])
  }

  predicate LowerCase(s: string) { forall i :: 0 <= i < |s| ==> !('A' <= s[i] <= 'Z') }

  /** Two spellings of one name: the same letters up to case and surrounding blanks. */
  ghost predicate SameName(a: string, b: string) {
    exists x, y :: Core(a, x) && Core(b, y) && EqualFold(x, y)
  }

  lemma {:induction false} BlankIff(c: char)
    ensures Blank(c) <==> IsSpace(c)
  {
  }

  lemma {:induction false} LeftCut(s: string) returns (k: nat)
    ensures k <= |s| && TrimLeft(s) == s[k..] && forall i :: 0 <= i < k ==> IsSpace(s[i])
  {
    k := 0;
    if s != "" && IsSpace(s[0]) {
      var j := LeftCut(s[1..]);
      k := j + 1;
    }
  }

  lemma {:induction false} RightCut(s: string) returns (k: nat)
    ensures k <= |s| && TrimRight(s) == s[..k] && forall i :: k <= i < |s| ==> IsSpace(s[i])
  {
    k := |s|;
    if s != "" && IsSpace(s[|s| - 1]) {
      k := RightCut(s[..|s| - 1]);
    }
  }

  /** Trimming finds the core, and there is only one. */
  lemma {:induction false} TrimIsCore(s: string)
    ensures Core(s, Trim(s))
  {
    hide IsSpace, Blank;
    var k := LeftCut(s);
    var t := TrimLeft(s);
    var n := RightCut(t);
    TrimTight(s);
    assert t[..n] == s[k..k + n];
    forall c ensures Blank(c) <==> IsSpace(c) { BlankIff(c); }
    forall i | k + n <= i < |s| ensures IsSpace(s[i]) { assert s[i] == t[i - k]; }
    assert AloneAt(s, k, Trim(s));
  }

  lemma {:induction false} CoreUnique(s: string, x: string)
    requires Core(s, x)
    ensures x == Trim(s)
  {
    hide Blank, Trim;
    TrimIsCore(s);
    var t := Trim(s);
    var i: nat :| AloneAt(s, i, x);
    var j: nat :| AloneAt(s, j, t);
    if x != "" { assert s[i] == x[0] && s[i + |x| - 1] == x[|x| - 1]; }
    if t != "" { assert s[j] == t[0] && s[j + |t| - 1] == t[|t| - 1]; }
  }

  lemma {:induction false} LowerIff(a: string, b: string)
    ensures Lower(a) == Lower(b) <==> EqualFold(a, b)
  {
    assert forall i :: 0 <= i < |a| ==> Lower(a)[i] == LowerChar(a[i]);
    assert forall i :: 0 <= i < |b| ==> Lower(b)[i] == LowerChar(b[i]);
    hide Lower, SameLetter;
    forall x, y ensures LowerChar(x) == LowerChar(y) <==> SameLetter(x, y) { LetterIff(x, y); }
    if |a| == |b| && EqualFold(a, b) { assert Lower(a) == Lower(b); }
    if Lower(a) == Lower(b) {
      assert |a| == |b|;
      forall i | 0 <= i < |a| ensures SameLetter(a[i], b[i]) { assert Lower(a)[i] == Lower(b)[i]; }
    }
  }

  lemma {:induction false} LetterIff(x: char, y: char)
    ensures LowerChar(x) == LowerChar(y) <==> SameLetter(x, y)
  {
  }

  lemma {:induction false} LowerIsLowerCase(s: string)
    ensures LowerCase(Lower(s)) && EqualFold(Lower(s), s)
  {
  }

  /** Normal forms agree exactly for two spellings of one name. */
  lemma {:induction false} SameNameIff(a: string, b: string)
    ensures SameName(a, b) <==> Normalize(a) == Normalize(b)
  {
    hide Core, Trim, Lower, EqualFold;
    TrimIsCore(a);
    TrimIsCore(b);
    LowerIff(Trim(a), Trim(b));
    if SameName(a, b) {
      var x, y :| Core(a, x) && Core(b, y) && EqualFold(x, y);
      CoreUnique(a, x);
      CoreUnique(b, y);
    }
  }

  // ----- lists -----

  function Join(xs: seq<string>): string {
    if xs == [] then "" else if |xs| == 1 then xs[0] else xs[0] + "," + Join(xs[1..])
  }

  function Split(s: string): (r: seq<string>)
    ensures r != []
    decreases |s|
  {
    var i := CommaAt(s, 0);
    if i == |s| then [s] else [s[..i]] + Split(s[i + 1..])
  }

  /** The first comma at or after i, or the length. */
  function CommaAt(s: string, i: nat): (j: nat)
    requires i <= |s|
    ensures i <= j <= |s| && (j < |s| ==> s[j] == ',') && forall k :: i <= k < j ==> s[k] != ','
    decreases |s| - i
  {
    if i == |s| || s[i] == ',' then i else CommaAt(s, i + 1)
  }

  predicate CommaFree(s: string) { ',' !in s }

  /** Splitting undoes joining for lists of comma-free items, the empty list apart. */
  lemma {:induction false} SplitJoin(xs: seq<string>)
    requires xs != [] && forall x :: x in xs ==> CommaFree(x)
    ensures Split(Join(xs)) == xs
  {
    assert CommaFree(xs[0]);
    if |xs| > 1 {
      SplitAtComma(xs[0], Join(xs[1..]));
      SplitJoin(xs[1..]);
    } else {
      assert CommaAt(xs[0], 0) == |xs[0]|;
    }
  }

  lemma {:induction false} SplitAtComma(x: string, rest: string)
    requires CommaFree(x)
    ensures Split(x + "," + rest) == [x] + Split(rest)
  {
    var s := x + "," + rest;
    assert forall k :: 0 <= k < |x| ==> s[k] == x[k] && x[k] in x;
    assert s[|x|] == ',' && CommaAt(s, 0) == |x|;
    assert s[..|x|] == x && s[|x| + 1..] == rest;
  }

  /** So joining is injective on lists of non-empty comma-free items. */
  lemma {:induction false} JoinInjective(xs: seq<string>, ys: seq<string>)
    requires forall x :: x in xs ==> x != "" && CommaFree(x)
    requires forall y :: y in ys ==> y != "" && CommaFree(y)
    requires Join(xs) == Join(ys)
    ensures xs == ys
  {
    JoinEmpty(xs);
    JoinEmpty(ys);
    if xs != [] && ys != [] {
      SplitJoin(xs);
      SplitJoin(ys);
    }
  }

  lemma {:induction false} JoinEmpty(xs: seq<string>)
    requires forall x :: x in xs ==> x != ""
    ensures Join(xs) == "" <==> xs == []
  {
    assert xs != [] ==> xs[0] in xs;
  }
}
