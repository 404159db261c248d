/**
 This module models one match attempt of the struct-declaration pattern of
 extension.js:40,

     /type +([^ ]+) +struct {(.+?(?=}))}/gs

 as a deterministic scanner over the text. The pattern has no alternation and
 its adjacent pieces are complementary (` ` against `[^ ]`, `.+?` stopped by the
 first `}`), so backtracking never changes the outcome: an attempt at a given
 position either fails or yields exactly one match.

 `MatchAt` is the scanner; `IsMatchAt` is the reference description of a match
 (the matched text is `DeclText(a, name, b, body)` for some space counts), and
 the two are proved to agree in both directions.
 */
module StructPattern {
  import opened Wrappers

  /** The literal that starts the pattern. No word boundary precedes it. */
  const TypeKeyword: string := "type"

  /** The literal between the second run of spaces and the body. */
  const StructOpen: string := "struct {"

  /** One successful match: where it starts, capture group 1 (the type name),
      capture group 2 (the body) and the index just past the closing `}`. */
  datatype Match = Match(start: nat, name: string, body: string, end: nat)

  /** Text `lit` occurs in `s` at index `i`. */
  predicate HasAt(s: string, i: nat, lit: string)
  {
    i + |lit| <= |s| && s[i..i + |lit|] == lit
  }

  /** A capture of `([^ ]+)`: at least one character, none of them a space. */
  predicate ValidName(name: string)
  {
    |name| >= 1 && forall i :: 0 <= i < |name| ==> name[i] != ' '
  }

  /** A capture of `(.+?(?=}))` as the lazy quantifier leaves it: at least one
      character, and no `}` after the first one (the first `}` at or after the
      second body character ends the match). */
  predicate ValidBody(body: string)
  {
    |body| >= 1 && forall i :: 1 <= i < |body| ==> body[i] != '}'
  }

  /** `n` spaces. */
  function Spaces(n: nat): (r: string)
    ensures |r| == n
    ensures forall i :: 0 <= i < n ==> r[i] == ' '
  {
    seq(n, _ => ' ')
  }

  /** The text a match covers: `type`, `a` spaces, the name, `b` spaces,
      `struct {`, the body and the closing `}`. */
  function DeclText(a: nat, name: string, b: nat, body: string): string
  {
    TypeKeyword + (Spaces(a) + (name + (Spaces(b) + (StructOpen + (body + "}")))))
  }

  /** Reference description of a successful attempt at `p`: the text from `p`
      up to `m.end` is a declaration with at least one space on either side of
      a valid name and a valid body. */
  ghost predicate IsMatchAt(s: string, p: nat, m: Match)
  {
    && m.start == p
    && p <= m.end <= |s|
    && ValidName(m.name)
    && ValidBody(m.body)
    && exists a: nat, b: nat :: 1 <= a && 1 <= b && s[p..m.end] == DeclText(a, m.name, b, m.body)
  }

  /** Some match of the pattern starts at `p`. */
  ghost predicate MatchesAt(s: string, p: nat)
  {
    exists m :: IsMatchAt(s, p, m)
  }

  /** End of the maximal run of spaces starting at `i` (the greedy ` +`). */
  function SkipSpaces(s: string, i: nat): (k: nat)
    requires i <= |s|
    ensures i <= k <= |s|
    ensures forall t :: i <= t < k ==> s[t] == ' '
    ensures k == |s| || s[k] != ' '
    decreases |s| - i
  {
    if i < |s| && s[i] == ' ' then SkipSpaces(s, i + 1) else i
  }

  /** End of the maximal run of non-space characters starting at `i`
      (the greedy `[^ ]+`). */
  function SkipNonSpaces(s: string, i: nat): (k: nat)
    requires i <= |s|
    ensures i <= k <= |s|
    ensures forall t :: i <= t < k ==> s[t] != ' '
    ensures k == |s| || s[k] == ' '
    decreases |s| - i
  {
    if i < |s| && s[i] != ' ' then SkipNonSpaces(s, i + 1) else i
  }

  /** The least index at or after `i` holding `}` (the lookahead `(?=})`
      reached by the lazy `.+?`), or `None` when there is none. */
  function FindClose(s: string, i: nat): (r: Option<nat>)
    ensures r.Some? ==> i <= r.value < |s| && s[r.value] == '}'
    ensures r.Some? ==> forall t :: i <= t < r.value ==> s[t] != '}'
    ensures r.None? ==> forall t :: i <= t < |s| ==> s[t] != '}'
    decreases |s| - i
  {
    if i >= |s| then None
    else if s[i] == '}' then Some(i)
    else FindClose(s, i + 1)
  }

  /** How far an attempt has got through the pattern: before `type`; at the
      name after the first space run; after the name, before the second space
      run; at the body after `struct {`. */
  datatype Stage =
    | AtKeyword
    | AtName(nameStart: nat)
    | AtStruct(nameStart: nat, nameEnd: nat)
    | AtBody(name: string, bodyStart: nat)

  /** Stages still to run after this one. */
  function StagesLeft(st: Stage): nat
  {
    match st
    case AtKeyword => 3
    case AtName(_) => 2
    case AtStruct(_, _) => 1
    case AtBody(_, _) => 0
  }

  /** The positions a stage records lie within the text. */
  predicate StageInBounds(s: string, p: nat, st: Stage)
  {
    match st
    case AtKeyword => true
    case AtName(n0) => p + |TypeKeyword| <= n0 <= |s|
    case AtStruct(n0, n1) => n0 <= n1 <= |s|
    case AtBody(_, q) => q <= |s|
  }

  /** The index an attempt has reached on entering a stage. */
  function Reached(p: nat, st: Stage): nat
  {
    match st
    case AtKeyword => p
    case AtName(n0) => n0
    case AtStruct(_, n1) => n1
    case AtBody(_, q) => q
  }

  /** The rest of an attempt at `p`, from stage `st` on. */
  function Attempt(s: string, p: nat, st: Stage): (r: Option<Match>)
    requires StageInBounds(s, p, st)
    ensures r.Some? ==> r.value.start == p && Reached(p, st) < r.value.end <= |s|
    decreases StagesLeft(st)
  {
    match st
    case AtKeyword =>
      // the literal `type`, then the greedy ` +`
      if !HasAt(s, p, TypeKeyword) then None
      else Attempt(s, p, AtName(SkipSpaces(s, p + |TypeKeyword|)))
    case AtName(n0) =>
      // ` +` needs at least one space; then the greedy `[^ ]+`
      if n0 == p + |TypeKeyword| then None
      else Attempt(s, p, AtStruct(n0, SkipNonSpaces(s, n0)))
    case AtStruct(n0, n1) =>
      // `[^ ]+` needs one character; then the greedy ` +` and `struct {`
      var k := SkipSpaces(s, n1);
      if n1 == n0 || k == n1 || !HasAt(s, k, StructOpen) then None
      else Attempt(s, p, AtBody(s[n0..n1], k + |StructOpen|))
    case AtBody(name, q) =>
      // `.+?` takes at least one character, then stops at the first `}`
      match FindClose(s, q + 1)
      case None => None
      case Some(j) => Some(Match(p, name, s[q..j], j + 1))
  }

  /** One attempt of the pattern at index `p`, as the regex engine performs
      it when its search reaches `p`. */
  function MatchAt(s: string, p: nat): (r: Option<Match>)
    ensures r.Some? ==> r.value.start == p && p < r.value.end <= |s|
  {
    Attempt(s, p, AtKeyword)
  }

  /** A slice that spells `a + b` splits into a slice spelling `a` and one
      spelling `b`. */
  lemma SplitEq(s: string, lo: nat, hi: nat, a: string, b: string)
    requires lo <= hi <= |s|
    requires s[lo..hi] == a + b
    ensures lo + |a| <= hi
    ensures s[lo..lo + |a|] == a
    ensures s[lo + |a|..hi] == b
  {
    assert s[lo..lo + |a|] == s[lo..hi][..|a|];
    assert s[lo + |a|..hi] == s[lo..hi][|a|..];
  }

  /** Two adjacent slices spelling `a` and `b` form one spelling `a + b`. */
  lemma JoinEq(s: string, lo: nat, mid: nat, hi: nat, a: string, b: string)
    requires lo <= mid <= hi <= |s|
    requires s[lo..mid] == a
    requires s[mid..hi] == b
    ensures s[lo..hi] == a + b
  {
    assert s[lo..hi] == s[lo..mid] + s[mid..hi];
  }

  /** Every character of a slice spelling `n` spaces is a space. */
  lemma SpacesSlice(s: string, lo: nat, hi: nat)
    requires lo <= hi <= |s|
    requires s[lo..hi] == Spaces(hi - lo)
    ensures forall t :: lo <= t < hi ==> s[t] == ' '
  {
    forall t | lo <= t < hi
      ensures s[t] == ' '
    {
      assert s[t] == s[lo..hi][t - lo];
    }
  }

  /** A run of spaces spells `Spaces` of its length. */
  lemma SliceSpaces(s: string, lo: nat, hi: nat)
    requires lo <= hi <= |s|
    requires forall t :: lo <= t < hi ==> s[t] == ' '
    ensures s[lo..hi] == Spaces(hi - lo)
  {
  }

  /** `SkipSpaces` stops exactly at the end of a space run. */
  lemma SkipSpacesAt(s: string, i: nat, k: nat)
    requires i <= k < |s|
    requires forall t :: i <= t < k ==> s[t] == ' '
    requires s[k] != ' '
    ensures SkipSpaces(s, i) == k
  {
  }

  /** `SkipNonSpaces` stops exactly at the end of a non-space run. */
  lemma SkipNonSpacesAt(s: string, i: nat, k: nat)
    requires i <= k < |s|
    requires forall t :: i <= t < k ==> s[t] != ' '
    requires s[k] == ' '
    ensures SkipNonSpaces(s, i) == k
  {
  }

  /** `FindClose` finds the first `}`. */
  lemma FindCloseAt(s: string, i: nat, j: nat)
    requires i <= j < |s|
    requires forall t :: i <= t < j ==> s[t] != '}'
    requires s[j] == '}'
    ensures FindClose(s, i) == Some(j)
  {
  }

  /** A slice spelling a name, `b` spaces and a tail splits at the name's
      end and at the first character of the tail. */
  lemma NameTailSlices(s: string, n0: nat, e: nat, name: string, b: nat, tail: string, n1: nat, k: nat)
    requires n0 <= e <= |s|
    requires s[n0..e] == name + (Spaces(b) + tail)
    requires n1 == n0 + |name| && k == n1 + b
    ensures k <= e
    ensures s[n0..n1] == name
    ensures s[n1..k] == Spaces(b)
    ensures s[k..e] == tail
  {
    SplitEq(s, n0, e, name, Spaces(b) + tail);
    SplitEq(s, n1, e, Spaces(b), tail);
  }

  /** A slice spelling `type`, `a` spaces, a name, `b` spaces and a tail
      splits at the absolute positions of those pieces. */
  lemma HeadSlices(s: string, p: nat, e: nat, a: nat, name: string, b: nat, tail: string,
                   n0: nat, n1: nat, k: nat)
    requires p <= e <= |s|
    requires s[p..e] == TypeKeyword + (Spaces(a) + (name + (Spaces(b) + tail)))
    requires n0 == p + |TypeKeyword| + a && n1 == n0 + |name| && k == n1 + b
    ensures k <= e
    ensures s[p..p + |TypeKeyword|] == TypeKeyword
    ensures s[p + |TypeKeyword|..n0] == Spaces(a)
    ensures s[n0..n1] == name
    ensures s[n1..k] == Spaces(b)
    ensures s[k..e] == tail
  {
    SplitEq(s, p, e, TypeKeyword, Spaces(a) + (name + (Spaces(b) + tail)));
    SplitEq(s, p + |TypeKeyword|, e, Spaces(a), name + (Spaces(b) + tail));
    NameTailSlices(s, n0, e, name, b, tail, n1, k);
  }

  /** A slice spelling `struct {`, a body and `}` splits at the body's ends. */
  lemma StructTailSlices(s: string, k: nat, e: nat, body: string, q: nat, j: nat)
    requires k <= e <= |s|
    requires s[k..e] == StructOpen + (body + "}")
    requires q == k + |StructOpen| && j == q + |body|
    ensures e == j + 1
    ensures s[k..q] == StructOpen
    ensures s[q..j] == body
    ensures s[j] == '}'
  {
    SplitEq(s, k, e, StructOpen, body + "}");
    SplitEq(s, q, e, body, "}");
    assert s[j] == s[j..e][0];
  }

  /** The pieces of text spelling `DeclText` from `p` on, at their absolute
      positions. */
  lemma SlicesOfDeclText(s: string, p: nat, e: nat, a: nat, name: string, b: nat, body: string,
                         n0: nat, n1: nat, k: nat, q: nat, j: nat)
    requires p <= e <= |s|
    requires s[p..e] == DeclText(a, name, b, body)
    requires n0 == p + |TypeKeyword| + a && n1 == n0 + |name| && k == n1 + b
    requires q == k + |StructOpen| && j == q + |body|
    ensures e == j + 1
    ensures s[p..p + |TypeKeyword|] == TypeKeyword
    ensures s[p + |TypeKeyword|..n0] == Spaces(a)
    ensures s[n0..n1] == name
    ensures s[n1..k] == Spaces(b)
    ensures s[k..q] == StructOpen
    ensures s[q..j] == body
    ensures s[j] == '}'
  {
    HeadSlices(s, p, e, a, name, b, StructOpen + (body + "}"), n0, n1, k);
    StructTailSlices(s, k, e, body, q, j);
  }

  /** The part of a declaration after the name, reassembled from its slices. */
  lemma DeclTailOfSlices(s: string, n1: nat, k: nat, j: nat, b: nat, body: string)
    requires n1 <= k && k + |StructOpen| <= j < |s|
    requires b == k - n1 && body == s[k + |StructOpen|..j]
    requires s[k..k + |StructOpen|] == StructOpen
    requires s[j] == '}'
    requires s[n1..k] == Spaces(b)
    ensures s[n1..j + 1] == Spaces(b) + (StructOpen + (body + "}"))
  {
    var q := k + |StructOpen|;
    var r5 := body + "}";
    assert s[q..j + 1] == r5 by {
      assert s[j..j + 1] == "}";
      JoinEq(s, q, j, j + 1, body, "}");
    }
    assert s[k..j + 1] == StructOpen + r5 by {
      JoinEq(s, k, q, j + 1, StructOpen, r5);
    }
    JoinEq(s, n1, k, j + 1, Spaces(b), StructOpen + r5);
  }

  /** Text cut at the positions the scanner finds reassembles into `DeclText`. */
  lemma DeclTextOfSlices(s: string, p: nat, n0: nat, n1: nat, k: nat, j: nat,
                         a: nat, name: string, b: nat, body: string)
    requires p + |TypeKeyword| <= n0 <= n1 <= k
    requires k + |StructOpen| <= j < |s|
    requires a == n0 - p - |TypeKeyword| && b == k - n1
    requires name == s[n0..n1] && body == s[k + |StructOpen|..j]
    requires HasAt(s, p, TypeKeyword)
    requires HasAt(s, k, StructOpen)
    requires s[j] == '}'
    requires forall t :: p + |TypeKeyword| <= t < n0 ==> s[t] == ' '
    requires forall t :: n1 <= t < k ==> s[t] == ' '
    ensures s[p..j + 1] == DeclText(a, name, b, body)
  {
    var r3 := Spaces(b) + (StructOpen + (body + "}"));
    var r2 := name + r3;
    var r1 := Spaces(a) + r2;
    assert s[n1..j + 1] == r3 by {
      SliceSpaces(s, n1, k);
      DeclTailOfSlices(s, n1, k, j, b, body);
    }
    assert s[n0..j + 1] == r2 by {
      JoinEq(s, n0, n1, j + 1, name, r3);
    }
    assert s[p + |TypeKeyword|..j + 1] == r1 by {
      SliceSpaces(s, p + |TypeKeyword|, n0);
      JoinEq(s, p + |TypeKeyword|, n0, j + 1, Spaces(a), r2);
    }
    JoinEq(s, p, p + |TypeKeyword|, j + 1, TypeKeyword, r1);
  }

  /** Text laid out as the scanner reads it, `type` at `p`, spaces up to
      `n0`, the name up to `n1`, spaces up to `k`, `struct {`, the body up to
      the first `}` at `j`, is a match of the pattern. */
  lemma IsMatchAtOfLayout(s: string, p: nat, n0: nat, n1: nat, k: nat, j: nat)
    requires p + |TypeKeyword| < n0 < n1 < k
    requires k + |StructOpen| < j < |s|
    requires HasAt(s, p, TypeKeyword)
    requires HasAt(s, k, StructOpen)
    requires s[j] == '}'
    requires forall t :: p + |TypeKeyword| <= t < n0 ==> s[t] == ' '
    requires forall t :: n0 <= t < n1 ==> s[t] != ' '
    requires forall t :: n1 <= t < k ==> s[t] == ' '
    requires forall t :: k + |StructOpen| + 1 <= t < j ==> s[t] != '}'
    ensures IsMatchAt(s, p, Match(p, s[n0..n1], s[k + |StructOpen|..j], j + 1))
  {
    var q := k + |StructOpen|;
    var name := s[n0..n1];
    var body := s[q..j];
    assert ValidName(name) by {
      assert forall t :: 0 <= t < |name| ==> name[t] == s[n0 + t];
    }
    assert ValidBody(body) by {
      assert forall t :: 1 <= t < |body| ==> body[t] == s[q + t];
    }
    var a: nat := n0 - p - |TypeKeyword|;
    var b: nat := k - n1;
    DeclTextOfSlices(s, p, n0, n1, k, j, a, name, b, body);
  }

  /** Soundness: every match the scanner reports is a match of the pattern. */
  lemma MatchAtSound(s: string, p: nat)
    requires MatchAt(s, p).Some?
    ensures IsMatchAt(s, p, MatchAt(s, p).value)
  {
    var r := MatchAt(s, p);
    assert HasAt(s, p, TypeKeyword);
    var n0 := SkipSpaces(s, p + |TypeKeyword|);
    assert r == Attempt(s, p, AtName(n0));
    var n1 := SkipNonSpaces(s, n0);
    assert n0 != p + |TypeKeyword| && r == Attempt(s, p, AtStruct(n0, n1));
    var k := SkipSpaces(s, n1);
    var q := k + |StructOpen|;
    assert n1 != n0 && k != n1 && HasAt(s, k, StructOpen);
    assert r == Attempt(s, p, AtBody(s[n0..n1], q));
    var j := FindClose(s, q + 1).value;
    assert r.value == Match(p, s[n0..n1], s[q..j], j + 1);
    IsMatchAtOfLayout(s, p, n0, n1, k, j);
  }

  /** The final stage on a body that runs from `q` to the first `}` at `j`. */
  lemma MatchBodyAt(s: string, p: nat, name: string, q: nat, j: nat)
    requires q < j < |s|
    requires ValidBody(s[q..j])
    requires s[j] == '}'
    ensures Attempt(s, p, AtBody(name, q)) == Some(Match(p, name, s[q..j], j + 1))
  {
    forall t | q + 1 <= t < j
      ensures s[t] != '}'
    {
      assert s[t] == s[q..j][t - q];
    }
    FindCloseAt(s, q + 1, j);
  }

  /** The stage after the name, on text with spaces up to `k` and `struct {` there. */
  lemma MatchStructAt(s: string, p: nat, n0: nat, n1: nat, k: nat)
    requires n0 < n1 < k
    requires k + |StructOpen| <= |s|
    requires forall t :: n1 <= t < k ==> s[t] == ' '
    requires s[k..k + |StructOpen|] == StructOpen
    ensures Attempt(s, p, AtStruct(n0, n1)) == Attempt(s, p, AtBody(s[n0..n1], k + |StructOpen|))
  {
    assert s[k] == s[k..k + |StructOpen|][0];
    SkipSpacesAt(s, n1, k);
  }

  /** The name stage, on a name running from `n0` to the space at `n1`. */
  lemma MatchNameAt(s: string, p: nat, n0: nat, n1: nat)
    requires p + |TypeKeyword| < n0 < n1 < |s|
    requires ValidName(s[n0..n1])
    requires s[n1] == ' '
    ensures Attempt(s, p, AtName(n0)) == Attempt(s, p, AtStruct(n0, n1))
  {
    forall t | n0 <= t < n1
      ensures s[t] != ' '
    {
      assert s[t] == s[n0..n1][t - n0];
    }
    SkipNonSpacesAt(s, n0, n1);
  }

  /** The first stage, on `type` at `p` followed by spaces up to `n0`. */
  lemma MatchKeywordAt(s: string, p: nat, n0: nat)
    requires p + |TypeKeyword| <= n0 < |s|
    requires s[p..p + |TypeKeyword|] == TypeKeyword
    requires forall t :: p + |TypeKeyword| <= t < n0 ==> s[t] == ' '
    requires s[n0] != ' '
    ensures MatchAt(s, p) == Attempt(s, p, AtName(n0))
  {
    SkipSpacesAt(s, p + |TypeKeyword|, n0);
  }

  /** On text laid out as in `IsMatchAtOfLayout`, the scanner reads the name
      `s[n0..n1]` and the body up to the first `}` at `j`. */
  lemma MatchAtOfLayout(s: string, p: nat, n0: nat, n1: nat, k: nat, j: nat, name: string, body: string)
    requires p + |TypeKeyword| < n0 < n1 < k
    requires k + |StructOpen| < j < |s|
    requires s[p..p + |TypeKeyword|] == TypeKeyword
    requires s[k..k + |StructOpen|] == StructOpen
    requires s[j] == '}'
    requires forall t :: p + |TypeKeyword| <= t < n0 ==> s[t] == ' '
    requires s[n0..n1] == name && ValidName(name)
    requires forall t :: n1 <= t < k ==> s[t] == ' '
    requires s[k + |StructOpen|..j] == body && ValidBody(body)
    ensures MatchAt(s, p) == Some(Match(p, name, body, j + 1))
  {
    assert s[n0] != ' ' by {
      assert s[n0] == name[0];
    }
    MatchKeywordAt(s, p, n0);
    MatchFromNameAt(s, p, n0, n1, k, j, name, body);
  }

  /** The stages from the name on, on text laid out as in `MatchAtOfLayout`. */
  lemma MatchFromNameAt(s: string, p: nat, n0: nat, n1: nat, k: nat, j: nat, name: string, body: string)
    requires p + |TypeKeyword| < n0 < n1 < k
    requires k + |StructOpen| < j < |s|
    requires s[k..k + |StructOpen|] == StructOpen
    requires s[j] == '}'
    requires s[n0..n1] == name && ValidName(name)
    requires forall t :: n1 <= t < k ==> s[t] == ' '
    requires s[k + |StructOpen|..j] == body && ValidBody(body)
    ensures Attempt(s, p, AtName(n0)) == Some(Match(p, name, body, j + 1))
  {
    MatchNameAt(s, p, n0, n1);
    MatchStructAt(s, p, n0, n1, k);
    MatchBodyAt(s, p, name, k + |StructOpen|, j);
  }

  /** The scanner's result on a declaration laid out with `a` and `b` spaces:
      the name and body it was written with. */
  lemma MatchAtOfDeclText(s: string, p: nat, a: nat, name: string, b: nat, body: string)
    requires 1 <= a && 1 <= b
    requires ValidName(name) && ValidBody(body)
    requires p + |DeclText(a, name, b, body)| <= |s|
    requires s[p..p + |DeclText(a, name, b, body)|] == DeclText(a, name, b, body)
    ensures MatchAt(s, p) == Some(Match(p, name, body, p + |DeclText(a, name, b, body)|))
  {
    var e := p + |DeclText(a, name, b, body)|;
    var n0 := p + |TypeKeyword| + a;
    var n1 := n0 + |name|;
    var k := n1 + b;
    var q := k + |StructOpen|;
    var j := q + |body|;
    assert && e == j + 1 && j < |s|
           && s[p..p + |TypeKeyword|] == TypeKeyword
           && s[k..k + |StructOpen|] == StructOpen
           && s[j] == '}'
           && (forall t :: p + |TypeKeyword| <= t < n0 ==> s[t] == ' ')
           && s[n0..n1] == name
           && (forall t :: n1 <= t < k ==> s[t] == ' ')
           && s[q..j] == body
    by {
      SlicesOfDeclText(s, p, e, a, name, b, body, n0, n1, k, q, j);
      SpacesSlice(s, p + |TypeKeyword|, n0);
      SpacesSlice(s, n1, k);
    }
    MatchAtOfLayout(s, p, n0, n1, k, j, name, body);
  }

  /** Completeness: every match of the pattern at `p` is the one the scanner
      reports, so the pattern admits at most one match per position. */
  lemma MatchAtComplete(s: string, p: nat, m: Match)
    requires IsMatchAt(s, p, m)
    ensures MatchAt(s, p) == Some(m)
  {
    var a: nat, b: nat :| 1 <= a && 1 <= b && s[p..m.end] == DeclText(a, m.name, b, m.body);
    assert m.end == p + |DeclText(a, m.name, b, m.body)|;
    MatchAtOfDeclText(s, p, a, m.name, b, m.body);
  }

  /** The scanner succeeds at `p` exactly when some match starts there. */
  lemma MatchAtDecides(s: string, p: nat)
    ensures MatchAt(s, p).Some? <==> MatchesAt(s, p)
  {
    if MatchAt(s, p).Some? {
      MatchAtSound(s, p);
    }
    if MatchesAt(s, p) {
      var m :| IsMatchAt(s, p, m);
      MatchAtComplete(s, p, m);
    }
  }

  /** The same match found `d` characters further into a longer text. */
  function ShiftMatch(m: Match, d: nat): Match
  {
    m.(start := m.start + d, end := m.end + d)
  }

  /** `ShiftMatch` lifted to an optional match. */
  function ShiftOption(r: Option<Match>, d: nat): Option<Match>
  {
    match r
    case None => None
    case Some(m) => Some(ShiftMatch(m, d))
  }

  /** A match in `s` is a match, shifted by `|pre|`, in `pre + s`. */
  lemma IsMatchAtPrefix(pre: string, s: string, p: nat, m: Match)
    requires p <= |s|
    ensures IsMatchAt(s, p, m) <==> IsMatchAt(pre + s, |pre| + p, ShiftMatch(m, |pre|))
  {
    var t := pre + s;
    var m' := ShiftMatch(m, |pre|);
    if IsMatchAt(s, p, m) {
      var a: nat, b: nat :| 1 <= a && 1 <= b && s[p..m.end] == DeclText(a, m.name, b, m.body);
      assert t[|pre| + p..m'.end] == s[p..m.end];
      assert 1 <= a && 1 <= b && t[|pre| + p..m'.end] == DeclText(a, m'.name, b, m'.body);
    }
    if IsMatchAt(t, |pre| + p, m') {
      var a: nat, b: nat :| 1 <= a && 1 <= b && t[|pre| + p..m'.end] == DeclText(a, m'.name, b, m'.body);
      assert t[|pre| + p..m'.end] == s[p..m.end];
      assert 1 <= a && 1 <= b && s[p..m.end] == DeclText(a, m.name, b, m.body);
    }
  }

  /** Whatever text precedes an attempt, the outcome is the same: no word
      boundary is required before `type`, so the `type` at the end of
      `subtype` starts a match. */
  lemma MatchAtIgnoresPrefix(pre: string, s: string, p: nat)
    requires p <= |s|
    ensures MatchAt(pre + s, |pre| + p) == ShiftOption(MatchAt(s, p), |pre|)
  {
    var t := pre + s;
    if MatchAt(s, p).Some? {
      var m := MatchAt(s, p).value;
      assert IsMatchAt(t, |pre| + p, ShiftMatch(m, |pre|)) by {
        MatchAtSound(s, p);
        IsMatchAtPrefix(pre, s, p, m);
      }
      MatchAtComplete(t, |pre| + p, ShiftMatch(m, |pre|));
    } else if MatchAt(t, |pre| + p).Some? {
      var m' := MatchAt(t, |pre| + p).value;
      var m := Match(p, m'.name, m'.body, m'.end - |pre|);
      assert IsMatchAt(s, p, m) by {
        assert m' == ShiftMatch(m, |pre|);
        MatchAtSound(t, |pre| + p);
        IsMatchAtPrefix(pre, s, p, m);
      }
      MatchAtComplete(s, p, m);
    }
  }

  /** On text with `type`, spaces, a name and spaces up to `k`, where
      `struct {` does not follow, the attempt at `p` fails. */
  lemma MatchAtRejectsAt(s: string, p: nat, n0: nat, n1: nat, k: nat)
    requires p + |TypeKeyword| < n0 < n1 < k < |s|
    requires s[p..p + |TypeKeyword|] == TypeKeyword
    requires forall t :: p + |TypeKeyword| <= t < n0 ==> s[t] == ' '
    requires ValidName(s[n0..n1])
    requires forall t :: n1 <= t < k ==> s[t] == ' '
    requires s[k] != ' '
    requires !HasAt(s, k, StructOpen)
    ensures MatchAt(s, p) == None
  {
    assert s[n0] != ' ' by {
      assert s[n0] == s[n0..n1][0];
    }
    MatchKeywordAt(s, p, n0);
    MatchNameAt(s, p, n0, n1);
    SkipSpacesAt(s, n1, k);
  }

  /** A text that differs from `lit` at some offset `t` past `i` does not
      hold `lit` at `i`. */
  lemma NotHasAt(s: string, i: nat, lit: string, t: nat)
    requires t < |lit| && i + t < |s|
    requires s[i + t] != lit[t]
    ensures !HasAt(s, i, lit)
  {
    if i + |lit| <= |s| {
      assert s[i..i + |lit|][t] == s[i + t];
    }
  }

  /** The text `type`, `a` spaces, `name`, `b` spaces, `struct{` and `rest`. */
  function NoSpaceText(a: nat, name: string, b: nat, rest: string): string
  {
    TypeKeyword + (Spaces(a) + (name + (Spaces(b) + ("struct{" + rest))))
  }

  /** The length of `NoSpaceText`. */
  lemma NoSpaceTextLength(a: nat, name: string, b: nat, rest: string)
    ensures |NoSpaceText(a, name, b, rest)| == |TypeKeyword| + a + |name| + b + 7 + |rest|
  {
  }

  /** Where the pieces of `NoSpaceText` lie, and that `struct {` is absent
      where `struct{` is. */
  lemma NoSpaceTextLayout(a: nat, name: string, b: nat, rest: string, s: string, n0: nat, n1: nat, k: nat)
    requires 1 <= a && 1 <= b
    requires ValidName(name)
    requires s == NoSpaceText(a, name, b, rest)
    requires n0 == |TypeKeyword| + a && n1 == n0 + |name| && k == n1 + b
    ensures |s| == k + 7 + |rest|
    ensures s[0..|TypeKeyword|] == TypeKeyword
    ensures forall t :: |TypeKeyword| <= t < n0 ==> s[t] == ' '
    ensures s[n0..n1] == name
    ensures forall t :: n1 <= t < k ==> s[t] == ' '
    ensures s[k] != ' '
    ensures !HasAt(s, k, StructOpen)
  {
    var r4 := "struct{" + rest;
    NoSpaceTextLength(a, name, b, rest);
    assert s[0..|s|] == s;
    HeadSlices(s, 0, |s|, a, name, b, r4, n0, n1, k);
    assert forall t :: |TypeKeyword| <= t < n0 ==> s[t] == ' ' by {
      SpacesSlice(s, |TypeKeyword|, n0);
    }
    assert forall t :: n1 <= t < k ==> s[t] == ' ' by {
      SpacesSlice(s, n1, k);
    }
    assert s[k] != ' ' && !HasAt(s, k, StructOpen) by {
      assert s[k] == r4[0] == 's';
      assert s[k + 6] == r4[6] == '{';
      NotHasAt(s, k, StructOpen, 6);
    }
  }

  /** `struct{` with no space before the brace is never recognised: text
      with a valid `type NAME ` prefix followed by `struct{` fails at 0. */
  lemma StructWithoutSpaceRejected(a: nat, name: string, b: nat, rest: string)
    requires 1 <= a && 1 <= b
    requires ValidName(name)
    ensures MatchAt(NoSpaceText(a, name, b, rest), 0) == None
  {
    var s := NoSpaceText(a, name, b, rest);
    var n0 := |TypeKeyword| + a;
    NoSpaceTextLayout(a, name, b, rest, s, n0, n0 + |name|, n0 + |name| + b);
    MatchAtRejectsAt(s, 0, n0, n0 + |name|, n0 + |name| + b);
  }

  /** The body is not brace-balanced and needs one character before its
      closing `}` is looked for, so an empty `type NAME struct {}` reads the
      `}` as its first body character and runs on to the next `}`: followed by
      `mid` (free of `}`) and a `}`, it is reported with body `}` + `mid`,
      swallowing whatever declarations `mid` holds. */
  lemma EmptyStructRunsToNextClose(a: nat, name: string, b: nat, mid: string, tail: string)
    requires 1 <= a && 1 <= b
    requires ValidName(name)
    requires forall i :: 0 <= i < |mid| ==> mid[i] != '}'
    ensures MatchAt(DeclText(a, name, b, "}" + mid) + tail, 0)
         == Some(Match(0, name, "}" + mid, |DeclText(a, name, b, "}" + mid)|))
  {
    var body := "}" + mid;
    assert ValidBody(body) by {
      assert forall i :: 1 <= i < |body| ==> body[i] == mid[i - 1];
    }
    var d := DeclText(a, name, b, body);
    var s := d + tail;
    assert s[0..|d|] == d;
    MatchAtOfDeclText(s, 0, a, name, b, body);
  }

  /** No match starts at an index that does not hold a `t`, in particular
      at the end of the text. */
  lemma NoMatchWithoutType(s: string, p: nat)
    requires p < |s| ==> s[p] != 't'
    ensures !MatchesAt(s, p)
  {
    if p < |s| {
      NotHasAt(s, p, TypeKeyword, 0);
    }
    NoMatchWithoutKeyword(s, p);
  }

  /** No match starts at a position that does not spell `type`. */
  lemma NoMatchWithoutKeyword(s: string, p: nat)
    requires !HasAt(s, p, TypeKeyword)
    ensures !MatchesAt(s, p)
  {
    assert MatchAt(s, p) == None;
    MatchAtDecides(s, p);
  }

  /** A candidate with no `}` after its first body character is not a match. */
  lemma NoCloseNoMatch(s: string, p: nat)
    requires forall t :: p <= t < |s| ==> s[t] != '}'
    ensures MatchAt(s, p) == None
  {
    if MatchAt(s, p).Some? {
      MatchAtSound(s, p);
      var m := MatchAt(s, p).value;
      var a: nat, b: nat :| 1 <= a && 1 <= b && s[p..m.end] == DeclText(a, m.name, b, m.body);
      var n0 := p + |TypeKeyword| + a;
      var k := n0 + |m.name| + b;
      SlicesOfDeclText(s, p, m.end, a, m.name, b, m.body, n0, n0 + |m.name|, k, k + |StructOpen|, k + |StructOpen| + |m.body|);
    }
  }
}
