/**
 This module models the global search that `String.prototype.matchAll`
 performs with the struct-declaration pattern (extension.js:40, 54).

 `Exec` is one call of the pattern's `exec` with the global flag: starting at
 `lastIndex`, it tries the pattern at each index in turn and returns the first
 success, or nothing once the index passes the end of the text. `ScanAll` is
 the iterator `matchAll` returns: it calls `Exec` from 0, and after each match
 sets `lastIndex` to the end of that match. The pattern never matches the
 empty string, so the iterator's extra advance after an empty match never
 happens.

 `IsLeftmostScan` is the reference description of the result (each reported
 match is the leftmost one at or after the point where the previous one
 ended, and nothing is left after the last); the two are proved to coincide.
 */
module StructScan {
  import opened Wrappers
  import opened StructPattern

  /** The first match at an index at or after `lastIndex`, if any. */
  function Exec(s: string, lastIndex: nat): (r: Option<Match>)
    ensures r.Some? ==> lastIndex <= r.value.start < r.value.end <= |s|
    decreases |s| + 1 - lastIndex
  {
    if lastIndex > |s| then None
    else
      match MatchAt(s, lastIndex)
      case Some(m) => Some(m)
      case None => Exec(s, lastIndex + 1)
  }

  /** The matches the iterator yields when the search starts at `lastIndex`. */
  function ScanAll(s: string, lastIndex: nat): (r: seq<Match>)
    ensures forall i :: 0 <= i < |r| ==> lastIndex <= r[i].start < r[i].end <= |s|
    decreases |s| + 1 - lastIndex
  {
    match Exec(s, lastIndex)
    case None => []
    case Some(m) => [m] + ScanAll(s, m.end)
  }

  /** A non-empty sequence is its head followed by its tail. */
  lemma HeadTail<T>(r: seq<T>)
    requires |r| > 0
    ensures r == [r[0]] + r[1..]
  {
  }

  /** One step of the iterator: the first match, then the rest. */
  lemma ScanAllStep(s: string, lastIndex: nat)
    requires Exec(s, lastIndex).Some?
    ensures ScanAll(s, lastIndex) == [Exec(s, lastIndex).value] + ScanAll(s, Exec(s, lastIndex).value.end)
  {
  }

  /** No match of the pattern starts at any index in `[lo, hi)`. */
  ghost predicate NoMatchIn(s: string, lo: nat, hi: nat)
  {
    forall p :: lo <= p < hi ==> !MatchesAt(s, p)
  }

  /** Reference description of the search from `from`: when nothing matches
      at or after `from` it reports nothing; otherwise it reports first the
      match at the least index at or after `from` where the pattern matches,
      and then what a search resuming just past that match reports. */
  ghost predicate IsLeftmostScan(s: string, from: nat, r: seq<Match>)
    decreases |r|
  {
    if |r| == 0 then NoMatchIn(s, from, |s| + 1)
    else
      && from <= r[0].start
      && NoMatchIn(s, from, r[0].start)
      && IsMatchAt(s, r[0].start, r[0])
      && IsLeftmostScan(s, r[0].end, r[1..])
  }

  /** A range with no match grows by one index at its low end when nothing
      matches there either. */
  lemma NoMatchInExtend(s: string, lo: nat, hi: nat)
    requires !MatchesAt(s, lo)
    requires NoMatchIn(s, lo + 1, hi)
    ensures NoMatchIn(s, lo, hi)
  {
  }

  /** A match that is leftmost from `from`, followed by a leftmost search
      from its end, is a leftmost search from `from`. */
  lemma LeftmostCons(s: string, from: nat, m: Match, rest: seq<Match>)
    requires from <= m.start
    requires NoMatchIn(s, from, m.start)
    requires IsMatchAt(s, m.start, m)
    requires IsLeftmostScan(s, m.end, rest)
    ensures IsLeftmostScan(s, from, [m] + rest)
  {
    assert ([m] + rest)[1..] == rest;
  }

  /** `Exec` returns the leftmost match at or after `lastIndex`, and nothing
      exactly when no match starts there or later. */
  lemma {:induction false} ExecIsLeftmost(s: string, lastIndex: nat)
    ensures Exec(s, lastIndex).None? ==> NoMatchIn(s, lastIndex, |s| + 1)
    ensures Exec(s, lastIndex).Some? ==>
      var m := Exec(s, lastIndex).value;
      NoMatchIn(s, lastIndex, m.start) && IsMatchAt(s, m.start, m)
    decreases |s| + 1 - lastIndex
  {
    if lastIndex <= |s| {
      if MatchAt(s, lastIndex).Some? {
        assert Exec(s, lastIndex) == MatchAt(s, lastIndex);
        MatchAtSound(s, lastIndex);
      } else {
        assert Exec(s, lastIndex) == Exec(s, lastIndex + 1);
        assert !MatchesAt(s, lastIndex) by {
          MatchAtDecides(s, lastIndex);
        }
        ExecIsLeftmost(s, lastIndex + 1);
        if Exec(s, lastIndex).Some? {
          NoMatchInExtend(s, lastIndex, Exec(s, lastIndex).value.start);
        } else {
          NoMatchInExtend(s, lastIndex, |s| + 1);
        }
      }
    }
  }

  /** Conversely, the leftmost match at or after `lastIndex` is what `Exec`
      returns. */
  lemma ExecFindsLeftmost(s: string, lastIndex: nat, m: Match)
    requires lastIndex <= m.start
    requires NoMatchIn(s, lastIndex, m.start)
    requires IsMatchAt(s, m.start, m)
    ensures Exec(s, lastIndex) == Some(m)
  {
    ExecIsLeftmost(s, lastIndex);
    assert MatchesAt(s, m.start);
    var m' := Exec(s, lastIndex).value;
    assert m'.start == m.start by {
      assert MatchesAt(s, m'.start);
    }
    MatchAtComplete(s, m.start, m);
    MatchAtComplete(s, m.start, m');
  }

  /** When no match starts at or after `lastIndex`, `Exec` returns nothing. */
  lemma ExecFindsNone(s: string, lastIndex: nat)
    requires NoMatchIn(s, lastIndex, |s| + 1)
    ensures Exec(s, lastIndex) == None
  {
    ExecIsLeftmost(s, lastIndex);
    if Exec(s, lastIndex).Some? {
      var m := Exec(s, lastIndex).value;
      assert MatchesAt(s, m.start);
    }
  }

  /** The search satisfies its reference description. */
  lemma {:induction false} ScanAllIsLeftmost(s: string, lastIndex: nat)
    ensures IsLeftmostScan(s, lastIndex, ScanAll(s, lastIndex))
    decreases |s| + 1 - lastIndex
  {
    ExecIsLeftmost(s, lastIndex);
    match Exec(s, lastIndex)
    case None =>
    case Some(m) =>
      ScanAllIsLeftmost(s, m.end);
      var r := ScanAll(s, lastIndex);
      assert r == [m] + ScanAll(s, m.end);
      assert r[1..] == ScanAll(s, m.end);
  }

  /** A leftmost search that reports something starts as the iterator does. */
  lemma LeftmostScanFirst(s: string, from: nat, r: seq<Match>)
    requires IsLeftmostScan(s, from, r)
    requires |r| > 0
    ensures ScanAll(s, from) == [r[0]] + ScanAll(s, r[0].end)
  {
    ExecFindsLeftmost(s, from, r[0]);
    ScanAllStep(s, from);
  }

  /** A leftmost search that reports nothing agrees with the iterator. */
  lemma LeftmostScanNone(s: string, from: nat)
    requires IsLeftmostScan(s, from, [])
    ensures ScanAll(s, from) == []
  {
    ExecFindsNone(s, from);
  }

  /** The reference description determines the search's result: any sequence
      of matches meeting it is exactly what the search reports, so the search
      reports each leftmost non-overlapping match once and nothing else. */
  lemma {:induction false} LeftmostScanUnique(s: string, from: nat, r: seq<Match>)
    requires IsLeftmostScan(s, from, r)
    ensures r == ScanAll(s, from)
    decreases |r|
  {
    if |r| == 0 {
      LeftmostScanNone(s, from);
    } else {
      LeftmostScanFirst(s, from, r);
      LeftmostScanUnique(s, r[0].end, r[1..]);
      HeadTail(r);
    }
  }

  /** The search reports nothing exactly when no match starts anywhere from
      `lastIndex` on. */
  lemma ScanAllEmptyIff(s: string, lastIndex: nat)
    ensures ScanAll(s, lastIndex) == [] <==> NoMatchIn(s, lastIndex, |s| + 1)
  {
    ScanAllIsLeftmost(s, lastIndex);
    if NoMatchIn(s, lastIndex, |s| + 1) {
      LeftmostScanUnique(s, lastIndex, []);
    }
  }

  /** Every reported match is a match of the pattern at its own start, so
      it carries a valid name and body. */
  lemma {:induction false} ScanAllMatchesValid(s: string, lastIndex: nat)
    ensures forall i :: 0 <= i < |ScanAll(s, lastIndex)| ==>
      IsMatchAt(s, ScanAll(s, lastIndex)[i].start, ScanAll(s, lastIndex)[i])
    decreases |s| + 1 - lastIndex
  {
    ExecIsLeftmost(s, lastIndex);
    match Exec(s, lastIndex)
    case None =>
    case Some(m) =>
      ScanAllMatchesValid(s, m.end);
      var rest := ScanAll(s, m.end);
      assert ScanAll(s, lastIndex) == [m] + rest;
      forall i | 0 <= i < |[m] + rest|
        ensures IsMatchAt(s, ([m] + rest)[i].start, ([m] + rest)[i])
      {
        if i > 0 {
          assert ([m] + rest)[i] == rest[i - 1];
        }
      }
  }

  /** Reported matches come in text order and never overlap: each one
      starts at or after the end of every earlier one. */
  lemma {:induction false} ScanAllOrdered(s: string, lastIndex: nat)
    ensures var r := ScanAll(s, lastIndex);
      forall i, j :: 0 <= i < j < |r| ==> r[i].end <= r[j].start
    decreases |s| + 1 - lastIndex
  {
    if Exec(s, lastIndex).Some? {
      var m := Exec(s, lastIndex).value;
      var rest := ScanAll(s, m.end);
      ScanAllStep(s, lastIndex);
      ScanAllOrdered(s, m.end);
      OrderedCons(m, rest);
    }
  }

  /** A match followed by ordered matches that start after it is ordered. */
  lemma OrderedCons(m: Match, rest: seq<Match>)
    requires forall i :: 0 <= i < |rest| ==> m.end <= rest[i].start
    requires forall i, j :: 0 <= i < j < |rest| ==> rest[i].end <= rest[j].start
    ensures forall i, j :: 0 <= i < j < |[m] + rest| ==> ([m] + rest)[i].end <= ([m] + rest)[j].start
  {
    var r := [m] + rest;
    forall i, j | 0 <= i < j < |r|
      ensures r[i].end <= r[j].start
    {
      assert r[j] == rest[j - 1];
      if i > 0 {
        assert r[i] == rest[i - 1];
      }
    }
  }

  /** A text with no `}` from `lastIndex` on yields no match from there: a
      candidate whose body is never closed is skipped, and the search goes
      on at the next index until the text ends. */
  lemma NoCloseNoScan(s: string, lastIndex: nat)
    requires forall t :: lastIndex <= t < |s| ==> s[t] != '}'
    ensures ScanAll(s, lastIndex) == []
  {
    forall p | lastIndex <= p < |s| + 1
      ensures !MatchesAt(s, p)
    {
      NoCloseNoMatch(s, p);
      MatchAtDecides(s, p);
    }
    ScanAllEmptyIff(s, lastIndex);
  }
}
