/**
 This module models `funcStructs` (extension.js:53-66): it runs the
 struct-declaration pattern over the whole file text with `matchAll`, pushes
 capture group 1 of every match onto `struct_names` and capture group 2 onto
 `struct_contents`, and returns `struct_names` only.

 The only caller (extension.js:40-43) passes a regex literal that is
 evaluated afresh on every command run, so the search always starts at index
 0; the regex parameter is therefore fixed to that pattern here.
 */
module FuncStructs {
  import opened StructPattern
  import opened StructScan

  /** Capture group 1 of each match, in order. */
  function Names(ms: seq<Match>): (r: seq<string>)
    ensures |r| == |ms|
  {
    seq(|ms|, i requires 0 <= i < |ms| => ms[i].name)
  }

  /** Capture group 2 of each match, in order. */
  function Bodies(ms: seq<Match>): (r: seq<string>)
    ensures |r| == |ms|
  {
    seq(|ms|, i requires 0 <= i < |ms| => ms[i].body)
  }

  /** Pushing one more match extends both capture lists by its captures. */
  lemma CapturesSnoc(ms: seq<Match>, m: Match)
    ensures Names(ms + [m]) == Names(ms) + [m.name]
    ensures Bodies(ms + [m]) == Bodies(ms) + [m.body]
  {
  }

  /** Moving the head of the remaining matches onto the matches found. */
  lemma FoundStep(found: seq<Match>, m: Match, rest: seq<Match>)
    ensures found + ([m] + rest) == (found + [m]) + rest
  {
  }

  /** The `for … of` loop over the `matchAll` iterator (extension.js:54-62):
      each step asks for the next match from where the previous one ended
      and pushes its two captures onto the two lists. */
  method CollectStructs(fileText: string) returns (structNames: seq<string>, structContents: seq<string>)
    ensures |structNames| == |structContents| == |ScanAll(fileText, 0)|
    ensures structNames == Names(ScanAll(fileText, 0))
    ensures structContents == Bodies(ScanAll(fileText, 0))
  {
    var lastIndex: nat := 0;
    structNames := [];
    structContents := [];
    ghost var found: seq<Match> := [];
    while true
      invariant lastIndex <= |fileText| + 1
      invariant found + ScanAll(fileText, lastIndex) == ScanAll(fileText, 0)
      invariant structNames == Names(found)
      invariant structContents == Bodies(found)
      decreases |fileText| + 1 - lastIndex
    {
      var next := Exec(fileText, lastIndex);
      if next.None? {
        break;
      }
      var m := next.value;
      ScanAllStep(fileText, lastIndex);
      FoundStep(found, m, ScanAll(fileText, m.end));
      CapturesSnoc(found, m);
      structNames := structNames + [m.name];
      structContents := structContents + [m.body];
      found := found + [m];
      lastIndex := m.end;
    }
    assert found + [] == found;
  }

  /** `funcStructs`: the names of all matches, in text order; the bodies are
      collected alongside and then dropped (extension.js:53-66). */
  method FuncStructs(fileText: string) returns (structNames: seq<string>)
    ensures structNames == Names(ScanAll(fileText, 0))
    ensures forall i :: 0 <= i < |structNames| ==> ValidName(structNames[i])
  {
    var structContents;
    structNames, structContents := CollectStructs(fileText);
    ScanAllMatchesValid(fileText, 0);
  }

  /** One declaration of a Go source text as the pattern sees it: filler text
      before it, the space counts after `type` and after the name, the name
      and the body. */
  datatype Decl = Decl(lead: string, gap1: nat, name: string, gap2: nat, body: string)

  /** The text spells `type` nowhere. */
  predicate NoKeywordIn(text: string)
  {
    forall i :: 0 <= i <= |text| ==> !HasAt(text, i, TypeKeyword)
  }

  /** A declaration the pattern reads back unchanged: its filler spells
      `type` nowhere (so no match can start there), both gaps hold at least
      one space, and the name and body are captures the pattern can
      produce. */
  predicate WellFormed(d: Decl)
  {
    && NoKeywordIn(d.lead)
    && 1 <= d.gap1 && 1 <= d.gap2
    && ValidName(d.name) && ValidBody(d.body)
  }

  /** The text of one declaration without its filler. */
  function DeclOf(d: Decl): string
  {
    DeclText(d.gap1, d.name, d.gap2, d.body)
  }

  /** The source text holding the declarations in order, each after its filler. */
  function Render(ds: seq<Decl>): string
  {
    if |ds| == 0 then [] else ds[0].lead + (DeclOf(ds[0]) + Render(ds[1..]))
  }

  /** The matches the declarations occupy when their rendering starts at
      index `off`: one per declaration, in order, each with the name and
      body it was written with. */
  function Placed(off: nat, ds: seq<Decl>): (r: seq<Match>)
    ensures |r| == |ds|
    ensures forall i :: 0 <= i < |ds| ==> r[i].name == ds[i].name && r[i].body == ds[i].body
    decreases |ds|
  {
    if |ds| == 0 then []
    else
      var start := off + |ds[0].lead|;
      var end := start + |DeclOf(ds[0])|;
      [Match(start, ds[0].name, ds[0].body, end)] + Placed(end, ds[1..])
  }

  /** `Placed` on a non-empty sequence: the first declaration's match, then
      the rest placed from its end. */
  lemma PlacedCons(off: nat, ds: seq<Decl>, start: nat, end: nat)
    requires |ds| > 0
    requires start == off + |ds[0].lead| && end == start + |DeclOf(ds[0])|
    ensures Placed(off, ds) == [Match(start, ds[0].name, ds[0].body, end)] + Placed(end, ds[1..])
  {
  }

  /** In a text whose suffix from `off` is a well-formed declaration
      followed by `restText`, nothing matches in the filler, the declaration
      is a match, and `restText` follows it. */
  lemma PlacedHead(t: string, off: nat, d: Decl, restText: string, start: nat, end: nat)
    requires WellFormed(d)
    requires off <= |t| && t[off..|t|] == d.lead + (DeclOf(d) + restText)
    requires start == off + |d.lead| && end == start + |DeclOf(d)|
    ensures end <= |t| && t[end..|t|] == restText
    ensures NoMatchIn(t, off, start)
    ensures IsMatchAt(t, start, Match(start, d.name, d.body, end))
  {
    assert && end <= |t|
              && t[off..start] == d.lead
              && t[start..end] == DeclOf(d)
              && t[end..|t|] == restText by {
      SplitEq(t, off, |t|, d.lead, DeclOf(d) + restText);
      SplitEq(t, start, |t|, DeclOf(d), restText);
    }
    assert HasAt(t, start, TypeKeyword) by {
      SplitEq(t, start, end, TypeKeyword, DeclOf(d)[|TypeKeyword|..]);
    }
    assert NoMatchIn(t, off, start) by {
      forall p | off <= p < start
        ensures !MatchesAt(t, p)
      {
        FillerHasNoKeyword(t, off, d.lead, start, p);
        NoMatchWithoutKeyword(t, p);
      }
    }
    assert t[start..end] == DeclText(d.gap1, d.name, d.gap2, d.body);
  }

  /** A filler that spells `type` nowhere, followed by `type`, spells it at
      no position inside the filler: an occurrence reaching past the filler's
      end would overlap the following `type`, and no proper suffix of `type`
      is a prefix of it. */
  lemma FillerHasNoKeyword(t: string, off: nat, lead: string, start: nat, p: nat)
    requires off <= p < start
    requires start <= |t| && t[off..start] == lead
    requires NoKeywordIn(lead)
    requires HasAt(t, start, TypeKeyword)
    ensures !HasAt(t, p, TypeKeyword)
  {
    var i := p - off;
    if p + |TypeKeyword| <= start {
      assert !HasAt(lead, i, TypeKeyword);
      var w := t[p..p + |TypeKeyword|];
      var v := lead[i..i + |TypeKeyword|];
      forall k | 0 <= k < |TypeKeyword|
        ensures v[k] == w[k]
      {
        assert lead[i + k] == t[p + k];
      }
      assert v == w;
    } else {
      assert t[start] == 't' by {
        assert t[start] == t[start..start + |TypeKeyword|][0];
      }
      NotHasAt(t, p, TypeKeyword, start - p);
    }
  }

  /** The declarations' matches are the leftmost ones in a text whose suffix
      from `off` is their rendering. */
  lemma {:induction false} PlacedIsLeftmost(t: string, off: nat, ds: seq<Decl>)
    requires forall i :: 0 <= i < |ds| ==> WellFormed(ds[i])
    requires off <= |t| && t[off..|t|] == Render(ds)
    ensures IsLeftmostScan(t, off, Placed(off, ds))
    decreases |ds|
  {
    if |ds| == 0 {
      NoMatchWithoutType(t, |t|);
    } else {
      var d := ds[0];
      var start := off + |d.lead|;
      var end := start + |DeclOf(d)|;
      var m := Match(start, d.name, d.body, end);
      assert WellFormed(d);
      PlacedHead(t, off, d, Render(ds[1..]), start, end);
      PlacedIsLeftmost(t, end, ds[1..]);
      PlacedCons(off, ds, start, end);
      LeftmostCons(t, off, m, Placed(end, ds[1..]));
    }
  }

  /** The search over a rendered text reports exactly the declarations'
      matches. */
  lemma {:induction false} PlacedIsScan(ds: seq<Decl>)
    requires forall i :: 0 <= i < |ds| ==> WellFormed(ds[i])
    ensures ScanAll(Render(ds), 0) == Placed(0, ds)
  {
    var t := Render(ds);
    assert t[0..|t|] == t;
    PlacedIsLeftmost(t, 0, ds);
    LeftmostScanUnique(t, 0, Placed(0, ds));
  }

  /** Round trip: searching a rendered sequence of well-formed declarations
      yields exactly their names and bodies, in order, so `funcStructs` on
      that text returns the names the declarations were written with. */
  lemma {:induction false} RenderRoundTrip(ds: seq<Decl>)
    requires forall i :: 0 <= i < |ds| ==> WellFormed(ds[i])
    ensures |Names(ScanAll(Render(ds), 0))| == |ds|
    ensures forall i :: 0 <= i < |ds| ==> Names(ScanAll(Render(ds), 0))[i] == ds[i].name
    ensures forall i :: 0 <= i < |ds| ==> Bodies(ScanAll(Render(ds), 0))[i] == ds[i].body
  {
    PlacedIsScan(ds);
  }

  /** `funcStructs` returns nothing exactly when no match starts anywhere in
      the text. */
  lemma {:induction false} NoStructsIff(fileText: string)
    ensures Names(ScanAll(fileText, 0)) == [] <==> NoMatchIn(fileText, 0, |fileText| + 1)
  {
    ScanAllEmptyIff(fileText, 0);
  }
}
