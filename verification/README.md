# Go struct extractor: a Dafny model

The VS Code extension `go-code-generation` has one command. When it runs on an
open Go file, it looks for every struct declaration in the text and shows each
struct's name. The whole computation is:

- a global, dot-all regular expression `type +([^ ]+) +struct {(.+?(?=}))}`,
  used with `String.prototype.matchAll`;
- a function `funcStructs`, which walks the matches and collects group 1 (the
  struct name) and group 2 (the body text) into two arrays in lockstep. It
  returns only the names.

This project models that computation and proves what it finds.

- `wrappers.dfy` (`Wrappers`) defines the `Option` type.
- `struct_pattern.dfy` (`StructPattern`) holds the match of the pattern at one
  position. `IsMatchAt` is the reference description: the text is `type`, at
  least one space, a name with no space in it, at least one space, `struct {`,
  a body, then `}`. The body is lazy, so it has at least one character and
  contains no `}` after its first. `MatchAt` is a deterministic scanner that
  reads such a match. `Attempt` is its staged form, following the order of the
  pattern's pieces.
- `struct_scan.dfy` (`StructScan`) holds the global search:
  - `Exec` is one step of `lastIndex`-driven searching;
  - `ScanAll` is the sequence of matches `matchAll` yields;
  - `IsLeftmostScan` is the reference description of that sequence: leftmost
    match first, then the search resumes at its end.
- `func_structs.dfy` (`FuncStructs`) holds:
  - the collecting loop `CollectStructs`;
  - the function's result `FuncStructs`;
  - a round trip: a file rendered from well-formed declarations (`Decl`,
    `Render`) gives back exactly their names and bodies, in order. A
    declaration is well-formed when the filler text before it spells `type`
    nowhere, both space runs are non-empty, the name has no space, and the
    body is one the lazy pattern can capture. The rendering ends at the last
    declaration's `}`: the round trip does not cover text after the last
    declaration.

The pattern is fixed: the `regex` parameter of `funcStructs` is always the
literal of `extension.js:40`, so the model takes the file text alone. That
literal is evaluated afresh on each command run, so every search starts at
`lastIndex` 0.

## Model

| member | source | states |
|---|---|---|
| StructPattern.SkipSpaces | extension.js:40 | the ` +` pieces: the end of the maximal run of spaces from `i`; every character before it is a space, and the next one is not |
| StructPattern.SkipNonSpaces | extension.js:40 | the `([^ ]+)` name group: the end of the maximal run of non-space characters from `i`, stopping at a space or the end of the text |
| StructPattern.FindClose | extension.js:40 | the lazy body `(.+?(?=}))` followed by `}`: the least index at or after `i` holding `}`, or none when no `}` follows |
| StructPattern.Attempt | extension.js:40 | a match found at any stage starts at `p` and ends after the text already read, within the text |
| StructPattern.MatchAt | extension.js:40 | a match found at `p` starts at `p`, is non-empty, and ends within the text |
| StructPattern.MatchAtSound | extension.js:40 | every match the scanner reports is a match of the pattern: `type`, spaces, a space-free name, spaces, `struct {`, a body with no `}` after its first character, `}` |
| StructPattern.MatchAtComplete | extension.js:40 | every match of the pattern at `p` is the one the scanner reports, so a position has at most one match |
| StructPattern.MatchAtDecides | extension.js:40 | the scanner succeeds at `p` exactly when the pattern matches at `p` |
| StructPattern.MatchAtOfDeclText | extension.js:40 | a declaration written with any positive numbers of spaces and a valid name and body yields exactly that name and body, and ends after its `}` |
| StructPattern.IsMatchAtPrefix | extension.js:40 | a match at `p` stays a match, shifted, when text is put before it, and conversely |
| StructPattern.MatchAtIgnoresPrefix | extension.js:40 | the outcome at a position does not depend on the text before it (the pattern has no word boundary before `type`) |
| StructPattern.StructWithoutSpaceRejected | extension.js:40 | `type NAME struct{` with no space before the brace is never recognised |
| StructPattern.EmptyStructRunsToNextClose | extension.js:40 | for `struct {}`, the body is not empty: it is `}` plus everything up to the next `}` |
| StructPattern.NoMatchWithoutType | extension.js:40 | no match starts at a position that does not hold `t` |
| StructPattern.NoMatchWithoutKeyword | extension.js:40 | no match starts at a position that does not spell `type` |
| StructPattern.NoCloseNoMatch | extension.js:40 | no match starts at a position with no `}` after it |
| StructScan.Exec | extension.js:54 | one search step returns a match starting at or after `lastIndex` and ending within the text |
| StructScan.ScanAll | extension.js:54 | every match that `matchAll` yields starts at or after the search start and ends within the text |
| StructScan.ExecIsLeftmost | extension.js:54 | one search step returns the leftmost match at or after `lastIndex`; it returns none exactly when no position from there on matches |
| StructScan.ExecFindsLeftmost | extension.js:54 | a match with no match before it, from `lastIndex` on, is the one the search step returns |
| StructScan.ExecFindsNone | extension.js:54 | when no position from `lastIndex` on matches, the search step returns none |
| StructScan.ScanAllIsLeftmost | extension.js:54 | the matches that `matchAll` yields are the leftmost, non-overlapping ones, each search resuming at the previous match's end |
| StructScan.LeftmostScanFirst | extension.js:54 | a leftmost scan's first match is what the search yields first, and the rest is the search from its end |
| StructScan.LeftmostScanNone | extension.js:54 | an empty leftmost scan means the search yields nothing |
| StructScan.LeftmostScanUnique | extension.js:54 | the leftmost description determines the sequence: any sequence meeting it is the search's |
| StructScan.ScanAllEmptyIff | extension.js:54 | the search yields nothing exactly when no position from the start on matches |
| StructScan.ScanAllMatchesValid | extension.js:54 | every match the search yields is a match of the pattern at its start |
| StructScan.ScanAllOrdered | extension.js:54 | the matches come in text order and do not overlap: each ends at or before the next one's start |
| StructScan.NoCloseNoScan | extension.js:54 | text with no `}` from the search start on yields no match |
| FuncStructs.CollectStructs | extension.js:54-62 | the loop fills the name and content arrays in lockstep, with the name and body of every match, in match order |
| FuncStructs.FuncStructs | extension.js:53-66 | the result is the name of every match, in order, and each name is non-empty and free of spaces |
| FuncStructs.PlacedIsLeftmost | extension.js:54 | in text ending with a rendering of well-formed declarations, their matches are the leftmost scan of that part |
| FuncStructs.PlacedIsScan | extension.js:54 | the search over a rendering of well-formed declarations yields exactly their matches |
| FuncStructs.RenderRoundTrip | extension.js:53-66 | for declarations whose filler text spells `type` nowhere, with non-empty space runs, a space-free name and a lazily capturable body, the names and bodies collected from their rendering are their own names and bodies, in order |
| FuncStructs.NoStructsIff | extension.js:53-66 | the function returns an empty list exactly when the text has no match anywhere |

## Left out

- `activate` (`extension.js:13-51`) is left out. It holds the editor checks, the error messages, reading the document, command registration and subscription. All of it is VS Code I/O.
- The `.go` file-name check (`extension.js:32`) is left out. It is a host-side guard that runs before the extractor.
- Showing each name as a warning message (`extension.js:45`) is left out because it is output to the host.
- `console.log`, `deactivate` and `module.exports` are left out. They have no behaviour beyond logging and wiring.
- A general regular-expression engine is not modelled. `funcStructs` is only ever called with the one literal at `extension.js:40`, so the model fixes the pattern and implements its semantics directly. The lookahead and lazy quantifier are modelled by their effect: the body ends at the first `}` after its first character.
- `struct_contents` is not modelled as part of the function's result. The source builds it and discards it. `CollectStructs` still computes it and states its contents.
- StructPattern.MatchAt: positions count Dafny `char`s, which are Unicode scalar values. JavaScript strings count UTF-16 code units. Positions therefore differ for text with characters outside the Basic Multilingual Plane, but the names and bodies found do not, because every character class in the pattern (`.` with the `s` flag, `[^ ]`) accepts either encoding of such a character. A JavaScript string may also hold unpaired surrogate code units, which no Dafny `char` can represent, so such text is outside the model.
- The behaviour of `matchAll` after an empty match, which advances `lastIndex` by one, is not modelled. The pattern never matches empty text, as `StructPattern.MatchAt` states.
- `extension.js` has no code generator and matches no `interface` declarations, so neither is modelled.
