# Unified-diff hunk parser and commit-record assembler

This project models the commit-record builder `_build_commit_data` of the
service layer (`backend/services/github_utils.py`, lines 31-106) in Dafny and
proves properties of the model.

The builder takes five arguments: the repository name (`name`), the commit's
`date`, message (`msg`) and `sha`, and the commit's file list (`files`) as the
hosting service reports it. Each
file entry has a `filename`, a `status` and, sometimes, a `patch`. The result
is a commit record:

- The metadata is copied through unchanged.
- When the date, message, sha and file list are all non-empty, each file
  becomes a file-change record.
- The patch of a `modified` file is parsed into hunks:
  - The text is split into lines the way Python's `str.splitlines()` does.
  - A line starting `@@` that matches `^@@ -a[,b] +c[,d] @@` opens a hunk.
    Its inclusive ranges are `a..a+b-1` and `c..c+d-1`, and a missing length
    counts as 1.
  - A line starting `@@` that does not match is skipped.
  - Every line up to the next `@@` line is classified as added, removed or
    unchanged. It is then numbered by two running counters, one for the old
    version and one for the new.

Modules, one per file:

- `Options` (`options.dfy`): the `Option` datatype, used for optional patch
  texts, regex groups and line numbers.
- `Lines` (`lines.dfy`): `str.splitlines()` over its full set of line
  boundaries, and joining lines back into text.
- `Headers` (`headers.dfy`): the hunk-header pattern, written as a
  hand-written matcher over ASCII digits. Also `int()` of a digit group, and
  the header's numbers with each omitted length read as 1.
- `Hunks` (`hunks.dfy`) covers the body lines and the scan:
  - Classifying body lines and numbering them.
  - The scan over a patch's lines. It is a recursive function with the
    header parser as a parameter.
  - Its relation to the positions of the valid header lines.
  - Two imperative methods that mirror the index-based `while` loops of
    `_build_commit_data`. Each is proved equal to the functional definition.
- `Commits` (`commits.dfy`) builds the records:
  - File-change records and the commit record, with the completeness guard.
  - An imperative mirror of the whole builder.
  - Round trips between header numbers and header text, and between a patch
    and its re-parse.
- `Examples` (`examples.dfy`):
  - A worked hunk: a context line, a removed line and two added lines under
    the header `@@ -1,2 +1,3 @@`. The four line texts are parameters: any
    texts without a line boundary, with the removed text not starting `--`
    and the added texts not starting `++`.
  - A malformed `@@` line, which yields no hunk.

Two facts about the program shape the model:

- Lines are split as `str.splitlines()` splits them, over its whole boundary
  set: `\n`, `\r`, `\r\n`, `\v`, `\f`, `\x1c`-`\x1e`, `\x85`, `\u2028` and
  `\u2029`. A trailing boundary adds no final empty line. So a form feed
  or any of those other characters inside a patch line splits it: the tail
  becomes a line of its own, is classified by its own first character and
  advances the counters of that kind (a tail starting `+` but not `+++` is
  one more added line, one starting `-` but not `---` one more removed line,
  any other an unchanged line); a tail starting `@@` ends the hunk; and a boundary at the very end
  of the patch adds nothing.
- The header pattern accepts a start of 0 (`@@ -0,0 +1 @@`), so line numbers
  are `nat` and hunk ends are `int`: a start of 0 with length 0 gives the
  end -1.

## Model

| member | source | states |
|---|---|---|
| Lines.SplitLines | backend/services/github_utils.py:51 | no produced line contains a line boundary; the result is empty exactly when the patch text is empty; Lines.SplitLinesCons, Lines.SplitLinesAtBreak and Lines.SplitLinesSingle fix the lines themselves |
| Lines.SplitLinesCons | backend/services/github_utils.py:51 | a boundary-free line followed by `\n` or `\r\n` splits off as one line, and splitting continues after the boundary |
| Lines.SplitLinesAtBreak | backend/services/github_utils.py:51 | a boundary-free line followed by any one boundary character (a lone `\r` only when no `\n` follows) splits off as one line, and splitting continues after it |
| Lines.SplitLinesSingle | backend/services/github_utils.py:51 | a non-empty text without a boundary is one line |
| Lines.FormFeedSplits | backend/services/github_utils.py:51 | a form feed splits a text: `a<FF>b` gives `[a, b]` |
| Lines.SplitJoin | backend/services/github_utils.py:51 | splitting the text that joins boundary-free lines with `\n` gives those lines back, when the last line is non-empty |
| Lines.SplitTerminated | backend/services/github_utils.py:51 | a trailing line boundary adds no final empty line: splitting lines each ended by `\n` gives them back |
| Lines.CrLfIsOneBoundary | backend/services/github_utils.py:51 | `\r\n` is one boundary: `a\r\nb` splits into exactly `[a, b]` |
| Headers.DigitPrefix | backend/services/github_utils.py:40 | the longest, possibly empty, digit prefix of the input (a greedy `\d*`): a prefix, all digits, and followed by a non-digit or the end; `NumberField` rejects the empty run, which gives `\d+` |
| Headers.DigitPrefixOf | backend/services/github_utils.py:40 | a digit run followed by a non-digit is exactly what the greedy run takes |
| Headers.MatchHeader | backend/services/github_utils.py:40 | a match yields well-formed groups, and the shortest text the pattern accepts with them is a prefix of the line |
| Headers.MatchRender | backend/services/github_utils.py:40 | any well-formed groups, written out and followed by any text, are matched back exactly |
| Headers.MatchHeaderIff | backend/services/github_utils.py:40 | the line matches with groups `g` if and only if `g` is well formed and its rendering is a prefix of the line |
| Headers.HeaderStartsWithMarker | backend/services/github_utils.py:55-56 | a line the pattern matches starts with `@@`, so the `startswith('@@')` test never hides a match |
| Headers.Value | backend/services/github_utils.py:60-63 | `int()` of a group of ASCII digits; Headers.ValueOfNumeral and Headers.LeadingZero characterise it |
| Headers.LenValue | backend/services/github_utils.py:61 | `int(g or '1')`: an omitted length group reads as 1; Headers.ParseHeaderText states it for whole headers |
| Headers.ToHeader | backend/services/github_utils.py:60-63 | the four header numbers from the matched groups; Headers.ParseHeaderText states the round trip |
| Headers.ParseHeader | backend/services/github_utils.py:56-63 | `hunk_header_re.match` followed by the four `int` conversions; None when the line does not match; Headers.ParseHeaderText and Headers.MatchHeaderIff characterise it |
| Headers.ValueOfNumeral | backend/services/github_utils.py:60-63 | `int()` of the decimal numeral of `n` is `n` |
| Headers.LeadingZero | backend/services/github_utils.py:60-63 | a leading zero does not change the value `int()` gives a digit group |
| Headers.ParseHeaderText | backend/services/github_utils.py:60-63 | a header written from numbers parses back to them, whatever follows on the line, with each omitted length read as 1 |
| Hunks.Classify | backend/services/github_utils.py:76-100 | added if and only if the line starts `+` but not `+++`; removed if and only if it starts `-` but not `---`; the marker is stripped from added and removed lines and from a leading space only; which numbers each kind carries |
| Hunks.AddedLineStripped | backend/services/github_utils.py:76-83 | `+x`, where x does not start `++`, is added with text x, no old number and the current new number |
| Hunks.RemovedLineStripped | backend/services/github_utils.py:84-91 | `-x`, where x does not start `--`, is removed with text x, the current old number and no new number |
| Hunks.ContextLineStripped | backend/services/github_utils.py:92-100 | ` x` is unchanged with text x and both current numbers |
| Hunks.FileHeaderLinesUnchanged | backend/services/github_utils.py:76-100 | lines starting `+++` or `---` are unchanged and keep their whole text |
| Hunks.HunkLines | backend/services/github_utils.py:72-101 | the line records of a hunk body, one per line; Hunks.HunkLinesAt, Hunks.OldNumbersConsecutive and Hunks.NewNumbersConsecutive characterise it |
| Hunks.MakeHunk | backend/services/github_utils.py:64-70 | the hunk a header opens: ends start + length - 1, lines the numbered body; Commits.HunkRanges states the ranges |
| Hunks.HunkLinesAt | backend/services/github_utils.py:72-101 | the j-th line record classifies the j-th body line, with counters advanced by the lines before it |
| Hunks.OldNumbersConsecutive | backend/services/github_utils.py:72-100 | the old numbers of a hunk's lines run consecutively from the old start, one per removed or unchanged line |
| Hunks.NewNumbersConsecutive | backend/services/github_utils.py:72-100 | the new numbers of a hunk's lines run consecutively from the new start, one per added or unchanged line |
| Hunks.BodyNumbered | backend/services/github_utils.py:72-100 | added lines carry only a new number, removed lines only an old one, unchanged lines both, and both sequences are consecutive |
| Hunks.BodyEnd | backend/services/github_utils.py:74 | where the inner loop stops: the first `@@` line at or after the body's start, or the end; Hunks.BodyEndStops characterises it |
| Hunks.BodyEndStops | backend/services/github_utils.py:74 | a hunk body stops at the first line starting `@@` and contains none |
| Hunks.BodyToEnd | backend/services/github_utils.py:74 | with no `@@` line left, the body runs to the end of the patch |
| Hunks.ParseHeaderOnlyMarkers | backend/services/github_utils.py:55-56 | the header parser accepts only lines starting `@@` |
| Hunks.ScanFrom | backend/services/github_utils.py:52-104 | the scan as a recursive function over the line index; Hunks.ScanByHeaders characterises its result through the header positions |
| Hunks.HeaderPositionsExact | backend/services/github_utils.py:53-59 | the header positions are every line matching the pattern, in strictly increasing order |
| Hunks.ScanByHeaders | backend/services/github_utils.py:53-104 | there are as many hunks as lines matching the header pattern; the k-th hunk is opened by the k-th such line and spans the lines after it up to the next `@@` line |
| Hunks.MalformedHeaderDropped | backend/services/github_utils.py:57-59 | a malformed `@@` line and the lines after it up to the next `@@` line add no hunk and do not stop the scan |
| Hunks.SkipNonMarkers | backend/services/github_utils.py:103-104 | lines not starting `@@` are passed over while seeking a header |
| Hunks.LeadingLinesDropped | backend/services/github_utils.py:103-104 | lines before the first `@@` line do not affect the hunks |
| Hunks.ScanShift | backend/services/github_utils.py:53-104 | the hunks from a position depend only on the lines from that position on |
| Hunks.ScanNumbered | backend/services/github_utils.py:72-102 | every hunk the scan yields is numbered consecutively from its declared starts |
| Hunks.SingleHunk | backend/services/github_utils.py:71-102 | a header followed only by non-`@@` lines yields exactly one hunk, over all of those lines |
| Hunks.ReadBody | backend/services/github_utils.py:71-101 | the inner loop stops at the next `@@` line or the end, and builds exactly the numbered line records of the lines in between |
| Hunks.ScanLoop | backend/services/github_utils.py:52-104 | the outer index-based loop yields exactly the hunks of the recursive scan |
| Commits.ParsePatch | backend/services/github_utils.py:51-104 | the hunks of a patch text: its `splitlines()` lines, scanned; characterised by Commits.ModifiedFileHunks, Commits.FileHunksByHeaders and Commits.SingleHunkPatch |
| Commits.BuildFileChange | backend/services/github_utils.py:42-50 | both file names are the entry's filename; status is copied; patch is the entry's patch or `""`; hunks are non-empty only for a modified file with a patch |
| Commits.ModifiedFileHunks | backend/services/github_utils.py:50-51 | a modified file's hunks are exactly those parsed from its patch |
| Commits.FileHunksNumbered | backend/services/github_utils.py:72-100 | every hunk of every file record is numbered consecutively from its declared starts |
| Commits.FileHunksByHeaders | backend/services/github_utils.py:50-104 | a modified file has one hunk per patch line matching the header pattern, in order, each over the lines up to the next `@@` line |
| Commits.BuildFiles | backend/services/github_utils.py:42-105 | one file record per entry, same length and order, each the record of its entry |
| Commits.BuildFilesSnoc | backend/services/github_utils.py:105 | appending an entry appends its record |
| Commits.BuildCommit | backend/services/github_utils.py:33-41 | metadata copied unchanged; the file list is empty when the date, message, sha or files are empty; otherwise it has one record per entry, in order |
| Commits.FileChangeData | backend/services/github_utils.py:42-105 | the imperative per-file construction, including both loops, builds exactly the functional file record |
| Commits.BuildCommitData | backend/services/github_utils.py:31-106 | the imperative builder yields exactly the functional commit record |
| Commits.HeaderTextLine | backend/services/github_utils.py:40 | a header written from numbers starts `@@`, has no line boundary, and parses back to its numbers with omitted lengths read as 1 |
| Commits.FormFeedInBody | backend/services/github_utils.py:51-101 | an added line `+x<FF>y` in a hunk body becomes two records, the added `x` and a separate record for `y` that advances the counters on its own |
| Commits.HunkRanges | backend/services/github_utils.py:60-68 | the hunk a header opens has end = start + length - 1; an omitted length gives end = start; length 0 gives end = start - 1; one line record per body line |
| Commits.SingleHunkPatch | backend/services/github_utils.py:51-104 | a patch made of one header line and non-`@@` body lines parses to exactly that header's hunk over those lines |
| Commits.ReparseStable | backend/services/github_utils.py:47-50 | building a record again from the patch text a record keeps gives the same record, hunks included |
| Examples.BodyNumbers | backend/services/github_utils.py:72-100 | a context, a removed and two added lines get numbers (o, n), (o+1, -), (-, n+1), (-, n+2) |
| Examples.HunkOfBody | backend/services/github_utils.py:64-101 | the hunk over that body has the header's ranges and those four numbered records |
| Examples.PatchOfHeaderAndBody | backend/services/github_utils.py:50-104 | a header line followed by that body parses to the header's one hunk |
| Examples.ExampleHeader | backend/services/github_utils.py:40 | `@@ -1,2 +1,3 @@` parses to starts 1 and 1 with lengths 2 and 3 |
| Examples.ExampleModifiedFile | backend/services/github_utils.py:50-102 | under `@@ -1,2 +1,3 @@` the body yields one hunk with ranges 1..2 and 1..3: unchanged (1, 1), removed (2, -), added (-, 2), added (-, 3) |
| Examples.ExampleGarbageHeader | backend/services/github_utils.py:55-59 | the patch `@@ garbage @@`, `+x` yields no hunks |

## Left out

- `_read_token` (lines 5-7) reads a file. This is I/O.
- `_github_login`, `get_repos`, `_get_commits_range` and `get_commits_range`
  (lines 9-29 and 109-144) are HTTP calls, status-code handling and printing.
  They feed the builder but contain no parsing logic.
- `fastapi_app.py` is route wiring and a server launcher and is not part of
  this model.
- Headers.MatchHeader: `\d` is modelled as the ASCII digits `0`-`9`. Python's
  `re` also accepts other Unicode decimal digits, and `int()` would convert
  them.
- Headers.Value: `int()` in CPython 3.11 and later (and in the releases
  with the security backport) raises `ValueError` on a digit group longer
  than 4300 digits, the default `int_max_str_digits` limit; the exception
  escapes `_build_commit_data`. The model gives every digit group its value,
  because that limit is an interpreter setting rather than part of the
  program, and it varies by version and configuration.
- Commits.BuildFileChange: an entry without a `filename` or `status` key
  raises `KeyError` in the source. The model's entries always carry both.
- Commits.BuildFileChange: a `patch` key present with the value `None` is not
  modelled. A patch is either absent or a string.
- Commits.BuildCommit: metadata values are strings, and a missing (`None`)
  date, message or sha is modelled as `""`. Both are falsy, so the guard
  behaves the same.
- Commits.BuildCommit: the result's field names (`repo`, `filename_before`,
  `old_lineno` and so on) become datatype fields. The dictionary form is not
  modelled.
- Hunks.ScanFrom takes the header parser as a parameter. The source's regex
  object is the instance `ParseHeader`. Lemmas that hold for any parser
  accepting only `@@` lines are stated for any such parser.
- Examples.ExampleModifiedFile: the line texts are parameters. Any texts
  without line boundaries work, including `unchanged line`, `removed line`,
  `added line` and `added line 2`, provided the removed text does not start
  `--` and the added texts do not start `++`.
