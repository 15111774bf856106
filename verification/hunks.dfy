/** The hunk scanner of `_build_commit_data`: the lines of a patch are read in
    order; a line that starts with `@@` and matches the header pattern opens a
    hunk whose body is every following line up to the next `@@` line or the end;
    any other line outside a body is dropped. Body lines are classified as
    added, removed or unchanged and numbered by two running counters. */
module Hunks {
  import opened Options
  import opened Headers

  datatype LineKind = Added | Removed | Unchanged

  /** One body line: its kind, its text without the diff marker, and its line
      numbers in the old and the new version of the file. */
  datatype LineChange = LineChange(kind: LineKind, value: string, oldLineno: Option<nat>, newLineno: Option<nat>)

  /** A hunk: the inclusive ranges its header declares and its body lines. */
  datatype Hunk = Hunk(oldStart: nat, oldEnd: int, newStart: nat, newEnd: int, lines: seq<LineChange>)

  /** Lines starting `@@` end a hunk body, whether or not they are valid headers. */
  predicate IsMarker(l: string) {
    "@@" <= l
  }

  predicate IsAddedLine(l: string) {
    "+" <= l && !("+++" <= l)
  }

  predicate IsRemovedLine(l: string) {
    "-" <= l && !("---" <= l)
  }

  // ----- classification and numbering of body lines -----

  /** The change record of body line `l`, given the current old and new counters. */
  function Classify(l: string, oldNo: nat, newNo: nat): (c: LineChange)
    ensures c.kind == Added <==> IsAddedLine(l)
    ensures c.kind == Removed <==> IsRemovedLine(l)
    ensures c.kind == Added ==> "+" + c.value == l && c.oldLineno == None && c.newLineno == Some(newNo)
    ensures c.kind == Removed ==> "-" + c.value == l && c.oldLineno == Some(oldNo) && c.newLineno == None
    ensures c.kind == Unchanged ==> c.oldLineno == Some(oldNo) && c.newLineno == Some(newNo)
    ensures c.kind == Unchanged && " " <= l ==> " " + c.value == l
    ensures c.kind == Unchanged && !(" " <= l) ==> c.value == l
  {
    if IsAddedLine(l) then
      assert l[0] == '+' && l == "+" + l[1..];
      LineChange(Added, l[1..], None, Some(newNo))
    else if IsRemovedLine(l) then
      assert l == "-" + l[1..];
      LineChange(Removed, l[1..], Some(oldNo), None)
    else if " " <= l then
      assert l == " " + l[1..];
      LineChange(Unchanged, l[1..], Some(oldNo), Some(newNo))
    else
      LineChange(Unchanged, l, Some(oldNo), Some(newNo))
  }

  /** A `+` line is an added line with the `+` stripped, unless it starts `+++`. */
  lemma AddedLineStripped(x: string, oldNo: nat, newNo: nat)
    requires !("++" <= x)
    ensures Classify("+" + x, oldNo, newNo) == LineChange(Added, x, None, Some(newNo))
  {
    var l := "+" + x;
    assert l[0] == '+' && l[1..] == x;
  }

  /** A `-` line is a removed line with the `-` stripped, unless it starts `---`. */
  lemma RemovedLineStripped(x: string, oldNo: nat, newNo: nat)
    requires !("--" <= x)
    ensures Classify("-" + x, oldNo, newNo) == LineChange(Removed, x, Some(oldNo), None)
  {
    var l := "-" + x;
    assert l[0] == '-' && l[1..] == x;
  }

  /** A context line is unchanged, with its one leading space stripped. */
  lemma ContextLineStripped(x: string, oldNo: nat, newNo: nat)
    ensures Classify(" " + x, oldNo, newNo) == LineChange(Unchanged, x, Some(oldNo), Some(newNo))
  {
    var l := " " + x;
    assert l[0] == ' ' && l[1..] == x;
  }

  /** File-header lines `+++ ...` and `--- ...` inside a body are unchanged
      lines kept whole, not added or removed lines. */
  lemma FileHeaderLinesUnchanged(l: string, oldNo: nat, newNo: nat)
    requires "+++" <= l || "---" <= l
    ensures Classify(l, oldNo, newNo) == LineChange(Unchanged, l, Some(oldNo), Some(newNo))
  {
    assert l[0] == '+' || l[0] == '-';
  }

  /** 1 when the body line takes a number in the old version (removed or unchanged). */
  function OldStep(l: string): nat {
    if IsAddedLine(l) then 0 else 1
  }

  /** 1 when the body line takes a number in the new version (added or unchanged). */
  function NewStep(l: string): nat {
    if IsRemovedLine(l) then 0 else 1
  }

  /** How many of the lines take an old-version number. */
  function OldCount(ls: seq<string>): nat
    decreases |ls|
  {
    if |ls| == 0 then 0 else OldStep(ls[0]) + OldCount(ls[1..])
  }

  /** How many of the lines take a new-version number. */
  function NewCount(ls: seq<string>): nat
    decreases |ls|
  {
    if |ls| == 0 then 0 else NewStep(ls[0]) + NewCount(ls[1..])
  }

  /** The change records of a hunk body whose counters start at `oldNo` and
      `newNo`: each line is classified with the current counters, then the
      old counter advances past removed and unchanged lines and the new
      counter past added and unchanged lines. */
  function HunkLines(body: seq<string>, oldNo: nat, newNo: nat): (cs: seq<LineChange>)
    ensures |cs| == |body|
    decreases |body|
  {
    if |body| == 0 then []
    else [Classify(body[0], oldNo, newNo)] + HunkLines(body[1..], oldNo + OldStep(body[0]), newNo + NewStep(body[0]))
  }

  /** One record per body line, in order: line `j` is classified with the
      counters advanced over exactly the lines before it. */
  lemma {:induction false} HunkLinesAt(body: seq<string>, oldNo: nat, newNo: nat)
    ensures forall j :: 0 <= j < |body| ==>
      HunkLines(body, oldNo, newNo)[j] == Classify(body[j], oldNo + OldCount(body[..j]), newNo + NewCount(body[..j]))
    decreases |body|
  {
    if |body| > 0 {
      var o' := oldNo + OldStep(body[0]);
      var n' := newNo + NewStep(body[0]);
      var cs := HunkLines(body, oldNo, newNo);
      var rest := HunkLines(body[1..], o', n');
      assert cs == [Classify(body[0], oldNo, newNo)] + rest;
      HunkLinesAt(body[1..], o', n');
      forall j | 0 <= j < |body|
        ensures cs[j] == Classify(body[j], oldNo + OldCount(body[..j]), newNo + NewCount(body[..j]))
      {
        if j == 0 {
          assert body[..0] == [];
        } else {
          CountsOfPrefix(body, j);
          assert cs[j] == rest[j - 1] && body[j] == body[1..][j - 1];
        }
      }
    }
  }

  /** Counting over a non-empty prefix counts the first line, then the rest. */
  lemma CountsOfPrefix(body: seq<string>, j: nat)
    requires 1 <= j <= |body|
    ensures OldCount(body[..j]) == OldStep(body[0]) + OldCount(body[1..][..j - 1])
    ensures NewCount(body[..j]) == NewStep(body[0]) + NewCount(body[1..][..j - 1])
  {
    assert body[..j][1..] == body[1..][..j - 1];
  }

  // ----- the line numbers a body carries -----

  /** The old-version numbers of the records, in order, skipping records without one. */
  function OldNumbers(cs: seq<LineChange>): seq<nat>
    decreases |cs|
  {
    if |cs| == 0 then []
    else (match cs[0].oldLineno case Some(n) => [n] case None => []) + OldNumbers(cs[1..])
  }

  /** The new-version numbers of the records, in order, skipping records without one. */
  function NewNumbers(cs: seq<LineChange>): seq<nat>
    decreases |cs|
  {
    if |cs| == 0 then []
    else (match cs[0].newLineno case Some(n) => [n] case None => []) + NewNumbers(cs[1..])
  }

  /** `xs` is `start, start + 1, start + 2, ...`. */
  predicate ConsecutiveFrom(xs: seq<nat>, start: nat) {
    forall k :: 0 <= k < |xs| ==> xs[k] == start + k
  }

  /** Added records carry only a new number, removed ones only an old number,
      unchanged ones both. */
  predicate WellNumbered(c: LineChange) {
    && (c.kind == Added ==> c.oldLineno.None? && c.newLineno.Some?)
    && (c.kind == Removed ==> c.oldLineno.Some? && c.newLineno.None?)
    && (c.kind == Unchanged ==> c.oldLineno.Some? && c.newLineno.Some?)
  }

  /** The old numbers of a body run consecutively from the old counter's
      start, one per removed or unchanged line. */
  lemma {:induction false} OldNumbersConsecutive(body: seq<string>, oldNo: nat, newNo: nat)
    ensures |OldNumbers(HunkLines(body, oldNo, newNo))| == OldCount(body)
    ensures ConsecutiveFrom(OldNumbers(HunkLines(body, oldNo, newNo)), oldNo)
    decreases |body|
  {
    if |body| > 0 {
      var o' := oldNo + OldStep(body[0]);
      var n' := newNo + NewStep(body[0]);
      var cs := HunkLines(body, oldNo, newNo);
      OldNumbersConsecutive(body[1..], o', n');
      assert cs[1..] == HunkLines(body[1..], o', n');
    }
  }

  /** The new numbers of a body run consecutively from the new counter's
      start, one per added or unchanged line. */
  lemma {:induction false} NewNumbersConsecutive(body: seq<string>, oldNo: nat, newNo: nat)
    ensures |NewNumbers(HunkLines(body, oldNo, newNo))| == NewCount(body)
    ensures ConsecutiveFrom(NewNumbers(HunkLines(body, oldNo, newNo)), newNo)
    decreases |body|
  {
    if |body| > 0 {
      var o' := oldNo + OldStep(body[0]);
      var n' := newNo + NewStep(body[0]);
      var cs := HunkLines(body, oldNo, newNo);
      NewNumbersConsecutive(body[1..], o', n');
      assert cs[1..] == HunkLines(body[1..], o', n');
    }
  }

  /** The body's records in order are all well numbered and their old and new
      numbers each run consecutively from the counters' starts. */
  predicate Numbered(cs: seq<LineChange>, oldStart: nat, newStart: nat) {
    && (forall k :: 0 <= k < |cs| ==> WellNumbered(cs[k]))
    && ConsecutiveFrom(OldNumbers(cs), oldStart)
    && ConsecutiveFrom(NewNumbers(cs), newStart)
  }

  lemma BodyNumbered(body: seq<string>, oldNo: nat, newNo: nat)
    ensures Numbered(HunkLines(body, oldNo, newNo), oldNo, newNo)
  {
    OldNumbersConsecutive(body, oldNo, newNo);
    NewNumbersConsecutive(body, oldNo, newNo);
    HunkLinesAt(body, oldNo, newNo);
  }

  // ----- the scanner -----

  /** The hunk a valid header opens over the given body lines; an omitted
      length was already read as 1, so `end = start + len - 1`, which is
      `start - 1` for an explicit length 0. */
  function MakeHunk(h: Header, body: seq<string>): Hunk {
    Hunk(h.oldStart, h.oldStart + h.oldLen - 1, h.newStart, h.newStart + h.newLen - 1,
         HunkLines(body, h.oldStart, h.newStart))
  }

  /** Index of the first `@@` line at or after `i`, or `|lines|`: where the body starting at `i` ends. */
  function BodyEnd(lines: seq<string>, i: nat): (e: nat)
    requires i <= |lines|
    ensures i <= e <= |lines|
    decreases |lines| - i
  {
    if i == |lines| || IsMarker(lines[i]) then i else BodyEnd(lines, i + 1)
  }

  /** The body ends at the first `@@` line from `i` on: none comes before it,
      and the line it stops at, if any, is one. */
  lemma {:induction false} BodyEndStops(lines: seq<string>, i: nat)
    requires i <= |lines|
    ensures forall k :: i <= k < BodyEnd(lines, i) ==> !IsMarker(lines[k])
    ensures BodyEnd(lines, i) < |lines| ==> IsMarker(lines[BodyEnd(lines, i)])
    decreases |lines| - i
  {
    if i < |lines| && !IsMarker(lines[i]) {
      BodyEndStops(lines, i + 1);
    }
  }

  /** A recogniser of header lines. The scanner is stated for any of them and
      used with `ParseHeader`; keeping it a parameter keeps the scanner's
      proofs apart from the details of the header pattern. */
  type HeaderParser = string -> Option<Header>

  /** The parser accepts only lines that start with `@@`, as the header pattern does. */
  ghost predicate OnlyMarkers(parse: HeaderParser) {
    forall l :: parse(l).Some? ==> IsMarker(l)
  }

  lemma ParseHeaderOnlyMarkers()
    ensures OnlyMarkers(ParseHeader)
  {
    forall l | ParseHeader(l).Some?
      ensures IsMarker(l)
    {
      HeaderStartsWithMarker(l);
    }
  }

  /** The hunks of `lines[i..]`, scanning from index `i` as the index loop of
      `_build_commit_data` does. */
  function ScanFrom(parse: HeaderParser, lines: seq<string>, i: nat): seq<Hunk>
    requires i <= |lines|
    decreases |lines| - i
  {
    if i == |lines| then []
    else if !IsMarker(lines[i]) then ScanFrom(parse, lines, i + 1)
    else
      match parse(lines[i])
      case None => ScanFrom(parse, lines, i + 1)
      case Some(h) =>
        var e := BodyEnd(lines, i + 1);
        [MakeHunk(h, lines[i + 1..e])] + ScanFrom(parse, lines, e)
  }

  /** The hunks of a patch given as lines. */
  function Scan(lines: seq<string>): seq<Hunk> {
    ScanFrom(ParseHeader, lines, 0)
  }

  /** Indices `>= i` of the lines that are valid headers, in increasing order. */
  function HeaderPositions(parse: HeaderParser, lines: seq<string>, i: nat): (ps: seq<nat>)
    requires i <= |lines|
    ensures forall k :: 0 <= k < |ps| ==> i <= ps[k] < |lines| && parse(lines[ps[k]]).Some?
    decreases |lines| - i
  {
    if i == |lines| then []
    else (if parse(lines[i]).Some? then [i] else []) + HeaderPositions(parse, lines, i + 1)
  }

  /** Every valid header line from `i` on is among the header positions,
      and they are strictly increasing. */
  lemma {:induction false} HeaderPositionsExact(parse: HeaderParser, lines: seq<string>, i: nat)
    requires i <= |lines|
    ensures forall j :: i <= j < |lines| && parse(lines[j]).Some? ==> j in HeaderPositions(parse, lines, i)
    ensures forall a, b :: 0 <= a < b < |HeaderPositions(parse, lines, i)| ==>
      HeaderPositions(parse, lines, i)[a] < HeaderPositions(parse, lines, i)[b]
    decreases |lines| - i
  {
    if i < |lines| {
      HeaderPositionsExact(parse, lines, i + 1);
    }
  }

  /** The hunk the header at `p` opens: over the lines after it up to the next `@@` line. */
  function HunkAt(parse: HeaderParser, lines: seq<string>, p: nat): Hunk
    requires p < |lines| && parse(lines[p]).Some?
  {
    MakeHunk(parse(lines[p]).value, lines[p + 1..BodyEnd(lines, p + 1)])
  }

  /** Lines none of which is a header add no header position. */
  lemma {:induction false} NoHeadersInBody(parse: HeaderParser, lines: seq<string>, i: nat, e: nat)
    requires i <= e <= |lines|
    requires forall k :: i <= k < e ==> parse(lines[k]).None?
    ensures HeaderPositions(parse, lines, i) == HeaderPositions(parse, lines, e)
    decreases e - i
  {
    if i < e {
      assert HeaderPositions(parse, lines, i) == [] + HeaderPositions(parse, lines, i + 1);
      NoHeadersInBody(parse, lines, i + 1, e);
    }
  }

  /** The scanner's output from `i` is one hunk per header position, in order,
      each the hunk that header opens. */
  ghost predicate ScanMatchesHeaders(parse: HeaderParser, lines: seq<string>, i: nat)
    requires i <= |lines|
  {
    var hs, ps := ScanFrom(parse, lines, i), HeaderPositions(parse, lines, i);
    |hs| == |ps| && forall k :: 0 <= k < |ps| ==> hs[k] == HunkAt(parse, lines, ps[k])
  }

  /** The scanner yields one hunk per header line, in order, and the hunk of
      each header is built from that header and the lines strictly between it
      and the next `@@` line (or the end). */
  lemma {:induction false} ScanByHeaders(parse: HeaderParser, lines: seq<string>, i: nat)
    requires OnlyMarkers(parse)
    requires i <= |lines|
    ensures |ScanFrom(parse, lines, i)| == |HeaderPositions(parse, lines, i)|
    ensures forall k :: 0 <= k < |HeaderPositions(parse, lines, i)| ==>
      ScanFrom(parse, lines, i)[k] == HunkAt(parse, lines, HeaderPositions(parse, lines, i)[k])
    decreases |lines| - i
  {
    if i < |lines| {
      if !IsMarker(lines[i]) || parse(lines[i]).None? {
        assert parse(lines[i]).None?;
        ScanByHeaders(parse, lines, i + 1);
        HeadersSkipStep(parse, lines, i);
      } else {
        ScanByHeaders(parse, lines, BodyEnd(lines, i + 1));
        HeadersOpenStep(parse, lines, i);
      }
    }
  }

  /** A line that is not a valid header adds neither a hunk nor a position. */
  lemma HeadersSkipStep(parse: HeaderParser, lines: seq<string>, i: nat)
    requires i < |lines| && parse(lines[i]).None?
    requires ScanMatchesHeaders(parse, lines, i + 1)
    ensures ScanMatchesHeaders(parse, lines, i)
  {
    assert HeaderPositions(parse, lines, i) == HeaderPositions(parse, lines, i + 1) by {
      assert HeaderPositions(parse, lines, i) == [] + HeaderPositions(parse, lines, i + 1);
    }
    assert ScanFrom(parse, lines, i) == ScanFrom(parse, lines, i + 1);
  }

  /** After a valid header, the next header position is at or past the next `@@` line. */
  lemma PositionsAtHeader(parse: HeaderParser, lines: seq<string>, i: nat)
    requires OnlyMarkers(parse)
    requires i < |lines| && parse(lines[i]).Some?
    ensures HeaderPositions(parse, lines, i) == [i] + HeaderPositions(parse, lines, BodyEnd(lines, i + 1))
  {
    var e := BodyEnd(lines, i + 1);
    BodyEndStops(lines, i + 1);
    forall k | i + 1 <= k < e
      ensures parse(lines[k]).None?
    {
      assert !IsMarker(lines[k]);
    }
    NoHeadersInBody(parse, lines, i + 1, e);
    assert HeaderPositions(parse, lines, i) == [i] + HeaderPositions(parse, lines, i + 1);
  }

  /** A valid header adds its hunk and its position at the front, and the
      scan resumes at the next `@@` line, before which there is no header. */
  lemma HeadersOpenStep(parse: HeaderParser, lines: seq<string>, i: nat)
    requires OnlyMarkers(parse)
    requires i < |lines| && IsMarker(lines[i]) && parse(lines[i]).Some?
    requires ScanMatchesHeaders(parse, lines, BodyEnd(lines, i + 1))
    ensures ScanMatchesHeaders(parse, lines, i)
  {
    var e := BodyEnd(lines, i + 1);
    var ps, hs := HeaderPositions(parse, lines, i), ScanFrom(parse, lines, i);
    var ps', hs' := HeaderPositions(parse, lines, e), ScanFrom(parse, lines, e);
    PositionsAtHeader(parse, lines, i);
    assert hs == [HunkAt(parse, lines, i)] + hs';
    OpenStepPointwise(parse, lines, i, ps, hs, ps', hs');
  }

  /** Prepending the same header and hunk keeps the pointwise match. */
  lemma OpenStepPointwise(parse: HeaderParser, lines: seq<string>, i: nat,
                          ps: seq<nat>, hs: seq<Hunk>, ps': seq<nat>, hs': seq<Hunk>)
    requires i < |lines| && parse(lines[i]).Some?
    requires forall k :: 0 <= k < |ps'| ==> ps'[k] < |lines| && parse(lines[ps'[k]]).Some?
    requires |hs'| == |ps'| && forall k :: 0 <= k < |ps'| ==> hs'[k] == HunkAt(parse, lines, ps'[k])
    requires ps == [i] + ps' && hs == [HunkAt(parse, lines, i)] + hs'
    ensures |hs| == |ps| && forall k :: 0 <= k < |ps| ==> ps[k] < |lines| && hs[k] == HunkAt(parse, lines, ps[k])
  {
    forall k | 0 <= k < |ps|
      ensures ps[k] < |lines| && hs[k] == HunkAt(parse, lines, ps[k])
    {
      if k > 0 {
        assert hs[k] == hs'[k - 1];
        assert ps[k] == ps'[k - 1];
      }
    }
  }

  /** Lines without `@@` are skipped by the scanner. */
  lemma {:induction false} SkipNonMarkers(parse: HeaderParser, lines: seq<string>, i: nat, j: nat)
    requires i <= j <= |lines|
    requires forall k :: i <= k < j ==> !IsMarker(lines[k])
    ensures ScanFrom(parse, lines, i) == ScanFrom(parse, lines, j)
    decreases j - i
  {
    if i < j {
      SkipNonMarkers(parse, lines, i + 1, j);
    }
  }

  /** A malformed header neither opens a hunk nor stops the scan: it and the
      lines after it up to the next `@@` line are dropped. */
  lemma MalformedHeaderDropped(parse: HeaderParser, lines: seq<string>, i: nat, j: nat)
    requires i < j <= |lines|
    requires IsMarker(lines[i]) && parse(lines[i]).None?
    requires forall k :: i < k < j ==> !IsMarker(lines[k])
    ensures ScanFrom(parse, lines, i) == ScanFrom(parse, lines, j)
  {
    SkipNonMarkers(parse, lines, i + 1, j);
  }

  lemma {:induction false} BodyEndShift(pre: seq<string>, lines: seq<string>, i: nat)
    requires i <= |lines|
    ensures BodyEnd(pre + lines, |pre| + i) == |pre| + BodyEnd(lines, i)
    decreases |lines| - i
  {
    if i < |lines| {
      assert (pre + lines)[|pre| + i] == lines[i];
      BodyEndShift(pre, lines, i + 1);
    }
  }

  /** Scanning `pre + lines` from an index past `pre` is scanning `lines`. */
  lemma {:induction false} ScanShift(parse: HeaderParser, pre: seq<string>, lines: seq<string>, i: nat)
    requires i <= |lines|
    ensures ScanFrom(parse, pre + lines, |pre| + i) == ScanFrom(parse, lines, i)
    decreases |lines| - i
  {
    if i < |lines| {
      if !IsMarker(lines[i]) || parse(lines[i]).None? {
        ScanShift(parse, pre, lines, i + 1);
        ShiftSkipStep(parse, pre, lines, i);
      } else {
        ScanShift(parse, pre, lines, BodyEnd(lines, i + 1));
        ShiftOpenStep(parse, pre, lines, i);
      }
    }
  }

  lemma ShiftSkipStep(parse: HeaderParser, pre: seq<string>, lines: seq<string>, i: nat)
    requires i < |lines| && (!IsMarker(lines[i]) || parse(lines[i]).None?)
    requires ScanFrom(parse, pre + lines, |pre| + i + 1) == ScanFrom(parse, lines, i + 1)
    ensures ScanFrom(parse, pre + lines, |pre| + i) == ScanFrom(parse, lines, i)
  {
    var all, j := pre + lines, |pre| + i;
    assert all[j] == lines[i];
    ScanSkipsLine(parse, all, j);
    ScanSkipsLine(parse, lines, i);
  }

  lemma ShiftOpenStep(parse: HeaderParser, pre: seq<string>, lines: seq<string>, i: nat)
    requires i < |lines| && IsMarker(lines[i]) && parse(lines[i]).Some?
    requires ScanFrom(parse, pre + lines, |pre| + BodyEnd(lines, i + 1)) == ScanFrom(parse, lines, BodyEnd(lines, i + 1))
    ensures ScanFrom(parse, pre + lines, |pre| + i) == ScanFrom(parse, lines, i)
  {
    var all, j := pre + lines, |pre| + i;
    BodyShift(pre, lines, i + 1);
    ScanAtHeader(parse, all, j);
    ScanAtHeader(parse, lines, i);
  }

  /** The body after a line of `lines` is the same seen inside `pre + lines`. */
  lemma BodyShift(pre: seq<string>, lines: seq<string>, i: nat)
    requires i <= |lines|
    ensures BodyEnd(pre + lines, |pre| + i) == |pre| + BodyEnd(lines, i)
    ensures (pre + lines)[|pre| + i..|pre| + BodyEnd(lines, i)] == lines[i..BodyEnd(lines, i)]
  {
    BodyEndShift(pre, lines, i);
    SliceShift(pre, lines, i, BodyEnd(lines, i));
  }

  lemma SliceShift(pre: seq<string>, lines: seq<string>, a: nat, b: nat)
    requires a <= b <= |lines|
    ensures (pre + lines)[|pre| + a..|pre| + b] == lines[a..b]
  {
  }

  /** At a valid header the scanner emits the hunk it opens and resumes at the
      next `@@` line. */
  lemma ScanAtHeader(parse: HeaderParser, lines: seq<string>, i: nat)
    requires i < |lines| && IsMarker(lines[i]) && parse(lines[i]).Some?
    ensures ScanFrom(parse, lines, i)
      == [MakeHunk(parse(lines[i]).value, lines[i + 1..BodyEnd(lines, i + 1)])] + ScanFrom(parse, lines, BodyEnd(lines, i + 1))
  {
  }

  /** Lines before the first `@@` line (such as the `---`/`+++` file header) are dropped. */
  lemma LeadingLinesDropped(pre: seq<string>, lines: seq<string>)
    requires forall k :: 0 <= k < |pre| ==> !IsMarker(pre[k])
    ensures Scan(pre + lines) == Scan(lines)
  {
    SkipPrefix(ParseHeader, pre, lines);
  }

  lemma SkipPrefix(parse: HeaderParser, pre: seq<string>, lines: seq<string>)
    requires forall k :: 0 <= k < |pre| ==> !IsMarker(pre[k])
    ensures ScanFrom(parse, pre + lines, 0) == ScanFrom(parse, lines, 0)
  {
    var all := pre + lines;
    assert ScanFrom(parse, all, 0) == ScanFrom(parse, all, |pre|) by {
      assert forall k :: 0 <= k < |pre| ==> all[k] == pre[k];
      SkipNonMarkers(parse, all, 0, |pre|);
    }
    ScanShift(parse, pre, lines, 0);
  }

  /** Every hunk the scanner produces is well numbered from its own starts. */
  lemma {:induction false} ScanNumbered(parse: HeaderParser, lines: seq<string>, i: nat)
    requires i <= |lines|
    ensures forall h :: h in ScanFrom(parse, lines, i) ==> Numbered(h.lines, h.oldStart, h.newStart)
    decreases |lines| - i
  {
    if i < |lines| {
      if !IsMarker(lines[i]) || parse(lines[i]).None? {
        ScanNumbered(parse, lines, i + 1);
      } else {
        var h := parse(lines[i]).value;
        var e := BodyEnd(lines, i + 1);
        BodyNumbered(lines[i + 1..e], h.oldStart, h.newStart);
        ScanNumbered(parse, lines, e);
      }
    }
  }

  // ----- the index loops of `_build_commit_data` -----

  /** Consuming line `next` keeps the reader's records so far and the
      records still to come equal to the whole body's records. */
  lemma ReadStep(lines: seq<string>, first: nat, next: nat, e: nat, done: seq<LineChange>,
                 oldNo: nat, newNo: nat, oldStart: nat, newStart: nat)
    requires first <= next < e <= |lines|
    requires done + HunkLines(lines[next..e], oldNo, newNo) == HunkLines(lines[first..e], oldStart, newStart)
    ensures (done + [Classify(lines[next], oldNo, newNo)])
      + HunkLines(lines[next + 1..e], oldNo + OldStep(lines[next]), newNo + NewStep(lines[next]))
      == HunkLines(lines[first..e], oldStart, newStart)
  {
    assert lines[next..e][0] == lines[next];
    assert lines[next..e][1..] == lines[next + 1..e];
  }

  /** The inner `while` loop of `_build_commit_data`: from index `first`, classify and
      number lines until an `@@` line or the end; returns the records and the
      index where it stopped. */
  method ReadBody(lines: seq<string>, first: nat, oldStart: nat, newStart: nat)
    returns (body: seq<LineChange>, next: nat)
    requires first <= |lines|
    ensures next == BodyEnd(lines, first)
    ensures body == HunkLines(lines[first..next], oldStart, newStart)
  {
    ghost var e := BodyEnd(lines, first);
    BodyEndStops(lines, first);
    var oldNo: nat := oldStart;
    var newNo: nat := newStart;
    body := [];
    next := first;
    while next < |lines| && !IsMarker(lines[next])
      invariant first <= next <= e
      invariant body + HunkLines(lines[next..e], oldNo, newNo) == HunkLines(lines[first..e], oldStart, newStart)
      decreases |lines| - next
    {
      var l := lines[next];
      ReadStep(lines, first, next, e, body, oldNo, newNo, oldStart, newStart);
      body := body + [Classify(l, oldNo, newNo)];
      oldNo := oldNo + OldStep(l);
      newNo := newNo + NewStep(l);
      next := next + 1;
    }
  }

  lemma ScanSkipsLine(parse: HeaderParser, lines: seq<string>, i: nat)
    requires i < |lines| && (!IsMarker(lines[i]) || parse(lines[i]).None?)
    ensures ScanFrom(parse, lines, i) == ScanFrom(parse, lines, i + 1)
  {
  }

  /** With no `@@` line from `i` on, the body runs to the end. */
  lemma {:induction false} BodyToEnd(lines: seq<string>, i: nat)
    requires i <= |lines|
    requires forall k :: i <= k < |lines| ==> !IsMarker(lines[k])
    ensures BodyEnd(lines, i) == |lines|
    decreases |lines| - i
  {
    if i < |lines| {
      assert !IsMarker(lines[i]);
      BodyToEnd(lines, i + 1);
    }
  }

  /** A patch whose first line is a valid header and which has no other `@@`
      line is one hunk over all the lines after the header. */
  lemma SingleHunk(parse: HeaderParser, lines: seq<string>)
    requires 0 < |lines| && IsMarker(lines[0]) && parse(lines[0]).Some?
    requires forall k :: 1 <= k < |lines| ==> !IsMarker(lines[k])
    ensures ScanFrom(parse, lines, 0) == [MakeHunk(parse(lines[0]).value, lines[1..])]
  {
    BodyToEnd(lines, 1);
    ScanAtHeader(parse, lines, 0);
    assert lines[1..|lines|] == lines[1..];
    assert ScanFrom(parse, lines, |lines|) == [];
  }

  lemma ScanOpensHunk(parse: HeaderParser, lines: seq<string>, i: nat, done: seq<Hunk>, hunk: Hunk)
    requires i < |lines| && IsMarker(lines[i]) && parse(lines[i]).Some?
    requires hunk == MakeHunk(parse(lines[i]).value, lines[i + 1..BodyEnd(lines, i + 1)])
    ensures done + ScanFrom(parse, lines, i) == (done + [hunk]) + ScanFrom(parse, lines, BodyEnd(lines, i + 1))
  {
    assert ScanFrom(parse, lines, i) == [hunk] + ScanFrom(parse, lines, BodyEnd(lines, i + 1));
  }

  /** The outer `while` loop of `_build_commit_data` over an index `i`, appending a hunk
      per valid header. */
  method ScanLoop(parse: HeaderParser, lines: seq<string>) returns (hunks: seq<Hunk>)
    ensures hunks == ScanFrom(parse, lines, 0)
  {
    hunks := [];
    var i := 0;
    while i < |lines|
      invariant i <= |lines|
      invariant hunks + ScanFrom(parse, lines, i) == ScanFrom(parse, lines, 0)
      decreases |lines| - i
    {
      var line := lines[i];
      if IsMarker(line) {
        var m := parse(line);
        if m.None? {
          ScanSkipsLine(parse, lines, i);
          i := i + 1;
          continue;
        }
        var h := m.value;
        var body, next := ReadBody(lines, i + 1, h.oldStart, h.newStart);
        var hunk := Hunk(h.oldStart, h.oldStart + h.oldLen - 1, h.newStart, h.newStart + h.newLen - 1, body);
        ScanOpensHunk(parse, lines, i, hunks, hunk);
        hunks := hunks + [hunk];
        i := next;
      } else {
        ScanSkipsLine(parse, lines, i);
        i := i + 1;
      }
    }
  }
}
