/** The commit-record assembler of `_build_commit_data`: commit metadata and
    the commit's file records become a commit record whose files carry the
    parsed hunks of their patches. */
module Commits {
  import opened Options
  import opened Lines
  import opened Headers
  import opened Hunks

  /** One entry of the commit's file list: `filename`, `status` and, when the
      hosting service supplies one, `patch`. */
  datatype FileInput = FileInput(filename: string, status: string, patch: Option<string>)

  datatype FileChange = FileChange(
    filenameBefore: string,
    filenameAfter: string,
    status: string,
    patch: string,
    hunks: seq<Hunk>)

  datatype CommitRecord = CommitRecord(repo: string, date: string, msg: string, sha: string, files: seq<FileChange>)

  const Modified: string := "modified"

  /** The hunks of a patch text: its lines, scanned for headers. */
  function ParsePatch(patch: string): seq<Hunk> {
    Scan(SplitLines(patch))
  }

  /** The file-change record of one file entry. Only a modified file that
      comes with a patch has its patch parsed. */
  function BuildFileChange(f: FileInput): (r: FileChange)
    ensures r.filenameBefore == f.filename && r.filenameAfter == f.filename
    ensures r.status == f.status
    ensures f.patch.Some? ==> r.patch == f.patch.value
    ensures f.patch.None? ==> r.patch == ""
    ensures r.hunks != [] ==> f.status == Modified && f.patch.Some?
  {
    var hunks := if f.status == Modified && f.patch.Some? then ParsePatch(f.patch.value) else [];
    FileChange(f.filename, f.filename, f.status, f.patch.GetOr(""), hunks)
  }

  /** The hunks of a modified file are exactly those its patch parses to. */
  lemma ModifiedFileHunks(name: string, patch: string)
    ensures BuildFileChange(FileInput(name, Modified, Some(patch))).hunks == ParsePatch(patch)
  {
  }

  /** Every hunk of every file record is well numbered: added lines carry
      only a new number, removed lines only an old one, unchanged lines both,
      and the old and new numbers each run consecutively from the hunk's
      declared starts. */
  lemma FileHunksNumbered(f: FileInput)
    ensures forall h :: h in BuildFileChange(f).hunks ==> Numbered(h.lines, h.oldStart, h.newStart)
  {
    ScanNumbered(ParseHeader, SplitLines(f.patch.GetOr("")), 0);
  }

  /** The records of the file entries, one per entry, in order. */
  function BuildFiles(fs: seq<FileInput>): (r: seq<FileChange>)
    ensures |r| == |fs|
    ensures forall i :: 0 <= i < |fs| ==> r[i] == BuildFileChange(fs[i])
    decreases |fs|
  {
    if |fs| == 0 then [] else [BuildFileChange(fs[0])] + BuildFiles(fs[1..])
  }

  lemma BuildFilesSnoc(fs: seq<FileInput>, f: FileInput)
    ensures BuildFiles(fs + [f]) == BuildFiles(fs) + [BuildFileChange(f)]
  {
  }

  /** The commit carries files only when date, message and sha are non-empty
      and the file list is non-empty. */
  predicate Complete(date: string, msg: string, sha: string, files: seq<FileInput>) {
    date != "" && msg != "" && sha != "" && |files| > 0
  }

  /** The commit record: metadata copied through; the file records when the
      commit is complete, none otherwise. */
  function BuildCommit(name: string, date: string, msg: string, sha: string, files: seq<FileInput>): (r: CommitRecord)
    ensures r.repo == name && r.date == date && r.msg == msg && r.sha == sha
    ensures !Complete(date, msg, sha, files) ==> r.files == []
    ensures Complete(date, msg, sha, files) ==> |r.files| == |files|
    ensures Complete(date, msg, sha, files) ==>
      forall i :: 0 <= i < |files| ==> r.files[i] == BuildFileChange(files[i])
  {
    CommitRecord(name, date, msg, sha, if Complete(date, msg, sha, files) then BuildFiles(files) else [])
  }

  /** The body of the `for` loop of `_build_commit_data`: the record of one
      entry, with the index-based scan of a modified file's patch. */
  method FileChangeData(f: FileInput) returns (c: FileChange)
    ensures c == BuildFileChange(f)
  {
    var hunks: seq<Hunk> := [];
    if f.status == Modified && f.patch.Some? {
      hunks := ScanLoop(ParseHeader, SplitLines(f.patch.value));
    }
    c := FileChange(f.filename, f.filename, f.status, f.patch.GetOr(""), hunks);
  }

  /** The statement sequence of `_build_commit_data`: an empty file list,
      filled by the `for` loop over the entries when the commit is complete. */
  method BuildCommitData(name: string, date: string, msg: string, sha: string, files: seq<FileInput>)
    returns (r: CommitRecord)
    ensures r == BuildCommit(name, date, msg, sha, files)
  {
    var out: seq<FileChange> := [];
    if date != "" && msg != "" && sha != "" && |files| > 0 {
      var k := 0;
      while k < |files|
        invariant k <= |files|
        invariant out == BuildFiles(files[..k])
      {
        var c := FileChangeData(files[k]);
        BuildFilesSnoc(files[..k], files[k]);
        assert files[..k + 1] == files[..k] + [files[k]];
        out := out + [c];
        k := k + 1;
      }
      assert files[..k] == files;
    }
    r := CommitRecord(name, date, msg, sha, out);
  }

  /** A modified file with a patch gets one hunk per header line of the
      patch, in order; each is built from its header and the lines strictly
      between it and the next `@@` line. */
  lemma FileHunksByHeaders(f: FileInput)
    requires f.status == Modified && f.patch.Some?
    ensures var ls := SplitLines(f.patch.value);
      var ps := HeaderPositions(ParseHeader, ls, 0);
      var hs := BuildFileChange(f).hunks;
      && |hs| == |ps|
      && forall k :: 0 <= k < |ps| ==> hs[k] == HunkAt(ParseHeader, ls, ps[k])
  {
    ParseHeaderOnlyMarkers();
    ScanByHeaders(ParseHeader, SplitLines(f.patch.value), 0);
  }

  /** A numeral holds no line boundary. */
  lemma NumeralNoBreaks(d: string)
    requires AllDigits(d)
    ensures NoBreaks(d)
  {
    forall i | 0 <= i < |d|
      ensures !IsLineBreak(d[i])
    {
      assert IsDigit(d[i]);
    }
  }

  lemma FieldNoBreaks(start: string, len: Option<string>)
    requires AllDigits(start) && (len.Some? ==> AllDigits(len.value))
    ensures NoBreaks(Field(start, len))
  {
    NumeralNoBreaks(start);
    if len.Some? {
      NumeralNoBreaks(len.value);
      assert NoBreaks(",");
      NoBreaksConcat(",", len.value);
    }
    NoBreaksConcat(start, RenderLen(len));
  }

  /** A header line written from numbers is one line of the patch. */
  lemma HeaderTextNoBreaks(oldStart: nat, oldLen: Option<nat>, newStart: nat, newLen: Option<nat>)
    ensures NoBreaks(HeaderText(oldStart, oldLen, newStart, newLen))
  {
    var g := Groups(Numeral(oldStart), NumeralOpt(oldLen), Numeral(newStart), NumeralOpt(newLen));
    var f1, f3 := Field(g.oldStart, g.oldLen), Field(g.newStart, g.newLen);
    FieldNoBreaks(g.oldStart, g.oldLen);
    FieldNoBreaks(g.newStart, g.newLen);
    assert NoBreaks("@@ -") && NoBreaks(" +") && NoBreaks(" @@");
    NoBreaksConcat("@@ -", f1);
    NoBreaksConcat("@@ -" + f1, " +");
    NoBreaksConcat("@@ -" + f1 + " +", f3);
    NoBreaksConcat("@@ -" + f1 + " +" + f3, " @@");
  }

  /** A header line written from numbers is a marker line that parses back
      to those numbers, with each omitted length read as 1, and holds no line
      boundary. */
  lemma HeaderTextLine(oldStart: nat, oldLen: Option<nat>, newStart: nat, newLen: Option<nat>)
    ensures var head := HeaderText(oldStart, oldLen, newStart, newLen);
      && ParseHeader(head) == Some(Header(oldStart, oldLen.GetOr(1), newStart, newLen.GetOr(1)))
      && IsMarker(head) && NoBreaks(head)
  {
    var head := HeaderText(oldStart, oldLen, newStart, newLen);
    ParseHeaderText(oldStart, oldLen, newStart, newLen, "");
    assert head + "" == head;
    HeaderStartsWithMarker(head);
    HeaderTextNoBreaks(oldStart, oldLen, newStart, newLen);
  }

  /** `splitlines()` also breaks at a form feed, so an added line `+x<FF>y`
      inside a hunk becomes two records: the added line `x` and a separate
      record for `y`, which takes line numbers of its own. */
  lemma FormFeedInBody(head: string, h: Header, x: string, y: string)
    requires ParseHeader(head) == Some(h) && IsMarker(head) && NoBreaks(head)
    requires NoBreaks(x) && NoBreaks(y) && |y| > 0 && !IsMarker(y)
    ensures ParsePatch(head + "\n" + ("+" + x) + "\U{0C}" + y) == [MakeHunk(h, ["+" + x, y])]
  {
    PlusNoBreaks(x);
    LineThenFormFeed(head, "+" + x, y);
    HeaderThenTwoLines(head, "+" + x, y);
  }

  lemma PlusNoBreaks(x: string)
    requires NoBreaks(x)
    ensures NoBreaks("+" + x) && ("+" + x)[0] == '+'
  {
    assert NoBreaks("+");
    NoBreaksConcat("+", x);
  }

  /** A header followed by an added line and a non-`@@` line: one hunk over both. */
  lemma HeaderThenTwoLines(head: string, added: string, y: string)
    requires IsMarker(head) && ParseHeader(head).Some?
    requires |added| > 0 && added[0] == '+' && !IsMarker(y)
    ensures Scan([head, added, y]) == [MakeHunk(ParseHeader(head).value, [added, y])]
  {
    var ls := [head, added, y];
    forall k | 1 <= k < |ls|
      ensures !IsMarker(ls[k])
    {
    }
    SingleHunk(ParseHeader, ls);
    assert ls[1..] == [added, y];
  }

  /** The ranges of the hunk a header line opens are inclusive: each end is
      the start plus the length minus 1, an omitted length counts as 1, and an
      explicit length 0 puts the end one below the start. The hunk has one
      line record per body line. */
  lemma HunkRanges(oldStart: nat, oldLen: Option<nat>, newStart: nat, newLen: Option<nat>,
                   rest: string, body: seq<string>)
    ensures var p := ParseHeader(HeaderText(oldStart, oldLen, newStart, newLen) + rest);
      && p.Some?
      && var h := MakeHunk(p.value, body);
      && h.oldStart == oldStart && h.oldEnd == oldStart + oldLen.GetOr(1) - 1
      && h.newStart == newStart && h.newEnd == newStart + newLen.GetOr(1) - 1
      && (oldLen == Some(0) ==> h.oldEnd == oldStart - 1)
      && (newLen == Some(0) ==> h.newEnd == newStart - 1)
      && |h.lines| == |body|
  {
    ParseHeaderText(oldStart, oldLen, newStart, newLen, rest);
  }

  /** A patch that is one header line followed by body lines, none of which
      starts `@@`, has exactly one hunk: that header's ranges over all the
      body lines. */
  lemma SingleHunkPatch(head: string, h: Header, body: seq<string>)
    requires ParseHeader(head) == Some(h) && IsMarker(head) && NoBreaks(head)
    requires forall k :: 0 <= k < |body| ==> NoBreaks(body[k]) && !IsMarker(body[k])
    requires |body| > 0 ==> |body[|body| - 1]| > 0
    ensures ParsePatch(JoinLines([head] + body)) == [MakeHunk(h, body)]
  {
    var ls := [head] + body;
    assert SplitLines(JoinLines(ls)) == ls by {
      forall k | 0 <= k < |ls|
        ensures NoBreaks(ls[k])
      {
        if k > 0 {
          assert ls[k] == body[k - 1];
        }
      }
      SplitJoin(ls);
    }
    assert ScanFrom(ParseHeader, ls, 0) == [MakeHunk(h, body)] by {
      forall k | 1 <= k < |ls|
        ensures !IsMarker(ls[k])
      {
        assert ls[k] == body[k - 1];
      }
      SingleHunk(ParseHeader, ls);
      assert ls[1..] == body;
    }
  }

  /** The entry a file-change record describes. */
  function AsInput(c: FileChange): FileInput {
    FileInput(c.filenameAfter, c.status, Some(c.patch))
  }

  /** Parsing again the patch text kept in a file-change record rebuilds the
      same record, hunks included, also when the original entry had no patch. */
  lemma ReparseStable(f: FileInput)
    ensures BuildFileChange(AsInput(BuildFileChange(f))) == BuildFileChange(f)
  {
    if f.patch.None? {
      assert SplitLines("") == [];
      assert Scan([]) == [];
    }
  }
}
