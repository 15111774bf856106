/** A worked hunk: a header followed by
         <context>
        -<removed>
        +<added>
        +<added 2>
    where the four texts are parameters: any texts without a line boundary,
    the removed text not starting `--` and the added texts not starting `++`.
    The generic statement is instantiated with the header `@@ -1,2 +1,3 @@`;
    a malformed `@@` line is shown to yield no hunk. */
module Examples {
  import opened Options
  import opened Lines
  import opened Headers
  import opened Hunks
  import opened Commits

  /** The body: a context line, a removed line and two added lines. */
  function Body(ctx: string, removed: string, added: string, added2: string): seq<string> {
    [" " + ctx, "-" + removed, "+" + added, "+" + added2]
  }

  /** The body lines are numbered from `oldNo` and `newNo`: the context line
      takes both, the removed line the next old number, the added lines the
      next two new numbers. */
  lemma BodyNumbers(ctx: string, removed: string, added: string, added2: string, oldNo: nat, newNo: nat)
    requires !("--" <= removed) && !("++" <= added) && !("++" <= added2)
    ensures HunkLines(Body(ctx, removed, added, added2), oldNo, newNo) == [
              LineChange(Unchanged, ctx, Some(oldNo), Some(newNo)),
              LineChange(Removed, removed, Some(oldNo + 1), None),
              LineChange(Added, added, None, Some(newNo + 1)),
              LineChange(Added, added2, None, Some(newNo + 2))]
  {
    var body := Body(ctx, removed, added, added2);
    ContextLineStripped(ctx, oldNo, newNo);
    RemovedLineStripped(removed, oldNo + 1, newNo + 1);
    AddedLineStripped(added, oldNo + 2, newNo + 1);
    AddedLineStripped(added2, oldNo + 2, newNo + 2);
    assert body[1..][1..][1..][1..] == [];
    assert HunkLines(body[3..], oldNo + 2, newNo + 2) == [LineChange(Added, added2, None, Some(newNo + 2))];
    assert body[2..][1..] == body[3..];
    assert HunkLines(body[2..], oldNo + 2, newNo + 1)
      == [LineChange(Added, added, None, Some(newNo + 1))] + HunkLines(body[3..], oldNo + 2, newNo + 2);
    assert body[1..][1..] == body[2..];
    assert HunkLines(body[1..], oldNo + 1, newNo + 1)
      == [LineChange(Removed, removed, Some(oldNo + 1), None)] + HunkLines(body[2..], oldNo + 2, newNo + 1);
  }

  /** Each body line is one line of the patch and none starts `@@`. */
  lemma BodyLines(ctx: string, removed: string, added: string, added2: string)
    requires NoBreaks(ctx) && NoBreaks(removed) && NoBreaks(added) && NoBreaks(added2)
    ensures var body := Body(ctx, removed, added, added2);
      forall k :: 0 <= k < |body| ==> NoBreaks(body[k]) && !IsMarker(body[k])
  {
    var body := Body(ctx, removed, added, added2);
    forall k | 0 <= k < |body|
      ensures NoBreaks(body[k]) && !IsMarker(body[k])
    {
      var marker := [body[k][0]];
      assert body[k] == marker + body[k][1..];
      assert NoBreaks(marker);
      NoBreaksConcat(marker, body[k][1..]);
    }
  }

  /** The hunk that header `h` opens over the body spans o..o+ol-1 and
      n..n+nl-1, whatever lengths the header declares (they are not checked
      against the body); the context line takes numbers o and n, the removed
      line old number o+1, the added lines new numbers n+1 and n+2. */
  lemma HunkOfBody(h: Header, ctx: string, removed: string, added: string, added2: string)
    requires !("--" <= removed) && !("++" <= added) && !("++" <= added2)
    ensures MakeHunk(h, Body(ctx, removed, added, added2))
      == Hunk(h.oldStart, h.oldStart + h.oldLen - 1, h.newStart, h.newStart + h.newLen - 1, [
           LineChange(Unchanged, ctx, Some(h.oldStart), Some(h.newStart)),
           LineChange(Removed, removed, Some(h.oldStart + 1), None),
           LineChange(Added, added, None, Some(h.newStart + 1)),
           LineChange(Added, added2, None, Some(h.newStart + 2))])
  {
    BodyNumbers(ctx, removed, added, added2, h.oldStart, h.newStart);
  }

  /** The patch made of a header line and the body parses to the one hunk the header opens. */
  lemma PatchOfHeaderAndBody(head: string, h: Header, ctx: string, removed: string, added: string, added2: string)
    requires ParseHeader(head) == Some(h) && IsMarker(head) && NoBreaks(head)
    requires NoBreaks(ctx) && NoBreaks(removed) && NoBreaks(added) && NoBreaks(added2)
    ensures ParsePatch(JoinLines([head] + Body(ctx, removed, added, added2)))
      == [MakeHunk(h, Body(ctx, removed, added, added2))]
  {
    BodyLines(ctx, removed, added, added2);
    SingleHunkPatch(head, h, Body(ctx, removed, added, added2));
  }

  lemma ExampleHeaderText()
    ensures HeaderText(1, Some(2), 1, Some(3)) == "@@ -1,2 +1,3 @@"
  {
    assert Numeral(1) == "1" && Numeral(2) == "2" && Numeral(3) == "3";
  }

  lemma ExampleHeader()
    ensures var head := "@@ -1,2 +1,3 @@";
      ParseHeader(head) == Some(Header(1, 2, 1, 3)) && IsMarker(head) && NoBreaks(head)
  {
    ExampleHeaderText();
    HeaderTextLine(1, Some(2), 1, Some(3));
  }

  /** The patch
        @@ -1,2 +1,3 @@
         <context>
        -<removed>
        +<added>
        +<added 2>
      has one hunk with ranges 1..2 and 1..3: the context line is old 1 and
      new 1, the removed line old 2, the added lines new 2 and new 3. */
  lemma ExampleModifiedFile(ctx: string, removed: string, added: string, added2: string)
    requires NoBreaks(ctx) && NoBreaks(removed) && NoBreaks(added) && NoBreaks(added2)
    requires !("--" <= removed) && !("++" <= added) && !("++" <= added2)
    ensures var patch := JoinLines(["@@ -1,2 +1,3 @@"] + Body(ctx, removed, added, added2));
      BuildFileChange(FileInput("a.py", Modified, Some(patch))).hunks == [Hunk(1, 2, 1, 3, [
        LineChange(Unchanged, ctx, Some(1), Some(1)),
        LineChange(Removed, removed, Some(2), None),
        LineChange(Added, added, None, Some(2)),
        LineChange(Added, added2, None, Some(3))])]
  {
    var head := "@@ -1,2 +1,3 @@";
    ExampleHeader();
    PatchOfHeaderAndBody(head, Header(1, 2, 1, 3), ctx, removed, added, added2);
    HunkOfBody(Header(1, 2, 1, 3), ctx, removed, added, added2);
    ModifiedFileHunks("a.py", JoinLines([head] + Body(ctx, removed, added, added2)));
  }

  /** A line that starts `@@` but fails the header pattern opens no hunk, so
      the line after it is dropped too. */
  lemma ExampleGarbageHeader()
    ensures BuildFileChange(FileInput("a.py", Modified, Some(JoinLines(["@@ garbage @@", "+x"])))).hunks == []
  {
    var ls := ["@@ garbage @@", "+x"];
    SplitJoin(ls);
    assert ls[0][3] == 'g';
    assert ParseHeader(ls[0]) == None;
    assert ScanFrom(ParseHeader, ls, 0) == ScanFrom(ParseHeader, ls, 1);
    assert ls[1][0] == '+';
  }
}
