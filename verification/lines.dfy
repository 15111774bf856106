/** Splitting a patch into lines the way Python's `str.splitlines()` does:
    every line boundary is removed, `\r\n` counts as one boundary, and a
    trailing boundary does not produce a final empty line. */
module Lines {

  /** The characters `str.splitlines()` treats as line boundaries. */
  predicate IsLineBreak(c: char) {
    || c == '\n' || c == '\r'
    || c == '\U{0B}' || c == '\U{0C}'
    || c == '\U{1C}' || c == '\U{1D}' || c == '\U{1E}'
    || c == '\U{85}' || c == '\U{2028}' || c == '\U{2029}'
  }

  predicate NoBreaks(s: string) {
    forall i :: 0 <= i < |s| ==> !IsLineBreak(s[i])
  }

  /** A concatenation has no boundary exactly when neither part has one. */
  lemma NoBreaksConcat(s: string, t: string)
    ensures NoBreaks(s + t) <==> NoBreaks(s) && NoBreaks(t)
  {
    if NoBreaks(s) && NoBreaks(t) {
      forall i | 0 <= i < |s + t|
        ensures !IsLineBreak((s + t)[i])
      {
        if i >= |s| {
          assert (s + t)[i] == t[i - |s|];
        }
      }
    }
    if NoBreaks(s + t) {
      forall i | 0 <= i < |s|
        ensures !IsLineBreak(s[i])
      {
        assert (s + t)[i] == s[i];
      }
      forall i | 0 <= i < |t|
        ensures !IsLineBreak(t[i])
      {
        assert (s + t)[|s| + i] == t[i];
      }
    }
  }

  /** Index of the first line boundary at or after `i`, or `|s|` if there is none. */
  function FirstBreak(s: string, i: nat): (k: nat)
    requires i <= |s|
    ensures i <= k <= |s|
    ensures forall j :: i <= j < k ==> !IsLineBreak(s[j])
    ensures k < |s| ==> IsLineBreak(s[k])
    decreases |s| - i
  {
    if i == |s| || IsLineBreak(s[i]) then i else FirstBreak(s, i + 1)
  }

  /** Number of characters the boundary at `k` occupies: two for `\r\n`, else one. */
  function BreakWidth(s: string, k: nat): (w: nat)
    requires k < |s| && IsLineBreak(s[k])
    ensures 1 <= w <= |s| - k
    ensures w == 2 <==> s[k] == '\r' && k + 1 < |s| && s[k + 1] == '\n'
  {
    if s[k] == '\r' && k + 1 < |s| && s[k + 1] == '\n' then 2 else 1
  }

  /** The lines of `s`, without their boundaries. */
  function SplitLines(s: string): (ls: seq<string>)
    ensures forall k :: 0 <= k < |ls| ==> NoBreaks(ls[k])
    ensures |ls| == 0 <==> |s| == 0
    decreases |s|
  {
    if |s| == 0 then []
    else
      var k := FirstBreak(s, 0);
      if k == |s| then [s]
      else [s[..k]] + SplitLines(s[k + BreakWidth(s, k)..])
  }

  /** The lines joined by `\n`, with no boundary after the last one. */
  function JoinLines(ls: seq<string>): string
    decreases |ls|
  {
    if |ls| == 0 then ""
    else if |ls| == 1 then ls[0]
    else ls[0] + "\n" + JoinLines(ls[1..])
  }

  /** Every line followed by `\n`. */
  function Terminated(ls: seq<string>): string
    decreases |ls|
  {
    if |ls| == 0 then "" else ls[0] + "\n" + Terminated(ls[1..])
  }

  /** A line followed by `\n` or `\r\n` splits off as one line, and
      splitting goes on after the boundary. */
  lemma SplitLinesCons(l: string, sep: string, rest: string)
    requires NoBreaks(l)
    requires sep == "\n" || sep == "\r\n"
    ensures SplitLines(l + sep + rest) == [l] + SplitLines(rest)
  {
    var s := l + sep + rest;
    var k := FirstBreak(s, 0);
    assert s[|l|] == sep[0];
    assert k == |l|;
    assert s[..k] == l;
    assert s[k + BreakWidth(s, k)..] == rest;
  }

  /** Splitting `\n`-joined lines gives the lines back, provided none holds a
      boundary and the last is not empty (an empty last line leaves only a
      trailing boundary, which splitting drops). */
  lemma {:induction false} SplitJoin(ls: seq<string>)
    requires forall k :: 0 <= k < |ls| ==> NoBreaks(ls[k])
    requires |ls| > 0 ==> |ls[|ls| - 1]| > 0
    ensures SplitLines(JoinLines(ls)) == ls
    decreases |ls|
  {
    if |ls| == 0 {
    } else if |ls| == 1 {
      var s := ls[0];
      assert FirstBreak(s, 0) == |s|;
    } else {
      SplitLinesCons(ls[0], "\n", JoinLines(ls[1..]));
      SplitJoin(ls[1..]);
      assert [ls[0]] + ls[1..] == ls;
    }
  }

  /** Splitting lines that each end in `\n` gives the lines back: the final
      boundary adds no empty line. */
  lemma {:induction false} SplitTerminated(ls: seq<string>)
    requires forall k :: 0 <= k < |ls| ==> NoBreaks(ls[k])
    ensures SplitLines(Terminated(ls)) == ls
    decreases |ls|
  {
    if |ls| > 0 {
      SplitLinesCons(ls[0], "\n", Terminated(ls[1..]));
      SplitTerminated(ls[1..]);
      assert [ls[0]] + ls[1..] == ls;
    }
  }

  /** A line followed by any one boundary character splits off as one line,
      and splitting goes on after it; a `\r` counts alone only when no `\n`
      follows it. */
  lemma SplitLinesAtBreak(l: string, c: char, rest: string)
    requires NoBreaks(l) && IsLineBreak(c)
    requires !(c == '\r' && |rest| > 0 && rest[0] == '\n')
    ensures SplitLines(l + [c] + rest) == [l] + SplitLines(rest)
  {
    var s := l + [c] + rest;
    assert s[|l|] == c;
    assert FirstBreak(s, 0) == |l|;
    assert s[..|l|] == l;
    assert s[|l| + 1..] == rest;
  }

  /** A non-empty text without a boundary is one line. */
  lemma SplitLinesSingle(l: string)
    requires NoBreaks(l) && |l| > 0
    ensures SplitLines(l) == [l]
  {
    assert FirstBreak(l, 0) == |l|;
  }

  /** A form feed (or any other boundary character besides `\n`) inside a
      text splits it: `+a<FF>b` is the two lines `+a` and `b`. */
  lemma FormFeedSplits(a: string, b: string)
    requires NoBreaks(a) && NoBreaks(b) && |b| > 0
    ensures SplitLines(a + "\U{0C}" + b) == [a, b]
  {
    SplitLinesAtBreak(a, '\U{0C}', b);
    SplitLinesSingle(b);
  }

  /** A line, `\n`, and a text holding one form feed give three lines. */
  lemma LineThenFormFeed(l: string, a: string, b: string)
    requires NoBreaks(l) && NoBreaks(a) && NoBreaks(b) && |b| > 0
    ensures SplitLines(l + "\n" + a + "\U{0C}" + b) == [l, a, b]
  {
    assert l + "\n" + a + "\U{0C}" + b == l + "\n" + (a + "\U{0C}" + b);
    SplitLinesCons(l, "\n", a + "\U{0C}" + b);
    FormFeedSplits(a, b);
  }

  /** `\r\n` is one boundary, not a boundary followed by an empty line. */
  lemma CrLfIsOneBoundary(a: string, b: string)
    requires NoBreaks(a) && NoBreaks(b) && |b| > 0
    ensures SplitLines(a + "\r\n" + b) == [a, b]
  {
    SplitLinesCons(a, "\r\n", b);
    assert FirstBreak(b, 0) == |b|;
  }
}
