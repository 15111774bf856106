/** The hunk-header line `@@ -a[,b] +c[,d] @@` of the unified diff format
    (as produced by GNU diff and git), matched at the start of a line the
    way the anchored regular expression of `_build_commit_data` does, and
    the integer conversion of its digit groups. */
module Headers {
  import opened Options

  predicate IsDigit(c: char) {
    '0' <= c <= '9'
  }

  predicate AllDigits(s: string) {
    forall i :: 0 <= i < |s| ==> IsDigit(s[i])
  }

  /** What one `\d+` group matches: a non-empty run of digits. */
  predicate IsNumeral(s: string) {
    |s| > 0 && AllDigits(s)
  }

  /** The longest prefix of `s` made of digits (what a greedy `\d*` takes). */
  function DigitPrefix(s: string): (d: string)
    ensures d <= s
    ensures AllDigits(d)
    ensures |d| == |s| || !IsDigit(s[|d|])
    decreases |s|
  {
    if |s| > 0 && IsDigit(s[0]) then [s[0]] + DigitPrefix(s[1..]) else []
  }

  /** The greedy digit run stops exactly where the digits stop. */
  lemma {:induction false} DigitPrefixOf(d: string, t: string)
    requires AllDigits(d)
    requires |t| == 0 || !IsDigit(t[0])
    ensures DigitPrefix(d + t) == d
    decreases |d|
  {
    if |d| > 0 {
      assert (d + t)[1..] == d[1..] + t;
      DigitPrefixOf(d[1..], t);
      assert [d[0]] + d[1..] == d;
    } else {
      assert d + t == t;
    }
  }

  /** The four capture groups of the header pattern; a length group is absent
      when the header omits it. */
  datatype Groups = Groups(oldStart: string, oldLen: Option<string>, newStart: string, newLen: Option<string>)

  predicate WellFormed(g: Groups) {
    && IsNumeral(g.oldStart)
    && (g.oldLen.Some? ==> IsNumeral(g.oldLen.value))
    && IsNumeral(g.newStart)
    && (g.newLen.Some? ==> IsNumeral(g.newLen.value))
  }

  /** The text of an optional `,<digits>` length group. */
  function RenderLen(len: Option<string>): string {
    match len
    case None => ""
    case Some(d) => "," + d
  }

  /** The text of a start group and its optional length group. */
  function Field(start: string, len: Option<string>): string {
    start + RenderLen(len)
  }

  /** The shortest text the header pattern accepts with the given groups. */
  function Render(g: Groups): string {
    "@@ -" + Field(g.oldStart, g.oldLen) + " +" + Field(g.newStart, g.newLen) + " @@"
  }

  lemma Assoc(a: string, b: string, c: string)
    ensures a + (b + c) == (a + b) + c
  {
  }

  /** The optional group `(?:,(\d+))?` at the front of `s`, and what follows it. */
  function OptionalLen(s: string): (r: (Option<string>, string))
    ensures RenderLen(r.0) + r.1 == s
    ensures r.0.Some? ==> IsNumeral(r.0.value)
  {
    if |s| > 0 && s[0] == ',' then
      var d := DigitPrefix(s[1..]);
      if |d| > 0 then
        assert s == "," + d + s[1..][|d|..];
        (Some(d), s[1..][|d|..])
      else (None, s)
    else (None, s)
  }

  lemma OptionalLenOf(len: Option<string>, t: string)
    requires len.Some? ==> IsNumeral(len.value)
    requires |t| > 0 && t[0] == ' '
    ensures OptionalLen(RenderLen(len) + t) == (len, t)
  {
    if len.Some? {
      var s := RenderLen(len) + t;
      assert RenderLen(len) == "," + len.value;
      assert s[0] == ',';
      assert s[1..] == len.value + t;
      DigitPrefixOf(len.value, t);
      assert DigitPrefix(s[1..]) == len.value;
      assert s[1..][|len.value|..] == t;
    } else {
      assert RenderLen(len) + t == t;
    }
  }

  /** A start group with its optional length group, `(\d+)(?:,(\d+))?`, at the
      front of `s`, and what follows them. */
  function NumberField(s: string): (r: Option<(string, Option<string>, string)>)
    ensures r.Some? ==> IsNumeral(r.value.0) && (r.value.1.Some? ==> IsNumeral(r.value.1.value))
    ensures r.Some? ==> s == Field(r.value.0, r.value.1) + r.value.2
  {
    var d := DigitPrefix(s);
    if |d| == 0 then None
    else
      var p := OptionalLen(s[|d|..]);
      GlueField(s, d, p.0, p.1);
      Some((d, p.0, p.1))
  }

  lemma GlueField(s: string, d: string, len: Option<string>, rest: string)
    requires d <= s
    requires RenderLen(len) + rest == s[|d|..]
    ensures s == Field(d, len) + rest
  {
    calc {
      s;
      d + s[|d|..];
      d + (RenderLen(len) + rest);
      { Assoc(d, RenderLen(len), rest); }
      Field(d, len) + rest;
    }
  }

  lemma NumberFieldOf(d: string, len: Option<string>, t: string)
    requires IsNumeral(d) && (len.Some? ==> IsNumeral(len.value))
    requires |t| > 0 && t[0] == ' '
    ensures NumberField(Field(d, len) + t) == Some((d, len, t))
  {
    var s := Field(d, len) + t;
    var u := RenderLen(len) + t;
    assert s == d + u by { Assoc(d, RenderLen(len), t); }
    assert |u| > 0 && !IsDigit(u[0]);
    DigitPrefixOf(d, u);
    assert s[|d|..] == u;
    OptionalLenOf(len, t);
  }

  /** Gluing the pieces the matcher consumed gives the header text as a prefix. */
  lemma RenderIsPrefix(line: string, g: Groups, s2: string, s4: string)
    requires "@@ -" <= line
    requires line[4..] == Field(g.oldStart, g.oldLen) + s2
    requires " +" <= s2
    requires s2[2..] == Field(g.newStart, g.newLen) + s4
    requires " @@" <= s4
    ensures Render(g) <= line
  {
    var rest := s4[3..];
    RenderGlue(g, rest);
    calc {
      line;
      "@@ -" + line[4..];
      "@@ -" + (Field(g.oldStart, g.oldLen) + s2);
      { assert s2 == " +" + s2[2..]; }
      "@@ -" + (Field(g.oldStart, g.oldLen) + (" +" + (Field(g.newStart, g.newLen) + s4)));
      { assert s4 == " @@" + rest; }
      "@@ -" + (Field(g.oldStart, g.oldLen) + (" +" + (Field(g.newStart, g.newLen) + (" @@" + rest))));
      Render(g) + rest;
    }
  }

  /** `Render(g) + rest`, nested to the right the way the matcher consumes it. */
  lemma RenderGlue(g: Groups, rest: string)
    ensures Render(g) + rest
         == "@@ -" + (Field(g.oldStart, g.oldLen) + (" +" + (Field(g.newStart, g.newLen) + (" @@" + rest))))
  {
    var a, b, c, d, e := "@@ -", Field(g.oldStart, g.oldLen), " +", Field(g.newStart, g.newLen), " @@";
    calc {
      a + (b + (c + (d + (e + rest))));
      { Assoc(a, b, c + (d + (e + rest))); }
      (a + b) + (c + (d + (e + rest)));
      { Assoc(a + b, c, d + (e + rest)); }
      ((a + b) + c) + (d + (e + rest));
      { Assoc((a + b) + c, d, e + rest); }
      (((a + b) + c) + d) + (e + rest);
      { Assoc(((a + b) + c) + d, e, rest); }
      ((((a + b) + c) + d) + e) + rest;
    }
  }

  /** Match of `^@@ -(\d+)(?:,(\d+))? \+(\d+)(?:,(\d+))? @@` at the start of
      `line`; whatever follows the closing `@@` is ignored. The digit runs are
      taken greedily without backtracking: a shorter run would leave a digit
      where the pattern needs `,` or a space, so no other match exists. */
  function MatchHeader(line: string): (r: Option<Groups>)
    ensures r.Some? ==> WellFormed(r.value) && Render(r.value) <= line
  {
    if !("@@ -" <= line) then None
    else
      match NumberField(line[4..])
      case None => None
      case Some(f1) =>
        var s2 := f1.2;
        if !(" +" <= s2) then None
        else
          match NumberField(s2[2..])
          case None => None
          case Some(f3) =>
            if !(" @@" <= f3.2) then None
            else
              var g := Groups(f1.0, f1.1, f3.0, f3.1);
              RenderIsPrefix(line, g, s2, f3.2);
              Some(g)
  }

  /** The matcher accepts every well-formed header text, followed by anything,
      and returns exactly its groups. */
  lemma MatchRender(g: Groups, rest: string)
    requires WellFormed(g)
    ensures MatchHeader(Render(g) + rest) == Some(g)
  {
    var line := Render(g) + rest;
    var t4 := " @@" + rest;
    var t2 := " +" + (Field(g.newStart, g.newLen) + t4);
    assert "@@ -" <= line && NumberField(line[4..]) == Some((g.oldStart, g.oldLen, t2)) by {
      RenderGlue(g, rest);
      assert line[4..] == Field(g.oldStart, g.oldLen) + t2;
      NumberFieldOf(g.oldStart, g.oldLen, t2);
    }
    assert " +" <= t2 && NumberField(t2[2..]) == Some((g.newStart, g.newLen, t4)) by {
      assert t2[2..] == Field(g.newStart, g.newLen) + t4;
      NumberFieldOf(g.newStart, g.newLen, t4);
    }
    MatchSteps(line, g, t2, t4);
  }

  /** The matcher's successful path, step by step. */
  lemma MatchSteps(line: string, g: Groups, s2: string, s4: string)
    requires "@@ -" <= line && NumberField(line[4..]) == Some((g.oldStart, g.oldLen, s2))
    requires " +" <= s2 && NumberField(s2[2..]) == Some((g.newStart, g.newLen, s4))
    requires " @@" <= s4
    ensures MatchHeader(line) == Some(g)
  {
  }

  /** A line matches the header pattern with groups `g` exactly when `g` is
      well formed and its rendering starts the line. */
  lemma MatchHeaderIff(line: string, g: Groups)
    ensures MatchHeader(line) == Some(g) <==> WellFormed(g) && Render(g) <= line
  {
    if WellFormed(g) && Render(g) <= line {
      MatchRender(g, line[|Render(g)|..]);
      assert Render(g) + line[|Render(g)|..] == line;
    }
  }

  // ----- int() of a digit group -----

  function DigitValue(c: char): nat
    requires IsDigit(c)
  {
    c as int - '0' as int
  }

  function DigitChar(n: nat): (c: char)
    requires n < 10
    ensures IsDigit(c) && DigitValue(c) == n
  {
    ('0' as int + n) as char
  }

  /** The decimal value of a string of ASCII digits (Python's `int()` on it). */
  function Value(d: string): nat
    requires AllDigits(d)
    decreases |d|
  {
    if |d| == 0 then 0 else 10 * Value(d[..|d| - 1]) + DigitValue(d[|d| - 1])
  }

  /** The shortest decimal numeral of `n`. */
  function Numeral(n: nat): (d: string)
    ensures IsNumeral(d)
    decreases n
  {
    if n < 10 then [DigitChar(n)] else Numeral(n / 10) + [DigitChar(n % 10)]
  }

  lemma {:induction false} ValueOfNumeral(n: nat)
    ensures Value(Numeral(n)) == n
    decreases n
  {
    if n >= 10 {
      var d := Numeral(n);
      assert d[..|d| - 1] == Numeral(n / 10);
      ValueOfNumeral(n / 10);
    }
  }

  /** Leading zeros do not change the value (`int("007") == 7`). */
  lemma {:induction false} LeadingZero(d: string)
    requires AllDigits(d)
    ensures Value("0" + d) == Value(d)
    decreases |d|
  {
    if |d| > 0 {
      var z := "0" + d;
      assert z[..|z| - 1] == "0" + d[..|d| - 1];
      assert z[|z| - 1] == d[|d| - 1];
      LeadingZero(d[..|d| - 1]);
    } else {
      assert Value("0") == 10 * Value("") + DigitValue('0');
    }
  }

  // ----- header values -----

  /** The header's numbers: starts, and lengths with an omitted length read as 1. */
  datatype Header = Header(oldStart: nat, oldLen: nat, newStart: nat, newLen: nat)

  /** `int(group or '1')`. */
  function LenValue(len: Option<string>): nat
    requires len.Some? ==> IsNumeral(len.value)
  {
    match len
    case None => 1
    case Some(d) => Value(d)
  }

  function ToHeader(g: Groups): Header
    requires WellFormed(g)
  {
    Header(Value(g.oldStart), LenValue(g.oldLen), Value(g.newStart), LenValue(g.newLen))
  }

  function ParseHeader(line: string): Option<Header> {
    match MatchHeader(line)
    case None => None
    case Some(g) => Some(ToHeader(g))
  }

  function NumeralOpt(n: Option<nat>): Option<string> {
    match n
    case None => None
    case Some(k) => Some(Numeral(k))
  }

  /** The header text of the given numbers (a length written only when given). */
  function HeaderText(oldStart: nat, oldLen: Option<nat>, newStart: nat, newLen: Option<nat>): string {
    Render(Groups(Numeral(oldStart), NumeralOpt(oldLen), Numeral(newStart), NumeralOpt(newLen)))
  }

  /** Parsing a header written from numbers gives those numbers back, with each
      omitted length read as 1, whatever follows the header on the line. */
  lemma ParseHeaderText(oldStart: nat, oldLen: Option<nat>, newStart: nat, newLen: Option<nat>, rest: string)
    ensures ParseHeader(HeaderText(oldStart, oldLen, newStart, newLen) + rest)
         == Some(Header(oldStart, oldLen.GetOr(1), newStart, newLen.GetOr(1)))
  {
    var g := Groups(Numeral(oldStart), NumeralOpt(oldLen), Numeral(newStart), NumeralOpt(newLen));
    MatchRender(g, rest);
    ValueOfNumeral(oldStart);
    ValueOfNumeral(newStart);
    if oldLen.Some? { ValueOfNumeral(oldLen.value); }
    if newLen.Some? { ValueOfNumeral(newLen.value); }
  }

  /** Every line the pattern accepts starts with `@@`. */
  lemma HeaderStartsWithMarker(line: string)
    requires MatchHeader(line).Some?
    ensures "@@" <= line
  {
  }
}
