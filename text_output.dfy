/** The plain-text rendering of one diagnostic:

      <path>:<line>:<column> Error: <description>
      Found in:
      <label> <source line>
      ...

    where the lines shown are those of the diagnostic's range, each labelled
    with its 1-based number, right-aligned to the width of the last line's
    number. */
module TextOutput {
  import opened LintTypes

  // ---------------------------------------------------------------------
  // Numbers

  function Pow10(k: nat): nat {
    if k == 0 then 1 else 10 * Pow10(k - 1)
  }

  /** The integer base-10 logarithm, rounded down (undefined at 0). */
  function Ilog10(n: nat): nat
    requires n >= 1
  {
    if n < 10 then 0 else 1 + Ilog10(n / 10)
  }

  /** Ilog10(n) is the k with 10^k <= n < 10^(k+1). */
  lemma {:induction false} Ilog10Bounds(n: nat)
    requires n >= 1
    ensures Pow10(Ilog10(n)) <= n < Pow10(Ilog10(n) + 1)
  {
    if n >= 10 {
      var k := Ilog10(n / 10);
      Ilog10Bounds(n / 10);
      assert Pow10(k + 1) == 10 * Pow10(k);
      assert Pow10(k + 2) == 10 * Pow10(k + 1);
      assert n / 10 + 1 <= Pow10(k + 1);
      assert n < 10 * (n / 10 + 1);
    }
  }

  lemma {:induction false} Ilog10Monotone(a: nat, b: nat)
    requires 1 <= a <= b
    ensures Ilog10(a) <= Ilog10(b)
  {
    if a >= 10 {
      Ilog10Monotone(a / 10, b / 10);
    }
  }

  function DigitChar(d: nat): (c: char)
    requires d < 10
    ensures '0' <= c <= '9'
  {
    (48 + d) as char
  }

  /** The decimal representation of n, as Rust's `Display` writes it. */
  function Decimal(n: nat): (s: string)
    ensures |s| > 0
  {
    if n < 10 then [DigitChar(n)] else Decimal(n / 10) + [DigitChar(n % 10)]
  }

  predicate IsDigits(s: string) {
    forall i :: 0 <= i < |s| ==> '0' <= s[i] <= '9'
  }

  /** The number a string of decimal digits denotes. */
  function ParseDecimal(s: string): nat
    requires IsDigits(s)
  {
    if s == [] then 0
    else 10 * ParseDecimal(s[..|s| - 1]) + (s[|s| - 1] as int - 48)
  }

  /** Decimal is the canonical digit string of n: it reads back as n and has
      no leading zero. */
  lemma {:induction false} DecimalRoundTrip(n: nat)
    ensures IsDigits(Decimal(n))
    ensures ParseDecimal(Decimal(n)) == n
    ensures |Decimal(n)| > 1 ==> Decimal(n)[0] != '0'
  {
    if n >= 10 {
      DecimalRoundTrip(n / 10);
      var s := Decimal(n);
      assert s[..|s| - 1] == Decimal(n / 10);
      assert s[0] == Decimal(n / 10)[0];
    }
  }

  /** A positive number has Ilog10(n) + 1 digits. */
  lemma {:induction false} DecimalLength(n: nat)
    requires n >= 1
    ensures |Decimal(n)| == Ilog10(n) + 1
  {
    if n >= 10 {
      DecimalLength(n / 10);
    }
  }

  function Spaces(k: nat): (s: string)
    ensures |s| == k && forall i :: 0 <= i < k ==> s[i] == ' '
  {
    seq(k, _ => ' ')
  }

  // ---------------------------------------------------------------------
  // Lines

  /** The first line feed at or after i, or |s|. */
  function LineEnd(s: string, i: nat): (n: nat)
    requires i <= |s|
    ensures i <= n <= |s|
    ensures n < |s| ==> s[n] == '\n'
    ensures forall k :: i <= k < n ==> s[k] != '\n'
    decreases |s| - i
  {
    if i == |s| || s[i] == '\n' then i else LineEnd(s, i + 1)
  }

  function StripCR(l: string): string {
    if |l| > 0 && l[|l| - 1] == '\r' then l[..|l| - 1] else l
  }

  /** Rust's `str::lines`: the text split at each line feed, with one
      carriage return removed from the end of every line the line feed ends.
      A last line without a line feed is kept as it is, and a final line
      feed does not start an empty line. */
  function Lines(s: string): seq<string>
    decreases |s|
  {
    if s == [] then []
    else
      var n := LineEnd(s, 0);
      if n == |s| then [s] else [StripCR(s[..n])] + Lines(s[n + 1..])
  }

  /** Every line followed by a line feed. */
  function Unlines(ls: seq<string>): string {
    if ls == [] then "" else ls[0] + "\n" + Unlines(ls[1..])
  }

  /** No line contains a line feed. */
  lemma {:induction false} LinesHaveNoLineFeed(s: string)
    ensures forall i :: 0 <= i < |Lines(s)| ==> '\n' !in Lines(s)[i]
    decreases |s|
  {
    if s != [] {
      var n := LineEnd(s, 0);
      if n < |s| {
        LinesHaveNoLineFeed(s[n + 1..]);
        var l := s[..n];
        assert '\n' !in l by {
          forall k | 0 <= k < |l| ensures l[k] != '\n' {
            assert l[k] == s[k];
          }
        }
        assert '\n' !in StripCR(l);
        var ls := Lines(s);
        assert ls == [StripCR(l)] + Lines(s[n + 1..]);
        forall i | 1 <= i < |ls| ensures '\n' !in ls[i] {
          assert ls[i] == Lines(s[n + 1..])[i - 1];
        }
      } else {
        forall k | 0 <= k < |s| ensures s[k] != '\n' {
        }
      }
    }
  }

  /** Splitting text without carriage returns into lines and writing each
      back with a line feed gives the text again, with a line feed added
      when the last line had none. */
  lemma {:induction false} UnlinesLines(s: string)
    requires '\r' !in s
    ensures Unlines(Lines(s)) == if s == [] || s[|s| - 1] == '\n' then s else s + "\n"
    decreases |s|
  {
    if s != [] {
      var n := LineEnd(s, 0);
      if n == |s| {
        assert Lines(s) == [s];
        assert Unlines([s]) == s + "\n" + Unlines([]);
      } else {
        var l := s[..n];
        var rest := s[n + 1..];
        SliceLacks(s, '\r', n + 1, |s|);
        SliceLacks(s, '\r', 0, n);
        UnlinesLines(rest);
        UnlinesLinesStep(s, n);
      }
    }
  }

  /** One line of UnlinesLines: the first line, its line feed, the rest. */
  lemma UnlinesLinesStep(s: string, n: nat)
    requires n < |s| && n == LineEnd(s, 0) && '\r' !in s[..n]
    requires var rest := s[n + 1..];
      Unlines(Lines(rest)) == if rest == [] || rest[|rest| - 1] == '\n' then rest else rest + "\n"
    ensures Unlines(Lines(s)) == if s[|s| - 1] == '\n' then s else s + "\n"
  {
    var l := s[..n];
    var rest := s[n + 1..];
    assert |l| > 0 ==> l[|l| - 1] in l;
    assert StripCR(l) == l;
    LinesFirst(s, n, l, rest);
    UnlinesCons(l, Lines(rest));
    SplitAtLineFeed(s, n);
    if rest != [] && rest[|rest| - 1] != '\n' {
      assert s[|s| - 1] == rest[|rest| - 1];
      AppendAssoc(l + "\n", rest, "\n");
    }
  }

  /** The first line of text with a line feed at n, given by value. */
  lemma LinesFirst(s: string, n: nat, l: string, rest: string)
    requires n < |s| && n == LineEnd(s, 0)
    requires StripCR(s[..n]) == l && rest == s[n + 1..]
    ensures Lines(s) == [l] + Lines(rest)
  {
  }

  /** Text with a line feed at n is its first n characters, the line
      feed and the rest. */
  lemma SplitAtLineFeed(s: string, n: nat)
    requires n < |s| && s[n] == '\n'
    ensures s == s[..n] + "\n" + s[n + 1..]
  {
    assert s[n..] == [s[n]] + s[n + 1..];
    assert s == s[..n] + s[n..];
  }

  lemma UnlinesCons(l: string, xs: seq<string>)
    ensures Unlines([l] + xs) == l + "\n" + Unlines(xs)
  {
    assert ([l] + xs)[1..] == xs;
  }

  lemma SliceLacks(s: string, c: char, i: nat, j: nat)
    requires c !in s && i <= j <= |s|
    ensures c !in s[i..j]
  {
    forall k | i <= k < j ensures s[k] != c {
      assert s[k] in s;
    }
  }

  /** A line that `str::lines` would hand back unchanged. */
  predicate PlainLine(l: string) {
    '\n' !in l && (|l| > 0 ==> l[|l| - 1] != '\r')
  }

  /** Writing plain lines each with a line feed and splitting the result
      gives the lines back. */
  lemma {:induction false} LinesUnlines(xs: seq<string>)
    requires forall i :: 0 <= i < |xs| ==> PlainLine(xs[i])
    ensures Lines(Unlines(xs)) == xs
  {
    if xs != [] {
      var x := xs[0];
      var rest := Unlines(xs[1..]);
      var s := Unlines(xs);
      assert s == x + "\n" + rest;
      LinesUnlines(xs[1..]);
      assert s[|x|] == '\n';
      forall k | 0 <= k < |x| ensures s[k] != '\n' {
        assert s[k] == x[k];
      }
      LineEndAt(s, |x|);
      assert s[..|x|] == x;
      assert s[|x| + 1..] == rest;
      assert xs == [x] + xs[1..];
    }
  }

  lemma LineEndAt(s: string, n: nat)
    requires n < |s| && s[n] == '\n' && forall k :: 0 <= k < n ==> s[k] != '\n'
    ensures LineEnd(s, 0) == n
  {
  }

  lemma {:induction false} UnlinesSnoc(xs: seq<string>, x: string)
    ensures Unlines(xs + [x]) == Unlines(xs) + x + "\n"
  {
    if xs == [] {
      assert [] + [x] == [x];
      assert Unlines([x]) == x + "\n" + Unlines([]);
    } else {
      assert (xs + [x])[0] == xs[0];
      assert (xs + [x])[1..] == xs[1..] + [x];
      UnlinesSnoc(xs[1..], x);
      AppendAssoc(xs[0] + "\n", Unlines(xs[1..]) + x, "\n");
      AppendAssoc(xs[0] + "\n", Unlines(xs[1..]), x);
    }
  }

  // ---------------------------------------------------------------------
  // The diagnostic

  /** The lines a range covers: the source's lines from the range's first
      row, as many as the range has rows, fewer when the source ends first. */
  function Excerpt(source: string, r: Range): (ls: seq<string>)
    ensures |ls| <= r.endRow - r.startRow + 1
  {
    var all := Lines(source);
    var from := if r.startRow <= |all| then r.startRow else |all|;
    var upto := if from + (r.endRow - r.startRow + 1) <= |all| then from + (r.endRow - r.startRow + 1) else |all|;
    all[from..upto]
  }

  /** What Excerpt picks: line startRow + i of the source is its i-th line,
      and it has every row of the range the source has. */
  lemma ExcerptLines(source: string, r: Range)
    ensures var all := Lines(source);
      var ex := Excerpt(source, r);
      && (forall i :: 0 <= i < |ex| ==> r.startRow + i < |all| && ex[i] == all[r.startRow + i])
      && (r.endRow < |all| ==> |ex| == r.endRow - r.startRow + 1)
      && (r.startRow >= |all| ==> ex == [])
      && (r.startRow < |all| <= r.endRow ==> |ex| == |all| - r.startRow)
  {
  }

  /** The label of line l when the last line shown is e: the number padded
      on the left to the width of e. */
  function Label(l: nat, e: nat): string
    requires 1 <= l <= e
  {
    Ilog10Monotone(l, e);
    Spaces(Ilog10(e) - Ilog10(l)) + Decimal(l)
  }

  /** Every label of a snippet is exactly as wide as the last line's number,
      so the numbers are right-aligned. */
  lemma LabelWidth(l: nat, e: nat)
    requires 1 <= l <= e
    ensures |Label(l, e)| == |Decimal(e)|
    ensures Label(l, e)[|Label(l, e)| - |Decimal(l)|..] == Decimal(l)
    ensures forall i :: 0 <= i < |Label(l, e)| - |Decimal(l)| ==> Label(l, e)[i] == ' '
  {
    DecimalLength(l);
    DecimalLength(e);
    Ilog10Monotone(l, e);
  }

  /** The snippet lines shown for ls when its first line is number a and
      the last line of the range is number e. */
  function NumberedLines(ls: seq<string>, a: nat, e: nat): (r: seq<string>)
    requires 1 <= a && a + |ls| <= e + 1
    ensures |r| == |ls|
  {
    seq(|ls|, i requires 0 <= i < |ls| => Label(a + i, e) + " " + ls[i])
  }

  lemma NumberedLinesSnoc(ls: seq<string>, a: nat, e: nat, i: nat)
    requires 1 <= a && a + |ls| <= e + 1 && i < |ls|
    ensures NumberedLines(ls[..i + 1], a, e) == NumberedLines(ls[..i], a, e) + [Label(a + i, e) + " " + ls[i]]
  {
  }

  /** The first line of the report. */
  function Header(path: string, d: RawDiagnostic): string {
    path + ":" + Decimal(d.range.startRow + 1) + ":" + Decimal(d.range.startCol) + " Error: " + d.description
  }

  /** The lines of the report: the header, `Found in:`, and the numbered
      lines of the range. */
  function ReportLines(path: string, source: string, d: RawDiagnostic): seq<string> {
    [Header(path, d), "Found in:"] + NumberedLines(Excerpt(source, d.range), d.range.startRow + 1, d.range.endRow + 1)
  }

  lemma HeaderParts(path: string, start: string, d: RawDiagnostic)
    requires start == Decimal(d.range.startRow + 1) + ":" + Decimal(d.range.startCol)
    ensures path + ":" + start + " Error: " + d.description == Header(path, d)
  {
    var a := Decimal(d.range.startRow + 1);
    var b := Decimal(d.range.startCol);
    AppendAssoc(path + ":", a + ":", b);
    AppendAssoc(path + ":", a, ":");
  }

  /** The whole plain-text report of the diagnostic d found in source. */
  function TextDiagnostic(path: string, source: string, d: RawDiagnostic): string {
    Unlines(ReportLines(path, source, d))
  }

  /** Renders a diagnostic as text: a loop over the excerpt's lines builds the
      numbered snippet, and the header goes in front. */
  method PrintTextDiagnostic(path: string, source: string, d: RawDiagnostic) returns (s: string)
    ensures s == TextDiagnostic(path, source, d)
  {
    var snippet := "";
    var startLine := d.range.startRow + 1;
    var endLine := d.range.endRow + 1;
    var maxLineChars := Ilog10(endLine);
    var snippetLines := Excerpt(source, d.range);
    for i := 0 to |snippetLines|
      invariant snippet == Unlines(NumberedLines(snippetLines[..i], startLine, endLine))
    {
      var l := startLine + i;
      var lineChars := Ilog10(l);
      Ilog10Monotone(l, endLine);
      var padding := Spaces(maxLineChars - lineChars);
      NumberedLinesSnoc(snippetLines, startLine, endLine, i);
      UnlinesSnoc(NumberedLines(snippetLines[..i], startLine, endLine), padding + Decimal(l) + " " + snippetLines[i]);
      snippet := snippet + (padding + Decimal(l) + " " + snippetLines[i]) + "\n";
    }
    assert snippetLines[..|snippetLines|] == snippetLines;
    var start := Decimal(startLine) + ":" + Decimal(d.range.startCol);
    var header := path + ":" + start + " Error: " + d.description;
    HeaderParts(path, start, d);
    s := header + "\nFound in:\n" + snippet;
    UnlinesReport(header, NumberedLines(snippetLines, startLine, endLine));
  }

  /** The report written out: header line, `Found in:` line, snippet. */
  lemma UnlinesReport(h: string, xs: seq<string>)
    ensures Unlines([h, "Found in:"] + xs) == h + "\nFound in:\n" + Unlines(xs)
  {
    var ys := [h, "Found in:"] + xs;
    assert ys[0] == h && ys[1..] == ["Found in:"] + xs;
    assert ys[1..][0] == "Found in:" && ys[1..][1..] == xs;
    var u := Unlines(xs);
    assert Unlines(ys) == h + "\n" + ("Found in:" + "\n" + u);
    assert "\n" + ("Found in:" + "\n" + u) == "\nFound in:\n" + u;
    AppendAssoc(h, "\n", "Found in:" + "\n" + u);
  }

  /** Read back line by line, the report is its header, the line
      `Found in:`, and one numbered line per line of the range -- provided
      the path and the description hold no line feed, the description
      does not end in a carriage return, and no line of the source ends in
      a stray carriage return (LF and CRLF files both qualify). */
  lemma TextDiagnosticLines(path: string, source: string, d: RawDiagnostic)
    requires '\n' !in path
    requires PlainLine(d.description)
    requires NoStrayCR(source)
    ensures Lines(TextDiagnostic(path, source, d)) == ReportLines(path, source, d)
  {
    ReportLinesPlain(path, source, d);
    LinesUnlines(ReportLines(path, source, d));
  }

  lemma ReportLinesPlain(path: string, source: string, d: RawDiagnostic)
    requires '\n' !in path
    requires PlainLine(d.description)
    requires NoStrayCR(source)
    ensures forall i :: 0 <= i < |ReportLines(path, source, d)| ==> PlainLine(ReportLines(path, source, d)[i])
  {
    var ex := Excerpt(source, d.range);
    var xs := NumberedLines(ex, d.range.startRow + 1, d.range.endRow + 1);
    HeaderPlain(path, d);
    ExcerptPlain(source, d.range);
    NumberedLinesPlain(ex, d.range.startRow + 1, d.range.endRow + 1);
    var ys := ReportLines(path, source, d);
    forall i | 0 <= i < |ys| ensures PlainLine(ys[i]) {
      if i >= 2 {
        assert ys[i] == xs[i - 2];
      }
    }
  }

  /** No line of the source, once its line ending is removed, ends in a
      carriage return. */
  predicate NoStrayCR(source: string) {
    forall i :: 0 <= i < |Lines(source)| ==>
      |Lines(source)[i]| == 0 || Lines(source)[i][|Lines(source)[i]| - 1] != '\r'
  }

  /** A source without carriage returns has no stray one. */
  lemma CRFreeHasNoStrayCR(source: string)
    requires '\r' !in source
    ensures NoStrayCR(source)
  {
    LinesHaveNoCR(source);
    forall i | 0 <= i < |Lines(source)| && |Lines(source)[i]| > 0
      ensures Lines(source)[i][|Lines(source)[i]| - 1] != '\r'
    {
      var l := Lines(source)[i];
      assert l[|l| - 1] in l;
    }
  }

  /** A CRLF file: the carriage returns belong to the line endings. */
  lemma CRLFHasNoStrayCR()
    ensures Lines("a\r\nb") == ["a", "b"]
    ensures NoStrayCR("a\r\nb")
  {
    var s := "a\r\nb";
    LineEndAt(s, 2);
    assert s[..2] == "a\r";
    assert StripCR("a\r") == "a";
    assert s[3..] == "b";
    assert LineEnd("b", 0) == 1;
    assert Lines("b") == ["b"];
  }

  /** The lines of a source without stray carriage returns are plain. */
  lemma ExcerptPlain(source: string, r: Range)
    requires NoStrayCR(source)
    ensures forall i :: 0 <= i < |Excerpt(source, r)| ==> PlainLine(Excerpt(source, r)[i])
  {
    LinesHaveNoLineFeed(source);
    ExcerptLines(source, r);
  }

  lemma NumberedLinesPlain(ls: seq<string>, a: nat, e: nat)
    requires 1 <= a && a + |ls| <= e + 1
    requires forall i :: 0 <= i < |ls| ==> PlainLine(ls[i])
    ensures forall i :: 0 <= i < |ls| ==> PlainLine(NumberedLines(ls, a, e)[i])
  {
    forall i | 0 <= i < |ls| ensures PlainLine(NumberedLines(ls, a, e)[i]) {
      LabelPlain(a + i, e);
      PrefixedPlain(Label(a + i, e) + " ", ls[i]);
    }
  }

  /** A label followed by a space is a plain line. */
  lemma LabelPlain(l: nat, e: nat)
    requires 1 <= l <= e
    ensures PlainLine(Label(l, e) + " ")
  {
    Ilog10Monotone(l, e);
    DecimalRoundTrip(l);
    var sp := Spaces(Ilog10(e) - Ilog10(l));
    var dl := Decimal(l);
    var p := sp + dl + " ";
    assert Label(l, e) + " " == p;
    forall k | 0 <= k < |p| ensures p[k] != '\n' {
      if k < |sp| {
        assert p[k] == sp[k];
      } else if k < |sp| + |dl| {
        assert p[k] == dl[k - |sp|];
      }
    }
    assert p[|p| - 1] == ' ';
  }

  /** The header line is plain when the path has no line feed and the
      description is plain. */
  lemma HeaderPlain(path: string, d: RawDiagnostic)
    requires '\n' !in path
    requires PlainLine(d.description)
    ensures PlainLine(Header(path, d))
  {
    var a := Decimal(d.range.startRow + 1);
    var b := Decimal(d.range.startCol);
    DecimalRoundTrip(d.range.startRow + 1);
    DecimalRoundTrip(d.range.startCol);
    var front := path + ":" + a + ":" + b + " Error: ";
    assert Header(path, d) == front + d.description;
    forall k | 0 <= k < |front| ensures front[k] != '\n' {
      if k < |path| {
        assert front[k] == path[k];
      } else if |path| + 1 <= k < |path| + 1 + |a| {
        assert front[k] == a[k - |path| - 1];
      } else if |path| + 2 + |a| <= k < |path| + 2 + |a| + |b| {
        assert front[k] == b[k - |path| - 2 - |a|];
      }
    }
    assert front[|front| - 1] == ' ';
    PrefixedPlain(front, d.description);
  }

  lemma {:induction false} LinesHaveNoCR(s: string)
    requires '\r' !in s
    ensures forall i :: 0 <= i < |Lines(s)| ==> '\r' !in Lines(s)[i]
    decreases |s|
  {
    if s != [] {
      var n := LineEnd(s, 0);
      if n < |s| {
        var rest := s[n + 1..];
        SliceLacks(s, '\r', n + 1, |s|);
        LinesHaveNoCR(rest);
        var l := s[..n];
        SliceLacks(s, '\r', 0, n);
        assert StripCR(l) == l;
        var ls := Lines(s);
        assert ls == [l] + Lines(rest);
        forall i | 0 <= i < |ls| ensures '\r' !in ls[i] {
          if i > 0 {
            assert ls[i] == Lines(rest)[i - 1];
          }
        }
      }
    }
  }

  /** Two plain pieces make a plain line. */
  lemma PrefixedPlain(p: string, l: string)
    requires PlainLine(p) && PlainLine(l)
    ensures PlainLine(p + l)
  {
    var s := p + l;
    if |l| == 0 {
      assert s == p;
    } else {
      assert s[|s| - 1] == l[|l| - 1];
    }
    forall k | 0 <= k < |s| ensures s[k] != '\n' {
      if k < |p| {
        assert s[k] == p[k];
      } else {
        assert s[k] == l[k - |p|];
      }
    }
  }
}
