/**
 * The lint report's source frame and totals: up to five numbered source lines around a message,
 * a right-aligned line-number gutter, a caret line under the reported line, and the warning and
 * error counts summed over all results. Terminal colours and bold are left out: they wrap parts
 * of the string in ANSI escape codes, and the visible text is the same without them.
 */
module ESLintFrame {
  import opened Wrappers
  import opened Text

  datatype LintMessage = LintMessage(line: int, column: int, message: string, fatal: bool)

  /** One file's lint result; `output` is the fixed source text, when there is one. */
  datatype LintResult = LintResult(output: Option<string>, warningCount: nat, errorCount: nat, messages: seq<LintMessage>)

  function Max(a: int, b: int): int { if a < b then b else a }
  function Min(a: int, b: int): int { if a < b then a else b }

  // ---------------------------------------------------------------------------------------------
  // splitting into lines

  /** `text.split(/\r?\n/)`: cut at every `\n`, together with a `\r` just before it. */
  function SplitLines(text: string): (lines: seq<string>)
    ensures |lines| >= 1
    decreases |text|
  {
    if text == [] then [""]
    else if text[0] == '\n' then [""] + SplitLines(text[1..])
    else if |text| >= 2 && text[0] == '\r' && text[1] == '\n' then [""] + SplitLines(text[2..])
    else
      var rest := SplitLines(text[1..]);
      [[text[0]] + rest[0]] + rest[1..]
  }

  predicate NoChar(s: string, c: char)
  {
    forall i :: 0 <= i < |s| ==> s[i] != c
  }

  /** No line holds a line feed, and a text without carriage returns is its lines joined by
      line feeds. */
  lemma {:induction false} SplitLinesJoin(text: string)
    ensures forall k :: 0 <= k < |SplitLines(text)| ==> NoChar(SplitLines(text)[k], '\n')
    ensures NoChar(text, '\r') ==> Join(SplitLines(text), "\n") == text
    decreases |text|
  {
    if text == [] {
    } else if text[0] == '\n' {
      SplitLinesJoin(text[1..]);
      assert NoChar(text, '\r') ==> NoChar(text[1..], '\r');
      JoinCons("", SplitLines(text[1..]), "\n");
    } else if |text| >= 2 && text[0] == '\r' && text[1] == '\n' {
      SplitLinesJoin(text[2..]);
      assert !NoChar(text, '\r');
    } else {
      var rest := SplitLines(text[1..]);
      SplitLinesJoin(text[1..]);
      assert NoChar(text, '\r') ==> NoChar(text[1..], '\r');
      var lines := SplitLines(text);
      forall k | 0 <= k < |lines| ensures NoChar(lines[k], '\n') {
        if k > 0 {
          assert lines[k] == rest[k];
        }
      }
      if NoChar(text, '\r') {
        JoinHead(text[0], rest, "\n");
        assert text == [text[0]] + text[1..];
      }
    }
  }

  lemma JoinCons(first: string, rest: seq<string>, sep: string)
    requires |rest| >= 1
    ensures Join([first] + rest, sep) == first + sep + Join(rest, sep)
  {
    assert ([first] + rest)[1..] == rest;
  }

  lemma JoinHead(c: char, parts: seq<string>, sep: string)
    requires |parts| >= 1
    ensures Join([[c] + parts[0]] + parts[1..], sep) == [c] + Join(parts, sep)
  {
    var ps := [[c] + parts[0]] + parts[1..];
    if |parts| > 1 {
      assert ps[1..] == parts[1..];
    }
  }

  // ---------------------------------------------------------------------------------------------
  // the frame

  /** `' ' + (' ' + num).slice(-width) + ' | '`. */
  function Gutter(num: int, width: nat): string
  {
    var numText := " " + IntToString(num);
    " " + Slice(numText, -(width as int), |numText|) + " | "
  }

  function RemoveDigits(s: string): (r: string)
    ensures forall i :: 0 <= i < |r| ==> !IsDigit(r[i])
  {
    if s == [] then "" else RemoveDigits(s[..|s| - 1]) + (if IsDigit(s[|s| - 1]) then "" else [s[|s| - 1]])
  }

  function KeepTabs(s: string): (r: string)
    ensures forall i :: 0 <= i < |r| ==> r[i] == '\t'
  {
    if s == [] then "" else KeepTabs(s[..|s| - 1]) + (if s[|s| - 1] == '\t' then [s[|s| - 1]] else "")
  }

  /** The caret line as written: the gutter with its digits removed, then only the tabs among the
      first `column - 1` characters of the line, then the caret. */
  function CaretLine(gutter: string, line: string, column: int): string
  {
    "\n " + RemoveDigits(gutter) + KeepTabs(Slice(line, 0, column - 1)) + "^"
  }

  /** One numbered line of the frame, with the caret line under the reported line. */
  function FrameLine(line: string, num: int, width: nat, message: LintMessage): string
  {
    var gutter := Gutter(num, width);
    if num == message.line then gutter + line + CaretLine(gutter, line, message.column) else gutter + line
  }

  /** The window of lines shown: from two lines above the reported one to two below, clipped to
      the text. */
  function WindowStart(message: LintMessage): int { Max(message.line - 3, 0) }
  function WindowEnd(message: LintMessage, count: nat): int { Min(message.line + 2, count) }

  function FrameLines(lines: seq<string>, message: LintMessage): seq<string>
  {
    var start := WindowStart(message);
    var end := WindowEnd(message, |lines|);
    var width := |IntToString(end)|;
    var window := Slice(lines, start, end);
    seq(|window|, i requires 0 <= i < |window| => FrameLine(window[i], start + 1 + i, width, message))
  }

  /** `_prettifySource(result, message)`. */
  function PrettifySource(result: LintResult, message: LintMessage): string
  {
    if result.output.None? || result.output.value == "" then ""
    else Join(FrameLines(SplitLines(result.output.value), message), "\n")
  }

  // ---------------------------------------------------------------------------------------------

  /** Without output text there is no frame. */
  lemma NoOutputNoFrame(result: LintResult, message: LintMessage)
    requires result.output.None? || result.output.value == ""
    ensures PrettifySource(result, message) == ""
  {
  }

  /** For a reported line inside the text, the frame shows the lines from `max(line-3, 0)` up to
      `min(line+2, #lines)`, numbered from one more than the start, the reported line among them. */
  lemma FrameWindow(lines: seq<string>, message: LintMessage)
    requires 1 <= message.line <= |lines|
    ensures var start := Max(message.line - 3, 0);
            var end := Min(message.line + 2, |lines|);
            var width := |IntToString(end)|;
            0 <= start < message.line <= end
            && |FrameLines(lines, message)| == end - start
            && forall i :: 0 <= i < end - start ==> FrameLines(lines, message)[i] == FrameLine(lines[start + i], start + 1 + i, width, message)
  {
    var start := Max(message.line - 3, 0);
    var end := Min(message.line + 2, |lines|);
    assert WindowStart(message) == start && WindowEnd(message, |lines|) == end;
    assert Slice(lines, start, end) == lines[start..end];
  }

  /** In such a frame only the reported line is followed by a caret line; every other line is its
      gutter and its text. */
  lemma OneCaret(lines: seq<string>, message: LintMessage)
    requires 1 <= message.line <= |lines|
    ensures var start := Max(message.line - 3, 0);
            var width := |IntToString(Min(message.line + 2, |lines|))|;
            var frame := FrameLines(lines, message);
            var gutter := Gutter(message.line, width);
            0 <= message.line - 1 - start < |frame|
            && frame[message.line - 1 - start] == gutter + lines[message.line - 1] + CaretLine(gutter, lines[message.line - 1], message.column)
            && forall i :: 0 <= i < |frame| && i != message.line - 1 - start ==> frame[i] == Gutter(start + 1 + i, width) + lines[start + i]
  {
    FrameWindow(lines, message);
  }

  /** The caret line has no digit, and between the stripped gutter and the caret it holds only
      tabs. */
  lemma CaretLineShape(gutter: string, line: string, column: int)
    ensures var c := CaretLine(gutter, line, column);
            StartsWith(c, "\n " + RemoveDigits(gutter)) && EndsWith(c, "^")
            && forall i :: |RemoveDigits(gutter)| + 2 <= i < |c| - 1 ==> c[i] == '\t'
  {
    var c := CaretLine(gutter, line, column);
    var tabs := KeepTabs(Slice(line, 0, column - 1));
    assert c == ("\n " + RemoveDigits(gutter)) + tabs + "^";
    forall i | |RemoveDigits(gutter)| + 2 <= i < |c| - 1 ensures c[i] == '\t' {
      assert c[i] == tabs[i - |RemoveDigits(gutter)| - 2];
    }
  }

  // ---------------------------------------------------------------------------------------------
  // gutter alignment

  /** `|String(n)|` never shrinks as `n` grows. */
  lemma {:induction false} DigitsMonotone(a: nat, b: nat)
    requires a <= b
    ensures |NatToString(a)| <= |NatToString(b)|
    decreases b
  {
    if a >= 10 {
      DigitsMonotone(a / 10, b / 10);
    }
  }

  lemma DigitsTimesTen(n: nat)
    requires n >= 1
    ensures |NatToString(10 * n)| == |NatToString(n)| + 1
  {
    assert (10 * n) / 10 == n;
  }

  /** Within a frame the numbers lie within four of the last one, so their lengths differ by at
      most one from the width. */
  lemma DigitsWithinFour(num: nat, end: nat)
    requires 1 <= num <= end <= num + 4
    ensures |NatToString(num)| <= |NatToString(end)| <= |NatToString(num)| + 1
  {
    DigitsMonotone(num, end);
    DigitsMonotone(end, 10 * num);
    DigitsTimesTen(num);
  }

  /** A gutter whose number is one digit shorter than the width, or as wide, is right-aligned to
      `width + 4` characters: a space, the label padded on the left, the number, " | ". */
  lemma GutterAligned(num: nat, width: nat)
    requires 1 <= width && |NatToString(num)| <= width <= |NatToString(num)| + 1
    ensures |Gutter(num, width)| == width + 4
    ensures EndsWith(Gutter(num, width), NatToString(num) + " | ")
  {
    var digits := NatToString(num);
    assert Gutter(num, width) == " " + Slice(" " + digits, -(width as int), |" " + digits|) + " | ";
    PaddedDigits(digits, width);
  }

  /** The string side of `GutterAligned`: the digits behind one padding space, cut to `width`. */
  lemma PaddedDigits(digits: string, width: nat)
    requires 1 <= width && |digits| <= width <= |digits| + 1
    ensures var g := " " + Slice(" " + digits, -(width as int), |" " + digits|) + " | ";
            |g| == width + 4 && EndsWith(g, digits + " | ")
  {
    var numText := " " + digits;
    SliceLast(numText, width);
    var cut := if width == |digits| then digits else numText;
    assert Slice(numText, -(width as int), |numText|) == cut by {
      if width == |digits| {
        assert numText[1..] == digits;
      }
    }
    var g := " " + cut + " | ";
    assert g == (" " + (if width == |digits| then "" else " ")) + (digits + " | ");
  }

  /** Every gutter of a frame around a line inside the text has the same length, so the source
      lines start in one column. */
  lemma FrameGuttersAligned(lines: seq<string>, message: LintMessage, i: nat)
    requires 1 <= message.line <= |lines|
    requires i < |FrameLines(lines, message)|
    ensures var start := Max(message.line - 3, 0);
            var end := Min(message.line + 2, |lines|);
            |Gutter(start + 1 + i, |IntToString(end)|)| == |IntToString(end)| + 4
  {
    var start := Max(message.line - 3, 0);
    var end := Min(message.line + 2, |lines|);
    FrameWindow(lines, message);
    DigitsWithinFour(start + 1 + i, end);
    GutterAligned(start + 1 + i, |NatToString(end)|);
  }

  // ---------------------------------------------------------------------------------------------
  // a caret that points at the column

  /** A character of the padding: tabs stay (so the padding expands like the text it sits under),
      everything else becomes a space. */
  function Blank(s: string): (r: string)
    ensures |r| == |s|
    ensures forall i :: 0 <= i < |s| ==> r[i] == (if s[i] == '\t' then '\t' else ' ')
  {
    if s == [] then "" else Blank(s[..|s| - 1]) + [if s[|s| - 1] == '\t' then '\t' else ' ']
  }

  /** The caret line with the digits and the text blanked instead of removed. */
  function AlignedCaretLine(gutter: string, line: string, column: int): string
  {
    "\n" + Blank(gutter) + Blank(Slice(line, 0, column - 1)) + "^"
  }

  /** The corrected caret sits exactly under the reported column of `gutter + line`: everything
      before it is blank, and it is as far from the start as that character. */
  lemma AlignedCaretUnderColumn(gutter: string, line: string, column: int)
    requires 1 <= column <= |line|
    ensures var c := AlignedCaretLine(gutter, line, column)[1..];
            var shown := gutter + line;
            |c| - 1 == |gutter| + column - 1
            && shown[|c| - 1] == line[column - 1]
            && c[|c| - 1] == '^'
            && forall i :: 0 <= i < |c| - 1 ==> IsWhitespace(c[i])
  {
    var pad := Slice(line, 0, column - 1);
    assert |pad| == column - 1;
    var c := AlignedCaretLine(gutter, line, column)[1..];
    assert c == Blank(gutter) + Blank(pad) + "^";
  }

  lemma GutterOfOne()
    ensures Gutter(1, 1) == " 1 | "
  {
    assert NatToString(1) == "1";
  }

  lemma RemoveDigitsOfGutter()
    ensures RemoveDigits(" 1 | ") == "  | "
  {
    var g := " 1 | ";
    assert g[..1][..0] == [] && RemoveDigits(g[..1]) == " ";
    assert g[..2][..1] == g[..1] && RemoveDigits(g[..2]) == " ";
    assert g[..3][..2] == g[..2] && RemoveDigits(g[..3]) == "  ";
    assert g[..4][..3] == g[..3] && RemoveDigits(g[..4]) == "  |";
    assert g[..4] == g[..|g| - 1];
  }

  lemma KeepTabsOfPlainText()
    ensures KeepTabs("let ") == ""
  {
    var p := "let ";
    assert p[..1][..0] == [] && KeepTabs(p[..1]) == "";
    assert p[..2][..1] == p[..1] && KeepTabs(p[..2]) == "";
    assert p[..3][..2] == p[..2] && KeepTabs(p[..3]) == "";
    assert p[..3] == p[..|p| - 1];
  }

  /** As written the caret misses the column: for `let x = y;` reported at line 1, column 5 (the
      `x`), the caret stands at index 5 of its line while the `x` stands at index 9 of the
      numbered line. */
  lemma CaretMissesColumn()
    ensures var gutter := Gutter(1, 1);
            var line := "let x = y;";
            gutter == " 1 | "
            && (gutter + line)[9] == 'x'
            && CaretLine(gutter, line, 5) == "\n   | ^"
            && CaretLine(gutter, line, 5)[1..][5] == '^'
  {
    GutterOfOne();
    RemoveDigitsOfGutter();
    KeepTabsOfPlainText();
    assert Slice("let x = y;", 0, 4) == "let ";
  }

  // ---------------------------------------------------------------------------------------------
  // totals

  /** `results.reduce((acc, curr) => acc + curr.warningCount, 0)`. */
  function WarningTotal(results: seq<LintResult>): nat
  {
    if results == [] then 0 else WarningTotal(results[..|results| - 1]) + results[|results| - 1].warningCount
  }

  /** The error total as written: it sums `warningCount` as well. */
  function ReportedErrorTotal(results: seq<LintResult>): nat
  {
    if results == [] then 0 else ReportedErrorTotal(results[..|results| - 1]) + results[|results| - 1].warningCount
  }

  /** The error total the report means: the sum of `errorCount`. */
  function ErrorTotal(results: seq<LintResult>): nat
  {
    if results == [] then 0 else ErrorTotal(results[..|results| - 1]) + results[|results| - 1].errorCount
  }

  /** The summary line, without its colours. */
  function Summary(results: seq<LintResult>): string
  {
    "\U{26A0}\U{FE0F} " + NatToString(WarningTotal(results)) + " warning(s) | \U{2716}\U{FE0F} "
    + NatToString(ReportedErrorTotal(results)) + " error(s)"
  }

  /** As written, the reported error total always equals the warning total. */
  lemma {:induction false} ReportedErrorsAreWarnings(results: seq<LintResult>)
    ensures ReportedErrorTotal(results) == WarningTotal(results)
  {
    if results != [] {
      ReportedErrorsAreWarnings(results[..|results| - 1]);
    }
  }

  /** One file with one error and no warning is reported with zero errors: the summary line reads
      "0 warning(s) | 0 error(s)". */
  lemma ReportedErrorsMissError()
    ensures var results := [LintResult(Some("x"), 0, 1, [])];
            ReportedErrorTotal(results) == 0 && ErrorTotal(results) == 1
    ensures Summary([LintResult(Some("x"), 0, 1, [])]) == "\U{26A0}\U{FE0F} 0 warning(s) | \U{2716}\U{FE0F} 0 error(s)"
  {
    var results := [LintResult(Some("x"), 0, 1, [])];
    assert results[..0] == [];
  }

  /** The corrected total adds up over a split of the results, and is zero exactly when no file
      has an error. */
  lemma {:induction false} ErrorTotalAppend(a: seq<LintResult>, b: seq<LintResult>)
    ensures ErrorTotal(a + b) == ErrorTotal(a) + ErrorTotal(b)
    decreases |b|
  {
    if b != [] {
      assert (a + b)[..|a + b| - 1] == a + b[..|b| - 1];
      ErrorTotalAppend(a, b[..|b| - 1]);
    } else {
      assert a + b == a;
    }
  }

  lemma {:induction false} ErrorTotalZero(results: seq<LintResult>)
    ensures ErrorTotal(results) == 0 <==> forall i :: 0 <= i < |results| ==> results[i].errorCount == 0
  {
    if results != [] {
      ErrorTotalZero(results[..|results| - 1]);
    }
  }
}
