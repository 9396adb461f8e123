/**
 * The string helpers of the client: line-ending normalisation, joining of
 * wrapped text, terminal colouring, and the prompts that read from the
 * terminal until they get an acceptable answer.  Standard input is a finite
 * sequence of lines; reading past its end is the end of input.
 */
module Utils {
  import opened Common

  // ------------------------------------------------------------------
  // format_
  // ------------------------------------------------------------------

  /** str.replace('\r\n', '\n'): left to right, without overlaps. */
  function ReplaceCrLf(s: string): (r: string)
    ensures |r| <= |s|
    decreases |s|
  {
    if |s| >= 2 && s[0] == '\r' && s[1] == '\n' then "\n" + ReplaceCrLf(s[2..])
    else if s == [] then []
    else [s[0]] + ReplaceCrLf(s[1..])
  }

  /** str.replace('\r', '\n'). */
  function ReplaceCr(s: string): (r: string)
    ensures |r| == |s| && '\r' !in r
  {
    if s == [] then [] else [if s[0] == '\r' then '\n' else s[0]] + ReplaceCr(s[1..])
  }

  /** format_: dos line endings to unix, and a final newline when it is missing. */
  function Format(s: string): (r: string)
    ensures '\r' !in r
    ensures |r| > 0 && r[|r| - 1] == '\n'
  {
    var t := ReplaceCr(ReplaceCrLf(s));
    if EndsWith(t, "\n") then t else t + "\n"
  }

  /** Neither replacement touches a text without carriage returns. */
  lemma {:induction false} ReplaceClean(s: string)
    requires '\r' !in s
    ensures ReplaceCrLf(s) == s && ReplaceCr(s) == s
  {
    if s != [] {
      ReplaceClean(s[1..]);
      assert s == [s[0]] + s[1..];
    }
  }

  /** A text without carriage returns that already ends in a newline is left as it is. */
  lemma FormatClean(s: string)
    requires '\r' !in s && |s| > 0 && s[|s| - 1] == '\n'
    ensures Format(s) == s
  {
    ReplaceClean(s);
  }

  /** Formatting twice is formatting once. */
  lemma FormatIdempotent(s: string)
    ensures Format(Format(s)) == Format(s)
  {
    FormatClean(Format(s));
  }

  /** Text before a '\r\n' that holds no carriage return is copied as it is. */
  lemma {:induction false} ReplaceCrLfPrefix(a: string, t: string)
    requires '\r' !in a
    ensures ReplaceCrLf(a + t) == a + ReplaceCrLf(t)
  {
    if a != [] {
      assert (a + t)[1..] == a[1..] + t;
      ReplaceCrLfPrefix(a[1..], t);
      assert a == [a[0]] + a[1..];
    } else {
      assert a + t == t;
    }
  }

  /** The '\r\n' between two texts without carriage returns becomes one newline. */
  lemma ReplaceCrLfDos(a: string, b: string)
    requires '\r' !in a && '\r' !in b
    ensures ReplaceCrLf(a + "\r\n" + b) == a + ("\n" + b)
  {
    var t := "\r\n" + b;
    assert t[2..] == b;
    ReplaceClean(b);
    ReplaceCrLfPrefix(a, t);
    assert a + "\r\n" + b == a + t;
  }

  /** A dos line ending becomes one newline, not two. */
  lemma FormatDosLineEnding(a: string, b: string)
    requires '\r' !in a && '\r' !in b
    ensures Format(a + "\r\n" + b) == Format(a + "\n" + b)
  {
    var x, u := a + "\r\n" + b, a + "\n" + b;
    assert u == a + ("\n" + b);
    ReplaceCrLfDos(a, b);
    ReplaceClean(u);
    assert ReplaceCrLf(x) == ReplaceCrLf(u);
  }

  /** A missing final newline is added once, and only once. */
  lemma FormatAddsNewline(s: string)
    requires '\r' !in s && !EndsWith(s, "\n")
    ensures Format(s) == s + "\n"
  {
    ReplaceClean(s);
  }

  /** Text in front of the rest, holding no carriage return, is kept by the second replacement. */
  lemma {:induction false} ReplaceCrPrefix(a: string, t: string)
    requires '\r' !in a
    ensures ReplaceCr(a + t) == a + ReplaceCr(t)
  {
    if a != [] {
      assert (a + t)[1..] == a[1..] + t;
      ReplaceCrPrefix(a[1..], t);
      assert a == [a[0]] + a[1..];
    } else {
      assert a + t == t;
    }
  }

  /** A lone carriage return, one not followed by a newline, becomes a newline. */
  lemma FormatLoneCr(a: string, b: string)
    requires '\r' !in a && '\r' !in b && (b == [] || b[0] != '\n')
    ensures Format(a + "\r" + b) == Format(a + "\n" + b)
  {
    var t := "\r" + b;
    assert t[0] == '\r' && t[1..] == b;
    ReplaceClean(b);
    assert ReplaceCrLf(t) == t;
    ReplaceCrLfPrefix(a, t);
    assert a + "\r" + b == a + t;
    ReplaceCrPrefix(a, t);
    assert ReplaceCr(t) == "\n" + b;
    var u := a + "\n" + b;
    assert u == a + ("\n" + b);
    ReplaceClean(u);
  }

  // ------------------------------------------------------------------
  // join_lines
  // ------------------------------------------------------------------

  /** [line.strip() for line in lines if line] */
  function StrippedLines(lines: seq<string>): (r: seq<string>)
    ensures |r| <= |lines|
  {
    if lines == [] then []
    else if lines[0] == "" then StrippedLines(lines[1..])
    else [Strip(lines[0])] + StrippedLines(lines[1..])
  }

  /** join_lines: the non-empty lines, each stripped, joined by one space; the result is a single line. */
  function JoinLines(s: string): (r: string)
    ensures '\n' !in r
  {
    StrippedLinesFree(Split(s, '\n'), '\n');
    JoinFree(" ", StrippedLines(Split(s, '\n')), '\n');
    Join(" ", StrippedLines(Split(s, '\n')))
  }

  lemma {:induction false} StrippedLinesFree(lines: seq<string>, c: char)
    requires forall i :: 0 <= i < |lines| ==> c !in lines[i]
    ensures forall i :: 0 <= i < |StrippedLines(lines)| ==> c !in StrippedLines(lines)[i]
  {
    if lines != [] {
      StrippedLinesFree(lines[1..], c);
      if lines[0] != "" && c in Strip(lines[0]) {
        StripShape(lines[0]);
      }
    }
  }

  lemma {:induction false} JoinFree(sep: string, parts: seq<string>, c: char)
    requires c !in sep
    requires forall i :: 0 <= i < |parts| ==> c !in parts[i]
    ensures c !in Join(sep, parts)
  {
    if |parts| > 1 {
      JoinFree(sep, parts[1..], c);
    }
  }

  /** Split of a text without newlines is that text alone. */
  lemma {:induction false} SplitNoSeparator(s: string, sep: char)
    requires sep !in s
    ensures Split(s, sep) == [s]
    decreases |s|
  {
    if s != [] {
      SplitNoSeparator(s[1..], sep);
      assert s == [s[0]] + s[1..];
    }
  }

  /** Splitting at the first separator gives the text before it, then the split of the rest. */
  lemma {:induction false} SplitAtFirst(x: string, sep: char, y: string)
    requires sep !in x
    ensures Split(x + [sep] + y, sep) == [x] + Split(y, sep)
    decreases |x|
  {
    var s := x + [sep] + y;
    if x == [] {
      assert s[0] == sep && s[1..] == y;
    } else {
      assert s[0] == x[0] && s[1..] == x[1..] + [sep] + y;
      SplitAtFirst(x[1..], sep, y);
      assert [x[0]] + x[1..] == x;
    }
  }

  /** A line of whitespace only strips to nothing. */
  lemma {:induction false} StripAllSpace(w: string)
    requires forall i :: 0 <= i < |w| ==> IsSpace(w[i])
    ensures Strip(w) == ""
    decreases |w|
  {
    if w != [] {
      StripAllSpace(w[1..]);
    }
  }

  /**
   * Only a line that is empty before stripping is dropped: a line of
   * whitespace survives as an empty piece, so two spaces separate its
   * neighbours.
   */
  lemma JoinLinesKeepsBlankLine(a: string, w: string, b: string)
    requires a != "" && b != "" && w != ""
    requires '\n' !in a && '\n' !in b
    requires forall i :: 0 <= i < |w| ==> IsSpace(w[i]) && w[i] != '\n'
    ensures JoinLines(a + "\n" + w + "\n" + b) == Strip(a) + "  " + Strip(b)
  {
    assert '\n' !in w;
    var t := a + "\n" + w + "\n" + b;
    SplitsIntoThree(a, w, b);
    StripAllSpace(w);
    StrippedThree(a, w, b);
    var p, q := Strip(a), Strip(b);
    assert StrippedLines(Split(t, '\n')) == [p, "", q];
    JoinAroundEmpty(p, q);
  }

  /** Joining around an empty piece puts two separators between its neighbours. */
  lemma JoinAroundEmpty(p: string, q: string)
    ensures Join(" ", [p, "", q]) == p + "  " + q
  {
    assert [p, "", q][1..] == ["", q] && ["", q][1..] == [q];
    assert Join(" ", ["", q]) == " " + q;
    assert Join(" ", [p, "", q]) == p + " " + (" " + q);
    assert p + " " + (" " + q) == p + "  " + q;
  }

  /** An empty line, by contrast, is dropped: its neighbours are separated by one space. */
  lemma JoinLinesDropsEmptyLine(a: string, b: string)
    requires a != "" && b != ""
    requires '\n' !in a && '\n' !in b
    ensures JoinLines(a + "\n\n" + b) == Strip(a) + " " + Strip(b)
  {
    SplitsIntoThree(a, "", b);
    assert a + "\n" + "" + "\n" + b == a + "\n\n" + b;
    StrippedThree(a, "", b);
    var p, q := Strip(a), Strip(b);
    assert Join(" ", [p, q]) == p + " " + Join(" ", [q]) by {
      assert [p, q][1..] == [q];
    }
  }

  /** Three lines joined by newlines split back into those three lines. */
  lemma SplitsIntoThree(a: string, w: string, b: string)
    requires '\n' !in a && '\n' !in w && '\n' !in b
    ensures Split(a + "\n" + w + "\n" + b, '\n') == [a, w, b]
  {
    SplitNoSeparator(b, '\n');
    SplitAtFirst(w, '\n', b);
    assert a + "\n" + w + "\n" + b == a + ['\n'] + (w + ['\n'] + b);
    SplitAtFirst(a, '\n', w + ['\n'] + b);
  }

  /** The comprehension over three lines, the first and last non-empty. */
  lemma StrippedThree(a: string, w: string, b: string)
    requires a != "" && b != ""
    ensures StrippedLines([a, w, b]) == [Strip(a)] + (if w == "" then [] else [Strip(w)]) + [Strip(b)]
  {
    var rest := StrippedLines([b]);
    assert rest == [Strip(b)] by {
      assert [b][1..] == [];
    }
    assert [w, b][1..] == [b];
    assert StrippedLines([w, b]) == (if w == "" then [] else [Strip(w)]) + rest;
    assert [a, w, b][1..] == [w, b];
  }

  /** A single line already stripped is its own joined form. */
  lemma JoinLinesOfCleanLine(s: string)
    requires '\n' !in s && s != [] && Strip(s) == s
    ensures JoinLines(s) == s
  {
    SplitNoSeparator(s, '\n');
    assert StrippedLines([s]) == [s] by {
      assert [s][1..] == [];
    }
  }

  // ------------------------------------------------------------------
  // maybe_colorize
  // ------------------------------------------------------------------

  /** The escape sequence of each colour the client knows. */
  function ColorCode(color: string): Option<string>
  {
    match color
    case "red" => Some("\U{1b}[31m")
    case "green" => Some("\U{1b}[32m")
    case "yellow" => Some("\U{1b}[33m")
    case "blue" => Some("\U{1b}[34m")
    case "magenta" => Some("\U{1b}[35m")
    case "cyan" => Some("\U{1b}[36m")
    case _ => None
  }

  const END_COLOR: string := "\U{1b}[0m"

  /**
   * maybe_colorize: an unknown colour is an error; a known colour on a
   * terminal wraps the text in its code and the reset code; otherwise the
   * text is returned as it is.
   */
  function MaybeColorize(s: string, isTty: bool, color: Option<string>): (r: Result<string, string>)
    ensures r.Err? <==> Truthy(color) && ColorCode(color.value).None?
    ensures r.Ok? && (!Truthy(color) || !isTty) ==> r.value == s
    ensures r.Ok? && Truthy(color) && isTty ==>
      |r.value| == |s| + 9 && r.value[..5] == ColorCode(color.value).value
      && r.value[5..|s| + 5] == s && EndsWith(r.value, END_COLOR)
  {
    if Truthy(color) && ColorCode(color.value).None? then
      Err("Unavailable color: " + color.value)
    else if Truthy(color) && isTty then
      Ok(ColorCode(color.value).value + s + END_COLOR)
    else Ok(s)
  }

  /** Every colour code is five characters long, so the prefix can be cut off again. */
  lemma ColorCodeLength(color: string)
    requires ColorCode(color).Some?
    ensures |ColorCode(color).value| == 5 && ColorCode(color).value[0] == '\U{1b}'
  {
  }

  // ------------------------------------------------------------------
  // input_loop and confirm
  // ------------------------------------------------------------------

  /** The answer a line gives: the line itself, or stripped of surrounding whitespace. */
  function Selection(line: string, strip: bool): string
  {
    if strip then Strip(line) else line
  }

  /**
   * What input_loop returns when standard input holds `lines` and the next
   * unread line is at pos: the first answer (stripped when asked) that is
   * non-empty when one is required, with the position after it; None when
   * input ends first, where the source exits the process.
   */
  function NextInput(lines: seq<string>, pos: nat, strip: bool, required: bool): (r: Option<(string, nat)>)
    ensures r.Some? ==> pos < r.value.1 <= |lines|
    decreases |lines| - pos
  {
    if pos >= |lines| then None
    else if required && Selection(lines[pos], strip) == "" then NextInput(lines, pos + 1, strip, required)
    else Some((Selection(lines[pos], strip), pos + 1))
  }

  /** The answer is what the line just consumed gives, and a required answer is never empty. */
  lemma {:induction false} NextInputIsLastLine(lines: seq<string>, pos: nat, strip: bool, required: bool)
    ensures var r := NextInput(lines, pos, strip, required);
      r.Some? ==> r.value.0 == Selection(lines[r.value.1 - 1], strip) && (required ==> r.value.0 != "")
    decreases |lines| - pos
  {
    if pos < |lines| && required && Selection(lines[pos], strip) == "" {
      NextInputIsLastLine(lines, pos + 1, strip, required);
    }
  }

  /** Every line skipped before the answer, or before the end of input, gave an empty answer where one was required. */
  lemma {:induction false} NextInputSkipsOnlyBlank(lines: seq<string>, pos: nat, strip: bool, required: bool, p: nat)
    requires pos <= p
    requires var r := NextInput(lines, pos, strip, required);
      if r.Some? then p < r.value.1 - 1 else p < |lines|
    ensures required && Selection(lines[p], strip) == ""
    decreases |lines| - pos
  {
    if p > pos {
      NextInputSkipsOnlyBlank(lines, pos + 1, strip, required, p);
    }
  }

  /** input_loop: read lines until one is acceptable. */
  method InputLoop(lines: seq<string>, pos: nat, strip: bool, required: bool) returns (r: Option<(string, nat)>)
    ensures r == NextInput(lines, pos, strip, required)
  {
    var p := pos;
    while true
      invariant pos <= p
      invariant NextInput(lines, p, strip, required) == NextInput(lines, pos, strip, required)
      decreases |lines| - p
    {
      if p >= |lines| {
        return None;
      }
      var selection := lines[p];
      if strip {
        selection := Strip(selection);
      }
      assert selection == Selection(lines[p], strip);
      p := p + 1;
      if required && selection == "" {
        continue;
      }
      return Some((selection, p));
    }
  }


  predicate IsYes(s: string) { s == "y" || s == "yes" }

  predicate IsNo(s: string) { s == "n" || s == "no" }

  /**
   * What one answer decides: True for y/yes, False for n/no, in any case;
   * nothing otherwise. Spelled out character by character; DecisionOfLowered
   * shows it is confirm's test on the lower-cased answer.
   */
  function Decision(answer: string): Option<bool>
  {
    if |answer| == 1 && LowerChar(answer[0]) == 'y' then Some(true)
    else if |answer| == 3 && LowerChar(answer[0]) == 'y' && LowerChar(answer[1]) == 'e' && LowerChar(answer[2]) == 's' then Some(true)
    else if |answer| == 1 && LowerChar(answer[0]) == 'n' then Some(false)
    else if |answer| == 2 && LowerChar(answer[0]) == 'n' && LowerChar(answer[1]) == 'o' then Some(false)
    else None
  }

  /** The decision is True exactly for y/yes and False exactly for n/no, once the answer is lower-cased. */
  lemma DecisionOfLowered(answer: string)
    ensures Decision(answer) == Some(true) <==> IsYes(Lower(answer))
    ensures Decision(answer) == Some(false) <==> IsNo(Lower(answer))
  {
    var lowered := Lower(answer);
    if |answer| == 1 {
      assert lowered == [LowerChar(answer[0])];
    } else if |answer| == 2 {
      assert lowered == [LowerChar(answer[0]), LowerChar(answer[1])];
    } else if |answer| == 3 {
      assert lowered == [LowerChar(answer[0]), LowerChar(answer[1]), LowerChar(answer[2])];
    }
  }

  /**
   * What confirm returns: the decision of the first stripped answer that
   * decides anything, with the position after it; None when input ends first.
   */
  function ConfirmAnswer(lines: seq<string>, pos: nat): (r: Option<(bool, nat)>)
    ensures r.Some? ==> pos < r.value.1 <= |lines|
    decreases |lines| - pos
  {
    match NextInput(lines, pos, true, true)
    case None => None
    case Some((sel, next)) =>
      match Decision(sel)
      case Some(yes) => Some((yes, next))
      case None => ConfirmAnswer(lines, next)
  }

  /** One answer of confirm, read off the line just consumed: it decides, or confirm reads on. */
  lemma ConfirmStep(lines: seq<string>, pos: nat)
    requires NextInput(lines, pos, true, true).Some?
    ensures var next := NextInput(lines, pos, true, true).value.1;
      var d := Decision(Selection(lines[next - 1], true));
      ConfirmAnswer(lines, pos) == if d.Some? then Some((d.value, next)) else ConfirmAnswer(lines, next)
  {
    NextInputIsLastLine(lines, pos, true, true);
  }

  lemma {:induction false} ConfirmDecidingLine(lines: seq<string>, pos: nat)
    ensures var r := ConfirmAnswer(lines, pos);
      r.Some? ==> Decision(Selection(lines[r.value.1 - 1], true)) == Some(r.value.0)
    decreases |lines| - pos
  {
    if NextInput(lines, pos, true, true).Some? {
      ConfirmStep(lines, pos);
      var next := NextInput(lines, pos, true, true).value.1;
      if Decision(Selection(lines[next - 1], true)).None? {
        ConfirmDecidingLine(lines, next);
      }
    }
  }

  /** Case does not matter: an upper-case YES confirms like yes. */
  lemma ConfirmIgnoresCase(lines: seq<string>, pos: nat)
    requires pos < |lines| && Strip(lines[pos]) == "YES"
    ensures ConfirmAnswer(lines, pos) == Some((true, pos + 1))
  {
    assert Lower("YES") == "yes";
  }

  /** confirm: prompt until the answer is yes or no. */
  method Confirm(lines: seq<string>, pos: nat) returns (r: Option<(bool, nat)>)
    ensures r == ConfirmAnswer(lines, pos)
  {
    var p := pos;
    while true
      invariant pos <= p
      invariant ConfirmAnswer(lines, p) == ConfirmAnswer(lines, pos)
      decreases |lines| - p
    {
      var input := InputLoop(lines, p, true, true);
      if input.None? {
        return None;
      }
      var selection := Lower(input.value.0);
      DecisionOfLowered(input.value.0);
      p := input.value.1;
      if selection == "y" || selection == "yes" {
        return Some((true, p));
      } else if selection == "n" || selection == "no" {
        return Some((false, p));
      }
    }
  }

  // ------------------------------------------------------------------
  // bool_to_mark
  // ------------------------------------------------------------------

  /** bool_to_mark: a check mark for True, a cross for False. */
  function BoolToMark(m: bool): (r: string)
    ensures |r| == 1
    ensures r == "\U{2705}" <==> m
  {
    if m then "\U{2705}" else "\U{274c}"
  }
}
