/**
 * Model of the text helpers of `stpa/synthesis.py`: cutting a rendered definition into name,
 * body and links with the two regular expressions, numbering lines for a prompt, and
 * reading numbered definitions back out of a reply. Each regular expression is written out
 * as the scan Python's `re` performs: `re.sub` replaces the leftmost match, `.` matches
 * anything but a newline, `\s` is `Text.IsSpace`, and `$` without MULTILINE matches at the
 * end of the string or just before a final newline.
 */
module Synthesis {
  import opened Wrappers
  import opened Text
  import opened Definitions

  // ---------------------------------------------------------------------------
  // Splitting and joining
  // ---------------------------------------------------------------------------

  /** The index of the first `c` in `s`, or `|s|` when there is none. */
  function IndexOf(s: string, c: char): (r: nat)
    ensures r <= |s|
    ensures forall i | 0 <= i < r :: s[i] != c
    ensures r < |s| ==> s[r] == c
    decreases |s|
  {
    if s == [] then 0
    else if s[0] == c then 0
    else 1 + IndexOf(s[1..], c)
  }

  /** `s.split(sep)` for a one-character separator. */
  function SplitOn(s: string, sep: char): (r: seq<string>)
    ensures |r| >= 1
    decreases |s|
  {
    var i := IndexOf(s, sep);
    if i == |s| then [s] else [s[..i]] + SplitOn(s[i + 1..], sep)
  }

  /** Splitting a join undoes it, when no part holds the separator. */
  lemma {:induction false} SplitJoin(parts: seq<string>, sep: char)
    requires |parts| >= 1
    requires forall k | 0 <= k < |parts| :: sep !in parts[k]
    ensures SplitOn(JoinWith([sep], parts), sep) == parts
    decreases |parts|
  {
    var s := JoinWith([sep], parts);
    if |parts| == 1 {
      assert IndexOf(s, sep) == |s|;
    } else {
      var rest := JoinWith([sep], parts[1..]);
      assert s == parts[0] + [sep] + rest;
      assert IndexOf(s, sep) == |parts[0]| by {
        assert s[|parts[0]|] == sep;
        forall i | 0 <= i < |parts[0]| ensures s[i] != sep {
          assert s[i] == parts[0][i];
        }
      }
      assert s[..|parts[0]|] == parts[0];
      assert s[|parts[0]| + 1..] == rest;
      SplitJoin(parts[1..], sep);
    }
  }

  // ---------------------------------------------------------------------------
  // str.splitlines and the line flattening of _number_lines
  // ---------------------------------------------------------------------------

  /** The characters `str.splitlines` breaks at; `"\r\n"` counts as one break. */
  predicate IsLineBreak(c: char) {
    || ('\n' <= c <= '\r')
    || ('\U{1C}' <= c <= '\U{1E}')
    || c == '\U{85}'
    || c == '\U{2028}'
    || c == '\U{2029}'
  }

  predicate NoBreaks(s: string) {
    forall i | 0 <= i < |s| :: !IsLineBreak(s[i])
  }

  /** The index of the first line break in `s`, or `|s|`. */
  function FirstBreak(s: string): (r: nat)
    ensures r <= |s|
    ensures NoBreaks(s[..r])
    ensures r < |s| ==> IsLineBreak(s[r])
    decreases |s|
  {
    if s == [] then 0
    else if IsLineBreak(s[0]) then 0
    else
      var r := 1 + FirstBreak(s[1..]);
      assert forall i | 1 <= i < r :: s[..r][i] == s[1..][..r - 1][i - 1];
      r
  }

  /** `str.splitlines()`: the lines without their breaks; a final break opens no empty line. */
  function SplitLines(s: string): (r: seq<string>)
    ensures forall k | 0 <= k < |r| :: NoBreaks(r[k])
    decreases |s|
  {
    if s == [] then []
    else
      var k := FirstBreak(s);
      if k == |s| then [s]
      else
        var width := if s[k] == '\r' && k + 1 < |s| && s[k + 1] == '\n' then 2 else 1;
        [s[..k]] + SplitLines(s[k + width..])
  }

  /** A line ending `str.splitlines` accepts: one break character, or `"\r\n"`. */
  predicate IsBreakSeq(brk: string) {
    (|brk| == 1 && IsLineBreak(brk[0])) || brk == "\r\n"
  }

  /** The first break after a line without breaks is where that line ends. */
  lemma {:induction false} FirstBreakAfter(line: string, rest: string)
    requires NoBreaks(line)
    requires rest == [] || IsLineBreak(rest[0])
    ensures FirstBreak(line + rest) == |line|
    decreases |line|
  {
    var s := line + rest;
    if line != [] {
      assert s[0] == line[0];
      assert s[1..] == line[1..] + rest;
      FirstBreakAfter(line[1..], rest);
    } else {
      assert s == rest;
    }
  }

  /** A line followed by a line ending and more text splits off as the first piece. */
  lemma SplitLinesStep(line: string, brk: string, rest: string)
    requires NoBreaks(line) && IsBreakSeq(brk)
    requires brk == "\r" ==> rest == [] || rest[0] != '\n'
    ensures SplitLines(line + brk + rest) == [line] + SplitLines(rest)
  {
    var s := line + brk + rest;
    assert s == line + (brk + rest);
    FirstBreakAfter(line, brk + rest);
    assert s[..|line|] == line;
    assert s[|line|] == brk[0];
    if brk == "\r\n" {
      assert s[|line| + 1] == '\n';
    } else if brk[0] == '\r' && |line| + 1 < |s| {
      assert s[|line| + 1] == rest[0];
    }
    assert s[|line| + |brk|..] == rest;
  }

  /** A non-empty line without breaks is a single piece. */
  lemma SplitLinesOne(line: string)
    requires NoBreaks(line) && line != []
    ensures SplitLines(line) == [line]
  {
    FirstBreakAfter(line, []);
    assert line + [] == line;
  }

  /** A join with `"\r"` of parts without breaks never starts with `'\n'`. */
  lemma JoinStartsWithoutNewline(parts: seq<string>)
    requires forall k | 0 <= k < |parts| :: NoBreaks(parts[k])
    ensures var s := JoinWith("\r", parts); s == [] || s[0] != '\n'
  {
    if parts != [] {
      var s := JoinWith("\r", parts);
      if parts[0] != [] {
        assert IsLineBreak('\n');
        assert s[0] == parts[0][0] by {
          if |parts| > 1 {
            assert s == parts[0] + "\r" + JoinWith("\r", parts[1..]);
          }
        }
      } else if |parts| > 1 {
        assert s == parts[0] + "\r" + JoinWith("\r", parts[1..]);
        assert s[0] == '\r';
      }
    }
  }

  /**
   * `splitlines` undoes a join with any one line ending, when no part holds a break and the
   * last part is not empty.
   */
  lemma {:induction false} SplitLinesJoin(parts: seq<string>, brk: string)
    requires |parts| >= 1 && IsBreakSeq(brk)
    requires forall k | 0 <= k < |parts| :: NoBreaks(parts[k])
    requires parts[|parts| - 1] != []
    ensures SplitLines(JoinWith(brk, parts)) == parts
    decreases |parts|
  {
    if |parts| == 1 {
      SplitLinesOne(parts[0]);
    } else {
      SplitLinesJoin(parts[1..], brk);
      SplitLinesJoinStep(parts, brk, JoinWith(brk, parts[1..]));
    }
  }

  /** The first part splits off, and the rest of the join splits as before. */
  lemma SplitLinesJoinStep(parts: seq<string>, brk: string, rest: string)
    requires |parts| >= 2 && IsBreakSeq(brk)
    requires forall k | 0 <= k < |parts| :: NoBreaks(parts[k])
    requires rest == JoinWith(brk, parts[1..]) && SplitLines(rest) == parts[1..]
    ensures SplitLines(JoinWith(brk, parts)) == parts
  {
    JoinUnfold(brk, parts);
    if brk == "\r" {
      JoinStartsWithoutNewline(parts[1..]);
    }
    SplitLinesStep(parts[0], brk, rest);
    HeadTail(parts);
  }

  lemma JoinUnfold(sep: string, parts: seq<string>)
    requires |parts| >= 2
    ensures JoinWith(sep, parts) == parts[0] + sep + JoinWith(sep, parts[1..])
  {
  }

  lemma HeadTail(parts: seq<string>)
    requires parts != []
    ensures parts == [parts[0]] + parts[1..]
  {
  }

  /**
   * A line ending after every part opens no empty piece at the end: `splitlines` gives the
   * parts back, the last one included even when it is empty.
   */
  lemma {:induction false} SplitLinesTerminated(parts: seq<string>, brk: string)
    requires |parts| >= 1 && IsBreakSeq(brk)
    requires forall k | 0 <= k < |parts| :: NoBreaks(parts[k])
    ensures SplitLines(JoinWith(brk, parts) + brk) == parts
    decreases |parts|
  {
    if |parts| == 1 {
      SplitLinesStep(parts[0], brk, []);
      assert parts[0] + brk + [] == JoinWith(brk, parts) + brk;
    } else {
      SplitLinesTerminated(parts[1..], brk);
      SplitLinesTerminatedStep(parts, brk, JoinWith(brk, parts[1..]) + brk);
    }
  }

  /** The first part splits off, and the rest of the terminated join splits as before. */
  lemma SplitLinesTerminatedStep(parts: seq<string>, brk: string, rest: string)
    requires |parts| >= 2 && IsBreakSeq(brk)
    requires forall k | 0 <= k < |parts| :: NoBreaks(parts[k])
    requires rest == JoinWith(brk, parts[1..]) + brk && SplitLines(rest) == parts[1..]
    ensures SplitLines(JoinWith(brk, parts) + brk) == parts
  {
    JoinUnfold(brk, parts);
    assert JoinWith(brk, parts) + brk == parts[0] + brk + rest;
    if brk == "\r" {
      var j := JoinWith(brk, parts[1..]);
      JoinStartsWithoutNewline(parts[1..]);
      assert rest[0] == if j == [] then '\r' else j[0];
    }
    SplitLinesStep(parts[0], brk, rest);
    HeadTail(parts);
  }

  /** `' '.join(line.splitlines())`, what `_number_lines` makes of each line. */
  function Unbreak(s: string): string {
    JoinWith(" ", SplitLines(s))
  }

  /** Flattening a text made of lines joined by one kind of line ending joins them with spaces. */
  lemma UnbreakJoin(parts: seq<string>, brk: string)
    requires |parts| >= 1 && IsBreakSeq(brk)
    requires forall k | 0 <= k < |parts| :: NoBreaks(parts[k])
    ensures Unbreak(JoinWith(brk, parts) + brk) == JoinWith(" ", parts)
    ensures parts[|parts| - 1] != [] ==> Unbreak(JoinWith(brk, parts)) == JoinWith(" ", parts)
  {
    SplitLinesTerminated(parts, brk);
    if parts[|parts| - 1] != [] {
      SplitLinesJoin(parts, brk);
    }
  }

  lemma {:induction false} JoinNoBreaks(parts: seq<string>)
    requires forall k | 0 <= k < |parts| :: NoBreaks(parts[k])
    ensures NoBreaks(JoinWith(" ", parts))
    decreases |parts|
  {
    if |parts| > 1 {
      JoinNoBreaks(parts[1..]);
      var rest := JoinWith(" ", parts[1..]);
      var s := parts[0] + " " + rest;
      forall i | 0 <= i < |s| ensures !IsLineBreak(s[i]) {
        if i < |parts[0]| {
          assert s[i] == parts[0][i];
        } else if i > |parts[0]| {
          assert s[i] == rest[i - |parts[0]| - 1];
        }
      }
    }
  }

  /** A flattened line holds no line break, and a line without breaks is left as it is. */
  lemma UnbreakFlattens(s: string)
    ensures NoBreaks(Unbreak(s))
    ensures NoBreaks(s) ==> Unbreak(s) == s
  {
    JoinNoBreaks(SplitLines(s));
  }

  // ---------------------------------------------------------------------------
  // _number_lines and _unnumber_lines
  // ---------------------------------------------------------------------------

  /**
   * `_number_lines`: the i-th line (from zero) becomes `"<i + 1>. "` followed by the line
   * flattened to one line.
   */
  function NumberLines(lines: seq<string>): seq<string> {
    seq(|lines|, i requires 0 <= i < |lines| => Decimal(i + 1) + ". " + Unbreak(lines[i]))
  }

  /** The length of the run of digits `s` starts with: what a greedy `\d+` takes. */
  function LeadingDigits(s: string): (r: nat)
    ensures r <= |s| && AllDigits(s[..r])
    ensures r < |s| ==> !IsDigit(s[r])
    decreases |s|
  {
    if s == [] || !IsDigit(s[0]) then 0
    else
      var r := 1 + LeadingDigits(s[1..]);
      assert forall i | 1 <= i < r :: s[..r][i] == s[1..][..r - 1][i - 1];
      r
  }

  /** A number prefix: at least one digit, a dot and a space (`\d+\. `). */
  predicate IsNumberPrefix(t: string) {
    |t| >= 3 && AllDigits(t[..|t| - 2]) && t[|t| - 2] == '.' && t[|t| - 1] == ' '
  }

  predicate NoNumberPrefix(s: string) {
    forall k | 0 <= k <= |s| :: !IsNumberPrefix(s[..k])
  }

  /** Where the number prefix of `s` ends, if `s` starts with one. */
  function NumberPrefixEnd(s: string): Option<nat> {
    var k := LeadingDigits(s);
    if k >= 1 && k + 2 <= |s| && s[k] == '.' && s[k + 1] == ' ' then Some(k + 2) else None
  }

  /**
   * `re.sub(r'^\d+\. ', '', line)`: drops the number prefix the line starts with; a line
   * without one is returned unchanged.
   */
  function Unnumber(s: string): (r: string)
    ensures |r| <= |s| && r == s[|s| - |r|..]
    ensures r == s <==> NoNumberPrefix(s)
    ensures r != s ==> IsNumberPrefix(s[..|s| - |r|])
  {
    match NumberPrefixEnd(s)
    case Some(e) =>
      assert IsNumberPrefix(s[..e]) by {
        assert s[..e][..e - 2] == s[..LeadingDigits(s)];
      }
      s[e..]
    case None =>
      assert NoNumberPrefix(s) by {
        forall k | 0 <= k <= |s| ensures !IsNumberPrefix(s[..k]) {
          if IsNumberPrefix(s[..k]) {
            NumberPrefixFound(s, k);
          }
        }
      }
      s
  }

  /** A number prefix is found by the greedy scan: its digits are exactly the leading run. */
  lemma NumberPrefixFound(s: string, k: nat)
    requires k <= |s| && IsNumberPrefix(s[..k])
    ensures NumberPrefixEnd(s) == Some(k)
  {
    var d := LeadingDigits(s);
    assert forall i | 0 <= i < k - 2 :: IsDigit(s[i]) by {
      forall i | 0 <= i < k - 2 ensures IsDigit(s[i]) {
        assert s[..k][..k - 2][i] == s[i];
      }
    }
    assert s[k - 2] == '.' by { assert s[..k][k - 2] == s[k - 2]; }
    assert s[k - 1] == ' ' by { assert s[..k][k - 1] == s[k - 1]; }
    assert forall i | 0 <= i < d :: IsDigit(s[i]) by {
      forall i | 0 <= i < d ensures IsDigit(s[i]) {
        assert s[..d][i] == s[i];
      }
    }
  }

  /** `_unnumber_lines`: every line with its number prefix dropped, in order. */
  function UnnumberLines(lines: seq<string>): seq<string> {
    seq(|lines|, i requires 0 <= i < |lines| => Unnumber(lines[i]))
  }

  /** Dropping the number of a numbered line gives the line back. */
  lemma UnnumberNumbered(n: nat, line: string)
    ensures Unnumber(Decimal(n) + ". " + line) == line
  {
    var digits := Decimal(n);
    var s := digits + ". " + line;
    assert s[..|digits| + 2][..|digits|] == digits;
    assert IsNumberPrefix(s[..|digits| + 2]);
    NumberPrefixFound(s, |digits| + 2);
    assert s[|digits| + 2..] == line;
  }

  /**
   * Unnumbering numbered lines gives back the lines, each flattened to one line as
   * `_number_lines` did.
   */
  lemma NumberRoundTrip(lines: seq<string>)
    ensures |UnnumberLines(NumberLines(lines))| == |lines|
    ensures forall i | 0 <= i < |lines| :: UnnumberLines(NumberLines(lines))[i] == Unbreak(lines[i])
  {
    var numbered := NumberLines(lines);
    forall i | 0 <= i < |lines| ensures UnnumberLines(numbered)[i] == Unbreak(lines[i]) {
      UnnumberNumbered(1 + i, Unbreak(lines[i]));
    }
  }

  // ---------------------------------------------------------------------------
  // _get_raw_definitions
  // ---------------------------------------------------------------------------

  /** A line `^\d+\. .+$` matches in MULTILINE mode: a number prefix and at least one more character. */
  predicate IsNumberedLine(line: string) {
    NumberPrefixEnd(line).Some? && NumberPrefixEnd(line).value < |line|
  }

  /** The lines that match, and only those, in their order. */
  function NumberedLines(lines: seq<string>): (r: seq<string>)
    ensures |r| <= |lines|
    ensures forall x :: x in r <==> x in lines && IsNumberedLine(x)
    decreases |lines|
  {
    if lines == [] then []
    else
      var rest := NumberedLines(lines[1..]);
      if IsNumberedLine(lines[0]) then [lines[0]] + rest else rest
  }

  /** The matches of two blocks of lines are those of the first block followed by those of the second. */
  lemma {:induction false} NumberedLinesAppend(a: seq<string>, b: seq<string>)
    ensures NumberedLines(a + b) == NumberedLines(a) + NumberedLines(b)
    decreases |a|
  {
    if a == [] {
      assert a + b == b;
    } else {
      assert (a + b)[0] == a[0];
      assert (a + b)[1..] == a[1..] + b;
      NumberedLinesAppend(a[1..], b);
    }
  }

  /** `map(str.strip, ...)`. */
  function StripAll(lines: seq<string>): seq<string> {
    seq(|lines|, i requires 0 <= i < |lines| => Strip(lines[i]))
  }

  /** When every line matches, all of them are kept. */
  lemma {:induction false} NumberedLinesAll(lines: seq<string>)
    requires forall i | 0 <= i < |lines| :: IsNumberedLine(lines[i])
    ensures NumberedLines(lines) == lines
    decreases |lines|
  {
    if lines != [] {
      assert IsNumberedLine(lines[0]);
      NumberedLinesAll(lines[1..]);
    }
  }

  /**
   * `_get_raw_definitions`: every line of the reply that is a number prefix followed by
   * text, in order, stripped of surrounding whitespace.
   */
  function RawDefinitions(text: string): seq<string> {
    StripAll(NumberedLines(SplitOn(text, '\n')))
  }

  /** A reply made of lines is read line by line: its numbered lines, stripped, in order. */
  lemma RawDefinitionsOfLines(lines: seq<string>)
    requires |lines| >= 1
    requires forall k | 0 <= k < |lines| :: '\n' !in lines[k]
    ensures RawDefinitions(JoinWith("\n", lines)) == StripAll(NumberedLines(lines))
  {
    SplitJoin(lines, '\n');
  }

  /** A string that starts and ends with a character other than whitespace is its own strip. */
  lemma StripTrimmed(s: string)
    requires s != [] && !IsSpace(s[0]) && !IsSpace(s[|s| - 1])
    ensures Strip(s) == s
  {
    var t := TrimStart(s);
    assert t == s;
  }

  /** A one-line text without surrounding whitespace: what a definition reads as. */
  predicate IsSingleTrimmedLine(s: string) {
    s != [] && NoBreaks(s) && !IsSpace(s[|s| - 1]) && !IsSpace(s[0])
  }

  /** A numbered one-line text is a numbered line, its own strip, and one line. */
  lemma NumberedSingle(n: nat, x: string)
    requires IsSingleTrimmedLine(x)
    ensures var line := Decimal(n) + ". " + x;
      IsNumberedLine(line) && Strip(line) == line && '\n' !in line
  {
    NumberedSingleMatches(n, x);
    NumberedSingleTrimmed(n, x);
    NumberedSingleOneLine(n, x);
  }

  lemma NumberedSingleMatches(n: nat, x: string)
    requires x != []
    ensures IsNumberedLine(Decimal(n) + ". " + x)
  {
    var digits := Decimal(n);
    var line := digits + ". " + x;
    assert line[..|digits| + 2][..|digits|] == digits;
    NumberPrefixFound(line, |digits| + 2);
  }

  lemma NumberedSingleTrimmed(n: nat, x: string)
    requires x != [] && !IsSpace(x[|x| - 1])
    ensures Strip(Decimal(n) + ". " + x) == Decimal(n) + ". " + x
  {
    var digits := Decimal(n);
    var line := digits + ". " + x;
    assert line[|line| - 1] == x[|x| - 1];
    assert line[0] == digits[0];
    StripTrimmed(line);
  }

  lemma NumberedSingleOneLine(n: nat, x: string)
    requires NoBreaks(x)
    ensures '\n' !in Decimal(n) + ". " + x
  {
    var digits := Decimal(n);
    var line := digits + ". " + x;
    assert forall j | |digits| + 2 <= j < |line| :: line[j] == x[j - |digits| - 2];
    assert IsLineBreak('\n');
  }

  /** Each numbered one-line text is a numbered line, its own strip, and one line. */
  lemma NumberedLinesOfNumbered(xs: seq<string>)
    requires forall i | 0 <= i < |xs| :: IsSingleTrimmedLine(xs[i])
    ensures var numbered := NumberLines(xs);
      forall k | 0 <= k < |numbered| ::
        IsNumberedLine(numbered[k]) && Strip(numbered[k]) == numbered[k] && '\n' !in numbered[k]
  {
    forall k | 0 <= k < |xs|
      ensures var line := Decimal(k + 1) + ". " + Unbreak(xs[k]);
        IsNumberedLine(line) && Strip(line) == line && '\n' !in line
    {
      UnbreakFlattens(xs[k]);
      NumberedSingle(k + 1, xs[k]);
    }
  }

  /** The raw definitions of a numbered text of one-line definitions are its lines. */
  lemma RawDefinitionsOfNumbered(xs: seq<string>)
    requires forall i | 0 <= i < |xs| :: IsSingleTrimmedLine(xs[i])
    ensures RawDefinitions(JoinWith("\n", NumberLines(xs))) == NumberLines(xs)
  {
    var numbered := NumberLines(xs);
    if xs == [] {
      assert JoinWith("\n", numbered) == "";
      assert SplitOn("", '\n') == [""];
    } else {
      NumberedLinesOfNumbered(xs);
      RawDefinitionsOfLines(numbered);
      NumberedLinesAll(numbered);
      assert StripAll(numbered) == numbered;
    }
  }

  /**
   * Numbering one-line definitions for a prompt, reading the raw definitions out of the
   * numbered text and unnumbering them gives the definitions back.
   */
  lemma NumberedPromptRoundTrip(xs: seq<string>)
    requires forall i | 0 <= i < |xs| :: IsSingleTrimmedLine(xs[i])
    ensures UnnumberLines(RawDefinitions(JoinWith("\n", NumberLines(xs)))) == xs
  {
    RawDefinitionsOfNumbered(xs);
    NumberRoundTrip(xs);
    forall i | 0 <= i < |xs| ensures Unbreak(xs[i]) == xs[i] {
      UnbreakFlattens(xs[i]);
    }
  }

  // ---------------------------------------------------------------------------
  // _get_definition_body_links: r'^.+?:\s+'
  // ---------------------------------------------------------------------------

  /** A colon at `j` with whitespace right after it: where `:\s+` can start. */
  predicate ColonSpaceAt(s: string, j: nat) {
    j + 1 < |s| && s[j] == ':' && IsSpace(s[j + 1])
  }

  /** No newline at indexes `lo` to `hi - 1`: the stretch `.` can cross. */
  predicate OnFirstLine(s: string, lo: nat, hi: nat) {
    forall i | lo <= i < hi && i < |s| :: s[i] != '\n'
  }

  /**
   * The lazy scan of `^.+?:`: the first colon at index `k >= 1` with no newline before it
   * and whitespace after it, trying `k`, `k + 1`, ... in turn.
   */
  function NameColonFrom(s: string, k: nat): (r: Option<nat>)
    requires k >= 1
    ensures r.Some? ==> k <= r.value && ColonSpaceAt(s, r.value) && OnFirstLine(s, k - 1, r.value)
    ensures r.Some? ==> forall j | k <= j < r.value :: !ColonSpaceAt(s, j)
    ensures r.None? ==> forall j | k <= j :: ColonSpaceAt(s, j) ==> !OnFirstLine(s, k - 1, j)
    decreases |s| - k
  {
    if k >= |s| then None
    else if s[k - 1] == '\n' then None
    else if s[k] == ':' && k + 1 < |s| && IsSpace(s[k + 1]) then Some(k)
    else NameColonFrom(s, k + 1)
  }

  /**
   * `_get_definition_body_links`: removes the name, its colon and the whitespace run after
   * it; a string without such a prefix is unchanged.
   */
  function StripName(s: string): (r: string)
    ensures |r| <= |s| && r == s[|s| - |r|..]
  {
    match NameColonFrom(s, 1)
    case None => s
    case Some(k) => TrimStart(s[k + 1..])
  }

  /** The scan reaches the colon that ends a name free of colons and newlines. */
  lemma {:induction false} NameColonFound(name: string, rest: string, k: nat)
    requires 1 <= k <= |name|
    requires ':' !in name && '\n' !in name
    ensures NameColonFrom(name + ": " + rest, k) == Some(|name|)
    decreases |name| - k
  {
    var s := name + ": " + rest;
    assert s[k - 1] == name[k - 1];
    if k < |name| {
      assert s[k] == name[k];
      NameColonFound(name, rest, k + 1);
    }
  }

  /** The name is cut off a rendering `name: rest`, whatever `rest` holds. */
  lemma StripNameOfRendering(name: string, rest: string)
    requires name != [] && ':' !in name && '\n' !in name
    requires rest == [] || !IsSpace(rest[0])
    ensures StripName(name + ": " + rest) == rest
  {
    var s := name + ": " + rest;
    NameColonFound(name, rest, 1);
    assert s[|name| + 1..] == " " + rest;
    TrimOneSpace(rest);
  }

  /** A string without a colon has no name to strip. */
  lemma StripNameWithoutColon(s: string)
    requires ':' !in s
    ensures StripName(s) == s
  {
  }

  // ---------------------------------------------------------------------------
  // _get_definition_name_body: r'\s+\[.*?\]$'
  // ---------------------------------------------------------------------------

  /**
   * Where a match of `\]$` can end: after a final `]`, or after a `]` that a final newline
   * follows.
   */
  function LinksEnd(s: string): (r: Option<nat>)
    ensures r.Some? ==> 1 <= r.value <= |s| && s[r.value - 1] == ']'
  {
    if |s| >= 1 && s[|s| - 1] == ']' then Some(|s|)
    else if |s| >= 2 && s[|s| - 1] == '\n' && s[|s| - 2] == ']' then Some(|s| - 1)
    else None
  }

  /** The end of the whitespace run starting at `p`: what a greedy `\s+` takes. */
  function SpaceRunEnd(s: string, p: nat): (w: nat)
    requires p <= |s|
    ensures p <= w <= |s|
  {
    p + (|s[p..]| - |TrimStart(s[p..])|)
  }

  /**
   * Whether `\s+\[.*?\]$` matches at `p`: whitespace, a `[` right after the run, and the
   * closing `]` at the end with no newline between.
   */
  predicate LinksMatchAt(s: string, p: nat) {
    && p < |s| && IsSpace(s[p])
    && var w := SpaceRunEnd(s, p);
      && w < |s| && s[w] == '['
      && LinksEnd(s).Some? && w < LinksEnd(s).value - 1
      && '\n' !in s[w + 1..LinksEnd(s).value - 1]
  }

  /** The leftmost match at or after `p`. */
  function LinksStartFrom(s: string, p: nat): (r: Option<nat>)
    ensures r.Some? ==> p <= r.value && LinksMatchAt(s, r.value)
    ensures r.Some? ==> forall q | p <= q < r.value :: !LinksMatchAt(s, q)
    ensures r.None? ==> forall q | p <= q :: !LinksMatchAt(s, q)
    decreases |s| - p
  {
    if p >= |s| then None
    else if LinksMatchAt(s, p) then Some(p)
    else LinksStartFrom(s, p + 1)
  }

  /**
   * `_get_definition_name_body`: removes the bracketed links group that ends the string,
   * together with the whitespace before it, at the leftmost place it matches.
   */
  function StripLinks(s: string): (r: string)
    ensures LinksEnd(s).None? ==> r == s
    ensures r != s ==> |r| < |s|
  {
    match LinksStartFrom(s, 0)
    case None => s
    case Some(p) => s[..p] + s[LinksEnd(s).value..]
  }

  /** A string without a `[` has no links group to remove. */
  lemma StripLinksWithoutBracket(s: string)
    requires '[' !in s
    ensures StripLinks(s) == s
  {
  }

  /**
   * The links group of a rendering `body [names]` is removed with the space before it, when
   * the body holds no `[`, does not end in whitespace, and the names are on one line.
   */
  lemma StripLinksOfRendering(body: string, names: string)
    requires '[' !in body && (body == [] || !IsSpace(body[|body| - 1]))
    requires '\n' !in names
    ensures StripLinks(body + " [" + names + "]") == body
  {
    var s := body + " [" + names + "]";
    var n := |body|;
    assert LinksEnd(s) == Some(|s|);
    assert forall q | 0 <= q < n :: !LinksMatchAt(s, q) by {
      forall q | 0 <= q < n ensures !LinksMatchAt(s, q) {
        NoLinksInBody(body, names, q);
      }
    }
    LinksMatchAfterBody(body, names);
    LinksStartAt(s, 0, n);
    assert s[..n] == body;
  }

  /** The links group of a rendering matches right after the body. */
  lemma LinksMatchAfterBody(body: string, names: string)
    requires '\n' !in names
    ensures LinksMatchAt(body + " [" + names + "]", |body|)
  {
    var s := body + " [" + names + "]";
    var n := |body|;
    assert LinksEnd(s) == Some(|s|);
    assert s[n..] == " " + ("[" + names + "]");
    TrimOneSpace("[" + names + "]");
    assert SpaceRunEnd(s, n) == n + 1;
    assert s[n + 2..|s| - 1] == names;
  }

  /** Inside a body free of `[` that does not end in whitespace, no links group starts. */
  lemma NoLinksInBody(body: string, names: string, q: nat)
    requires '[' !in body && (body == [] || !IsSpace(body[|body| - 1]))
    requires q < |body|
    ensures !LinksMatchAt(body + " [" + names + "]", q)
  {
    var s := body + " [" + names + "]";
    var n := |body|;
    if IsSpace(s[q]) {
      var w := SpaceRunEnd(s, q);
      assert s[q..][n - 1 - q] == body[n - 1];
      assert w < n;
      assert s[w] == body[w];
    }
  }

  /** The leftmost scan from `p` finds the first match when there is none before it. */
  lemma LinksStartAt(s: string, p: nat, m: nat)
    requires p <= m && LinksMatchAt(s, m)
    requires forall q | p <= q < m :: !LinksMatchAt(s, q)
    ensures LinksStartFrom(s, p) == Some(m)
  {
    var r := LinksStartFrom(s, p);
    assert r.Some? && r.value <= m;
  }

  // ---------------------------------------------------------------------------
  // _get_definition_body
  // ---------------------------------------------------------------------------

  /** `_get_definition_body`: the name stripped first, then the links. */
  function DefinitionBody(s: string): string {
    StripLinks(StripName(s))
  }

  /** The joined names of a links list are on one line and hold no bracket. */
  lemma {:induction false} JoinNamesPlain(ds: seq<Definition>)
    ensures '\n' !in JoinNames(ds) && '[' !in JoinNames(ds) && ':' !in JoinNames(ds)
    decreases |ds|
  {
    if |ds| == 1 {
      NameChars(ds[0]);
    } else if |ds| > 1 {
      JoinNamesPlain(ds[..|ds| - 1]);
      NameChars(ds[|ds| - 1]);
    }
  }

  lemma LinksSuffix(t: string, joined: string)
    ensures t + " " + ("[" + joined + "]") == t + " [" + joined + "]"
  {
    assert " " + ("[" + joined + "]") == " [" + joined + "]";
  }

  /** A body text the two expressions leave intact: one that is not empty, trimmed and free of `[`. */
  predicate PlainText(t: string) {
    t != [] && !IsSpace(t[0]) && !IsSpace(t[|t| - 1]) && '[' !in t
  }

  /**
   * `_get_definition_body` of a rendered definition is its body text: the name before the
   * colon and the links after it are both removed, for every kind of definition.
   */
  lemma DefinitionBodyOfStr(d: Definition)
    requires WellTyped(d) && PlainText(BodyText(d))
    ensures DefinitionBody(Str(d)) == BodyText(d)
  {
    StrLayout(d);
    NameChars(d);
    assert Name(d) != [] by {
      assert LabelOf(d.body) != [];
    }
    if Links(d).None? {
      StripNameOfRendering(Name(d), BodyText(d));
      StripLinksWithoutBracket(BodyText(d));
    } else {
      DefinitionBodyWithLinks(Name(d), BodyText(d), Links(d).value);
    }
  }

  /** A rendering `name: text [links]` is cut down to `text`. */
  lemma DefinitionBodyWithLinks(name: string, t: string, ds: seq<Definition>)
    requires name != [] && ':' !in name && '\n' !in name
    requires PlainText(t)
    ensures DefinitionBody(name + ": " + t + " " + ReprList(ds)) == t
  {
    var rest := t + " " + ReprList(ds);
    assert name + ": " + t + " " + ReprList(ds) == name + ": " + rest;
    assert rest[0] == t[0];
    StripNameOfRendering(name, rest);
    JoinNamesPlain(ds);
    assert rest == t + " [" + JoinNames(ds) + "]" by {
      LinksSuffix(t, JoinNames(ds));
    }
    StripLinksOfRendering(t, JoinNames(ds));
  }
}
