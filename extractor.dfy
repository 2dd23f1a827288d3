/**
 * The offline extractor (parser.py): it splits each question span into a
 * prompt and its options, parses the answer key, and joins the two into the
 * question bank.
 *
 * The document text and its division into numbered spans by the
 * `Задание N` / `Вопрос N` marker are taken as given: the extractor starts
 * from a sequence of `Span(number, body)` values, one per marker match.
 */
module Extractor {
  import opened Wrappers
  import opened Strings
  import opened Bank
  import opened Lists

  // ---------------------------------------------------------------------
  // Option lines and the prompt (extract_question_options)
  // ---------------------------------------------------------------------

  /** Length of the run of ASCII digits at the start of `s`. */
  function DigitRun(s: string): (n: nat)
    ensures n <= |s|
    ensures forall i :: 0 <= i < n ==> IsDigit(s[i])
    ensures n < |s| ==> !IsDigit(s[n])
  {
    if s != [] && IsDigit(s[0]) then 1 + DigitRun(s[1..]) else 0
  }

  /**
   * A line matching `^\s*\d+[).]\s*\S+`, read as the regex reads it:
   * leading whitespace, then a digit, then the rest of the number.
   */
  predicate IsOptionLine(line: string) {
    line != [] &&
    if IsSpace(line[0]) then IsOptionLine(line[1..])
    else IsDigit(line[0]) && IsOptionNumber(line[1..])
  }

  /**
   * After the first digit of the option number: more digits, then `)` or
   * `.`, then somewhere after the delimiter a character that is not
   * whitespace.
   */
  predicate IsOptionNumber(s: string) {
    s != [] &&
    if IsDigit(s[0]) then IsOptionNumber(s[1..])
    else (s[0] == ')' || s[0] == '.') && HasVisible(s[1..])
  }

  /**
   * `line` starts with what `^\s*\d+[).]` matches: whitespace before `w`,
   * the digits of the option number from `w` to `d`, and the delimiter `)`
   * or `.` at `d`.
   */
  ghost predicate OptionHead(line: string, w: nat, d: nat) {
    w < d < |line| && AllSpace(line[..w]) && (forall k :: w <= k < d ==> IsDigit(line[k]))
    && (line[d] == ')' || line[d] == '.')
  }

  /** What follows the delimiter of an option line. */
  function OptionTail(line: string): (t: string)
    requires IsOptionLine(line)
    ensures HasVisible(t)
    ensures exists w: nat, d: nat :: OptionHead(line, w, d) && t == line[d + 1..]
  {
    if IsSpace(line[0]) then
      var t := OptionTail(line[1..]);
      ghost var w: nat, d: nat :| OptionHead(line[1..], w, d) && t == line[1..][d + 1..];
      OptionHeadShift(line, w, d);
      t
    else
      var t := NumberTail(line[1..]);
      ghost var d: nat :| NumberHeadAt(line[1..], d) && t == line[1..][d + 1..];
      OptionHeadOfNumber(line, d);
      t
  }

  /** The digits of `s` before `d`, then the delimiter `)` or `.` at `d`. */
  ghost predicate NumberHeadAt(s: string, d: nat) {
    d < |s| && (forall k :: 0 <= k < d ==> IsDigit(s[k])) && (s[d] == ')' || s[d] == '.')
  }

  /** After the first digit: the rest of the number, the delimiter at `d`, then the tail. */
  function NumberTail(s: string): (t: string)
    requires IsOptionNumber(s)
    ensures HasVisible(t)
    ensures exists d: nat :: NumberHeadAt(s, d) && t == s[d + 1..]
  {
    if IsDigit(s[0]) then
      var t := NumberTail(s[1..]);
      ghost var d: nat :| NumberHeadAt(s[1..], d) && t == s[1..][d + 1..];
      NumberHeadShift(s, d);
      t
    else
      assert NumberHeadAt(s, 0);
      s[1..]
  }

  lemma OptionHeadShift(line: string, w: nat, d: nat)
    requires line != [] && IsSpace(line[0]) && OptionHead(line[1..], w, d)
    ensures OptionHead(line, w + 1, d + 1) && line[1..][d + 1..] == line[d + 2..]
  {
    assert line[..w + 1] == [line[0]] + line[1..][..w];
  }

  lemma OptionHeadOfNumber(line: string, d: nat)
    requires line != [] && IsDigit(line[0]) && NumberHeadAt(line[1..], d)
    ensures OptionHead(line, 0, d + 1) && line[1..][d + 1..] == line[d + 2..]
  {
    assert forall k :: 1 <= k < d + 1 ==> line[k] == line[1..][k - 1];
  }

  lemma NumberHeadShift(s: string, d: nat)
    requires s != [] && IsDigit(s[0]) && NumberHeadAt(s[1..], d)
    ensures NumberHeadAt(s, d + 1) && s[1..][d + 1..] == s[d + 2..]
  {
    assert forall k :: 1 <= k < d + 1 ==> s[k] == s[1..][k - 1];
  }

  /**
   * The text of an option line: what follows `^\s*\d+[).]`, stripped (the
   * `\s*` after the delimiter is part of what the strip removes). It is
   * never empty.
   */
  function OptionText(line: string): (t: string)
    requires IsOptionLine(line)
    ensures exists w: nat, d: nat :: OptionHead(line, w, d) && t == Strip(line[d + 1..])
    ensures t != [] && !IsSpace(t[0]) && !IsSpace(t[|t| - 1])
  {
    HasVisibleIff(OptionTail(line));
    Strip(OptionTail(line))
  }

  /** A line is an option line exactly when it has the head and a visible character after it. */
  lemma {:induction false} OptionLineMeaning(line: string)
    ensures IsOptionLine(line) <==> exists w: nat, d: nat :: OptionHead(line, w, d) && HasVisible(line[d + 1..])
  {
    if IsOptionLine(line) {
      var t := OptionTail(line);
    }
    if w: nat, d: nat :| OptionHead(line, w, d) && HasVisible(line[d + 1..]) {
      OptionHeadIsOptionLine(line, w, d);
    }
  }

  lemma {:induction false} OptionHeadIsOptionLine(line: string, w: nat, d: nat)
    requires OptionHead(line, w, d) && HasVisible(line[d + 1..])
    ensures IsOptionLine(line)
    decreases w
  {
    if w > 0 {
      assert IsSpace(line[..w][0]);
      assert line[1..][..w - 1] == line[..w][1..];
      assert line[1..][d..] == line[d + 1..];
      OptionHeadIsOptionLine(line[1..], w - 1, d - 1);
    } else {
      NumberHead(line[1..], d - 1);
    }
  }

  lemma {:induction false} NumberHead(s: string, d: nat)
    requires d < |s| && (forall k :: 0 <= k < d ==> IsDigit(s[k])) && (s[d] == ')' || s[d] == '.')
    requires HasVisible(s[d + 1..])
    ensures IsOptionNumber(s)
    decreases d
  {
    if d > 0 {
      assert s[1..][d..] == s[d + 1..];
      NumberHead(s[1..], d - 1);
    }
  }

  /** Index of the first option line, or `|lines|` when there is none. */
  function FirstOption(lines: seq<string>): (k: nat)
    ensures k <= |lines|
  {
    if lines == [] || IsOptionLine(lines[0]) then 0 else 1 + FirstOption(lines[1..])
  }

  /** No line before `FirstOption` is an option line, and the line at it is one. */
  lemma {:induction false} FirstOptionIsFirst(lines: seq<string>)
    ensures forall i :: 0 <= i < FirstOption(lines) ==> !IsOptionLine(lines[i])
    ensures FirstOption(lines) < |lines| ==> IsOptionLine(lines[FirstOption(lines)])
  {
    if lines != [] && !IsOptionLine(lines[0]) {
      FirstOptionIsFirst(lines[1..]);
      assert forall i :: 1 <= i < |lines| ==> lines[i] == lines[1..][i - 1];
    }
  }

  /** What one line adds to the options: its text if it is an option line, else nothing. */
  function LineOption(line: string): (r: seq<string>)
    ensures |r| <= 1
    ensures r != [] <==> IsOptionLine(line)
    ensures forall k :: 0 <= k < |r| ==> r[k] != [] && Strip(r[k]) == r[k]
  {
    if IsOptionLine(line) then [OptionText(line)] else []
  }

  /** The options a sequence of lines yields, in line order. */
  function Options(lines: seq<string>): seq<string> {
    FlatMap(LineOption, lines)
  }

  /** The prompt: the lines before the first option line, joined with newlines and stripped. */
  function Prompt(lines: seq<string>): string {
    Strip(Join(lines[..FirstOption(lines)], '\n'))
  }

  /**
   * `extract_question_options`: a line that is an option line adds an
   * option; any other line is kept for the prompt only while no option has
   * been seen, and dropped after that.
   */
  method ExtractQuestionOptions(text: string) returns (prompt: string, options: seq<string>)
    ensures prompt == Prompt(Split(text, '\n'))
    ensures options == Options(Split(text, '\n'))
  {
    var lines := Split(text, '\n');
    var mainLines: seq<string> := [];
    options := [];
    for i := 0 to |lines|
      invariant options == Options(lines[..i])
      invariant mainLines == lines[..PromptEnd(lines, i)]
    {
      var line := lines[i];
      ExtractStep(lines, i);
      if IsOptionLine(line) {
        options := options + [OptionText(line)];
      } else if options == [] {
        mainLines := mainLines + [line];
      }
    }
    assert lines[..|lines|] == lines;
    prompt := Strip(Join(mainLines, '\n'));
  }

  /** How many of the first `i` lines the loop has kept for the prompt. */
  function PromptEnd(lines: seq<string>, i: nat): nat {
    if i < FirstOption(lines) then i else FirstOption(lines)
  }

  /** The first `i` lines give no option exactly when none of them is past the first option line. */
  lemma PrefixWithoutOptions(lines: seq<string>, i: nat)
    requires i <= |lines|
    ensures Options(lines[..i]) == [] <==> i <= FirstOption(lines)
  {
    OptionsEmptyIff(lines[..i]);
    FirstOptionIsFirst(lines);
    if i > FirstOption(lines) {
      assert lines[..i][FirstOption(lines)] == lines[FirstOption(lines)];
    }
  }

  /** Line `i` is kept for the prompt exactly when it comes before the first option line. */
  lemma PromptEndStep(lines: seq<string>, i: nat)
    requires i < |lines|
    ensures !IsOptionLine(lines[i]) && i <= FirstOption(lines) ==>
              PromptEnd(lines, i) == i && PromptEnd(lines, i + 1) == i + 1
    ensures IsOptionLine(lines[i]) || i > FirstOption(lines) ==>
              PromptEnd(lines, i + 1) == PromptEnd(lines, i)
  {
    FirstOptionIsFirst(lines);
  }

  /**
   * One step of the loop of `ExtractQuestionOptions`: line `i` adds its
   * option, and it extends the prompt lines exactly when it is not an option
   * line and no option has been seen yet.
   */
  lemma ExtractStep(lines: seq<string>, i: nat)
    requires i < |lines|
    ensures Options(lines[..i + 1]) == Options(lines[..i]) + LineOption(lines[i])
    ensures !IsOptionLine(lines[i]) && Options(lines[..i]) == [] ==>
              lines[..PromptEnd(lines, i + 1)] == lines[..PromptEnd(lines, i)] + [lines[i]]
    ensures IsOptionLine(lines[i]) || Options(lines[..i]) != [] ==>
              PromptEnd(lines, i + 1) == PromptEnd(lines, i)
  {
    FlatMapPrefixStep(LineOption, lines, i);
    PrefixWithoutOptions(lines, i);
    PromptEndStep(lines, i);
    TakeStep(lines, i);
  }

  /** Every option is a non-empty text. */
  lemma {:induction false} OptionsNonEmpty(lines: seq<string>)
    ensures forall k :: 0 <= k < |Options(lines)| ==> Options(lines)[k] != []
  {
    if lines != [] {
      OptionsNonEmpty(lines[..|lines| - 1]);
      assert Options(lines) == Options(lines[..|lines| - 1]) + LineOption(lines[|lines| - 1]);
    }
  }

  /** At most one option per line. */
  lemma {:induction false} OptionsAtMostOnePerLine(lines: seq<string>)
    ensures |Options(lines)| <= |lines|
  {
    if lines != [] {
      OptionsAtMostOnePerLine(lines[..|lines| - 1]);
      assert Options(lines) == Options(lines[..|lines| - 1]) + LineOption(lines[|lines| - 1]);
    }
  }

  /** There are no options exactly when no line is an option line. */
  lemma OptionsEmptyIff(lines: seq<string>)
    ensures Options(lines) == [] <==> forall i :: 0 <= i < |lines| ==> !IsOptionLine(lines[i])
  {
    FlatMapEmptyIff(LineOption, lines);
    assert forall i :: 0 <= i < |lines| ==> (LineOption(lines[i]) == [] <==> !IsOptionLine(lines[i]));
  }

  /**
   * Line `i` contributes exactly its own option when it is an option line
   * and nothing otherwise, between the options of the lines before and
   * after it.
   */
  lemma OptionsAround(lines: seq<string>, i: nat)
    requires i < |lines|
    ensures Options(lines) == Options(lines[..i]) + LineOption(lines[i]) + Options(lines[i + 1..])
  {
    FlatMapAround(LineOption, lines, i);
  }

  /** Without any option line, there are no options and the prompt is the whole text stripped. */
  lemma NoOptionLines(text: string)
    requires forall i :: 0 <= i < |Split(text, '\n')| ==> !IsOptionLine(Split(text, '\n')[i])
    ensures Options(Split(text, '\n')) == []
    ensures Prompt(Split(text, '\n')) == Strip(text)
  {
    var lines := Split(text, '\n');
    OptionsEmptyIff(lines);
    NoOptionLineFirst(lines);
    assert lines[..|lines|] == lines;
    JoinSplit(text, '\n');
  }

  lemma {:induction false} NoOptionLineFirst(lines: seq<string>)
    requires forall i :: 0 <= i < |lines| ==> !IsOptionLine(lines[i])
    ensures FirstOption(lines) == |lines|
  {
    if lines != [] {
      NoOptionLineFirst(lines[1..]);
    }
  }

  /** A line holding a bare number and delimiter is not an option line. */
  lemma BareNumberIsNotOption()
    ensures !IsOptionLine("1)")
  {
    assert "1)"[1..] == ")";
    assert ")"[1..] == [];
  }

  /** `1) A` is an option line whose text is `A`. */
  lemma OptionLineExample()
    ensures IsOptionLine("1) A") && OptionText("1) A") == "A"
  {
    OptionTailExample();
    assert " A"[1..] == "A";
    assert TrimLeft(" A") == "A";
  }

  lemma OptionTailExample()
    ensures IsOptionLine("1) A") && OptionTail("1) A") == " A"
  {
    assert "1) A"[1..] == ") A";
    assert ") A"[1..] == " A";
    assert HasVisible(" A") by {
      assert " A"[1..] == "A";
    }
  }

  // ---------------------------------------------------------------------
  // Span normalisation (parse_pdf_questions)
  // ---------------------------------------------------------------------

  /**
   * `re.sub(r'\n\s+', '\n', s)`: a newline followed by whitespace absorbs
   * all of that whitespace. Afterwards no newline is followed by whitespace.
   */
  function CollapseIndents(s: string): (r: string)
    ensures |r| <= |s|
    ensures s != [] ==> r != [] && r[0] == s[0]
    ensures forall i :: 0 <= i < |r| - 1 && r[i] == '\n' ==> !IsSpace(r[i + 1])
    decreases |s|
  {
    if s == [] then []
    else if s[0] == '\n' && |s| > 1 && IsSpace(s[1]) then "\n" + CollapseIndents(TrimLeft(s[1..]))
    else [s[0]] + CollapseIndents(s[1..])
  }

  /** No two consecutive characters are both whitespace. */
  predicate NoDoubleSpace(s: string) {
    forall i :: 0 <= i < |s| - 1 ==> !(IsSpace(s[i]) && IsSpace(s[i + 1]))
  }

  /**
   * `re.sub(r'\s{2,}', ' ', s)`: every run of two or more whitespace
   * characters becomes one space. Afterwards no two whitespace characters
   * are adjacent.
   */
  function CollapseSpaces(s: string): (r: string)
    ensures |r| <= |s|
    ensures s != [] ==> r != [] && (IsSpace(r[0]) <==> IsSpace(s[0]))
    ensures NoDoubleSpace(r)
    decreases |s|
  {
    if |s| >= 2 && IsSpace(s[0]) && IsSpace(s[1]) then " " + CollapseSpaces(TrimLeft(s))
    else if s == [] then []
    else [s[0]] + CollapseSpaces(s[1..])
  }

  /** The two substitutions in the order the extractor applies them. */
  function Normalise(s: string): string {
    CollapseSpaces(CollapseIndents(s))
  }

  /** Text without adjacent whitespace is left alone by both substitutions. */
  lemma {:induction false} NormalisedIsFixed(s: string)
    requires NoDoubleSpace(s)
    ensures CollapseIndents(s) == s
    ensures CollapseSpaces(s) == s
    decreases |s|
  {
    if s != [] {
      NormalisedIsFixed(s[1..]);
      assert [s[0]] + s[1..] == s;
    }
  }

  /** Applying the pair of substitutions a second time changes nothing. */
  lemma NormaliseIdempotent(s: string)
    ensures Normalise(Normalise(s)) == Normalise(s)
  {
    NormalisedIsFixed(Normalise(s));
  }

  /** The characters of `s` that are not whitespace, in order. */
  function Visible(s: string): string {
    if s == [] then [] else (if IsSpace(s[0]) then [] else [s[0]]) + Visible(s[1..])
  }

  lemma {:induction false} VisibleTrimLeft(s: string)
    ensures Visible(TrimLeft(s)) == Visible(s)
  {
    if s != [] && IsSpace(s[0]) {
      VisibleTrimLeft(s[1..]);
    }
  }

  lemma VisibleCons(c: char, s: string)
    ensures Visible([c] + s) == (if IsSpace(c) then [] else [c]) + Visible(s)
  {
    assert ([c] + s)[1..] == s;
  }

  /** The first substitution only removes whitespace: the visible text is unchanged. */
  lemma {:induction false} CollapseIndentsKeepsVisible(s: string)
    ensures Visible(CollapseIndents(s)) == Visible(s)
    decreases |s|
  {
    if s != [] {
      if s[0] == '\n' && |s| > 1 && IsSpace(s[1]) {
        CollapseIndentsKeepsVisible(TrimLeft(s[1..]));
        VisibleTrimLeft(s[1..]);
        VisibleCons('\n', CollapseIndents(TrimLeft(s[1..])));
      } else {
        CollapseIndentsKeepsVisible(s[1..]);
        VisibleCons(s[0], CollapseIndents(s[1..]));
      }
    }
  }

  /** The second substitution only rewrites whitespace: the visible text is unchanged. */
  lemma {:induction false} CollapseSpacesKeepsVisible(s: string)
    ensures Visible(CollapseSpaces(s)) == Visible(s)
    decreases |s|
  {
    if |s| >= 2 && IsSpace(s[0]) && IsSpace(s[1]) {
      CollapseSpacesKeepsVisible(TrimLeft(s));
      VisibleTrimLeft(s);
      VisibleCons(' ', CollapseSpaces(TrimLeft(s)));
    } else if s != [] {
      CollapseSpacesKeepsVisible(s[1..]);
      VisibleCons(s[0], CollapseSpaces(s[1..]));
    }
  }

  /**
   * The whitespace runs of `s`: the run before each visible character, in
   * order, then the run at the end. With `Visible(s)` they make up `s`.
   */
  function Gaps(s: string): (g: seq<string>)
    ensures |g| >= 1
    decreases |s|
  {
    var t := TrimLeft(s);
    TrimLeftIsSuffix(s);
    if t == [] then [s] else [s[..|s| - |t|]] + Gaps(t[1..])
  }

  /** `f` applied to every run. */
  function MapGaps(f: string -> string, gaps: seq<string>): (r: seq<string>)
    ensures |r| == |gaps|
    ensures forall k :: 0 <= k < |gaps| ==> r[k] == f(gaps[k])
  {
    if gaps == [] then [] else [f(gaps[0])] + MapGaps(f, gaps[1..])
  }

  /** What `\s{2,}` → `' '` does to one run: two or more characters become one space. */
  function SpaceGap(g: string): string {
    if |g| >= 2 then " " else g
  }

  /**
   * What `\n\s+` → `'\n'` does to one run: when more whitespace follows
   * its first newline, the run ends at that newline.
   */
  function IndentGap(g: string): string {
    if g == [] then []
    else if g[0] == '\n' then (if |g| >= 2 then "\n" else g)
    else [g[0]] + IndentGap(g[1..])
  }

  lemma {:induction false} SpaceGapIsSpace(g: string)
    requires AllSpace(g)
    ensures AllSpace(SpaceGap(g)) && AllSpace(IndentGap(g))
  {
    if g != [] && g[0] != '\n' {
      SpaceGapIsSpace(g[1..]);
    }
  }

  /** A run of whitespace is one gap. */
  lemma GapsOfSpaces(w: string)
    requires AllSpace(w)
    ensures Gaps(w) == [w]
  {
    TrimLeftOfSpaces(w, []);
    assert w + [] == w;
  }

  /** A run followed by a visible character opens the list of gaps. */
  lemma GapsCons(w: string, c: char, u: string)
    requires AllSpace(w) && !IsSpace(c)
    ensures Gaps(w + [c] + u) == [w] + Gaps(u)
  {
    var s := w + [c] + u;
    assert s == w + ([c] + u);
    TrimLeftOfSpaces(w, [c] + u);
    assert ([c] + u)[1..] == u;
    assert s[..|s| - |[c] + u|] == w;
  }

  lemma MapGapsCons(f: string -> string, g: string, gaps: seq<string>)
    ensures MapGaps(f, [g] + gaps) == [f(g)] + MapGaps(f, gaps)
  {
    assert ([g] + gaps)[1..] == gaps;
  }

  /** The second rewrite acts on one run at a time. */
  lemma CollapseSpacesRun(w: string, t: string)
    requires AllSpace(w) && (t == [] || !IsSpace(t[0]))
    ensures CollapseSpaces(w + t) == SpaceGap(w) + CollapseSpaces(t)
  {
    if |w| >= 2 {
      CollapseSpacesLongRun(w, t);
    } else if |w| == 1 {
      CollapseSpacesShortRun(w, t);
    } else {
      assert w + t == t;
    }
  }

  lemma CollapseSpacesLongRun(w: string, t: string)
    requires AllSpace(w) && |w| >= 2 && (t == [] || !IsSpace(t[0]))
    ensures CollapseSpaces(w + t) == " " + CollapseSpaces(t)
  {
    var s := w + t;
    assert IsSpace(s[0]) && IsSpace(s[1]);
    TrimLeftOfSpaces(w, t);
  }

  lemma CollapseSpacesShortRun(w: string, t: string)
    requires AllSpace(w) && |w| == 1 && (t == [] || !IsSpace(t[0]))
    ensures CollapseSpaces(w + t) == w + CollapseSpaces(t)
  {
    var s := w + t;
    assert s[0] == w[0] && s[1..] == t;
    assert !(|s| >= 2 && IsSpace(s[1]));
    assert w == [s[0]];
  }

  lemma CollapseSpacesVisible(c: char, u: string)
    requires !IsSpace(c)
    ensures CollapseSpaces([c] + u) == [c] + CollapseSpaces(u)
  {
    assert ([c] + u)[1..] == u;
  }

  /** The first rewrite acts on one run at a time. */
  lemma {:induction false} CollapseIndentsRun(w: string, t: string)
    requires AllSpace(w) && (t == [] || !IsSpace(t[0]))
    ensures CollapseIndents(w + t) == IndentGap(w) + CollapseIndents(t)
    decreases |w|
  {
    var s := w + t;
    if w == [] {
      assert s == t;
    } else if w[0] == '\n' && |w| >= 2 {
      IndentNewlineRun(w, t);
    } else if w[0] == '\n' {
      IndentNewlineAlone(w, t);
    } else {
      assert s[0] == w[0] && s[0] != '\n';
      assert s[1..] == w[1..] + t;
      assert CollapseIndents(s) == [w[0]] + CollapseIndents(w[1..] + t);
      CollapseIndentsRun(w[1..], t);
      assert IndentGap(w) == [w[0]] + IndentGap(w[1..]);
    }
  }

  lemma IndentNewlineRun(w: string, t: string)
    requires AllSpace(w) && |w| >= 2 && w[0] == '\n' && (t == [] || !IsSpace(t[0]))
    ensures CollapseIndents(w + t) == IndentGap(w) + CollapseIndents(t)
  {
    var s := w + t;
    assert s[0] == '\n' && IsSpace(s[1]);
    assert s[1..] == w[1..] + t;
    TrimLeftOfSpaces(w[1..], t);
    assert CollapseIndents(s) == "\n" + CollapseIndents(t);
  }

  lemma IndentNewlineAlone(w: string, t: string)
    requires w == "\n" && (t == [] || !IsSpace(t[0]))
    ensures CollapseIndents(w + t) == IndentGap(w) + CollapseIndents(t)
  {
    var s := w + t;
    assert s[1..] == t;
    assert |s| > 1 ==> !IsSpace(s[1]);
    assert CollapseIndents(s) == [s[0]] + CollapseIndents(s[1..]);
  }

  lemma CollapseIndentsVisible(c: char, u: string)
    requires !IsSpace(c)
    ensures CollapseIndents([c] + u) == [c] + CollapseIndents(u)
  {
    assert ([c] + u)[1..] == u;
  }

  /**
   * The second rewrite turns every whitespace run of two or more characters
   * into one space and leaves single whitespace characters alone. With
   * `CollapseSpacesKeepsVisible` and `GapsDetermine` this fixes the result.
   */
  lemma {:induction false} CollapseSpacesGaps(s: string)
    ensures Gaps(CollapseSpaces(s)) == MapGaps(SpaceGap, Gaps(s))
    decreases |s|
  {
    var t := TrimLeft(s);
    TrimLeftIsSuffix(s);
    var w := s[..|s| - |t|];
    assert s == w + t;
    if t == [] {
      assert s == w;
      CollapseSpacesGapsEnd(w);
    } else {
      var c, u := t[0], t[1..];
      assert t == [c] + u;
      assert s == w + [c] + u;
      CollapseSpacesGaps(u);
      CollapseSpacesGapsStep(w, c, u);
    }
  }

  lemma CollapseSpacesGapsEnd(w: string)
    requires AllSpace(w)
    ensures Gaps(CollapseSpaces(w)) == MapGaps(SpaceGap, Gaps(w))
  {
    CollapseSpacesRun(w, []);
    assert w + [] == w;
    assert SpaceGap(w) + [] == SpaceGap(w);
    SpaceGapIsSpace(w);
    GapsOfSpaces(SpaceGap(w));
    GapsOfSpaces(w);
    MapGapsCons(SpaceGap, w, []);
  }

  lemma CollapseSpacesGapsStep(w: string, c: char, u: string)
    requires AllSpace(w) && !IsSpace(c)
    requires Gaps(CollapseSpaces(u)) == MapGaps(SpaceGap, Gaps(u))
    ensures Gaps(CollapseSpaces(w + [c] + u)) == MapGaps(SpaceGap, Gaps(w + [c] + u))
  {
    CollapseSpacesSplit(w, c, u);
    SpaceGapIsSpace(w);
    GapsCons(SpaceGap(w), c, CollapseSpaces(u));
    GapsCons(w, c, u);
    MapGapsCons(SpaceGap, w, Gaps(u));
  }

  lemma CollapseSpacesSplit(w: string, c: char, u: string)
    requires AllSpace(w) && !IsSpace(c)
    ensures CollapseSpaces(w + [c] + u) == SpaceGap(w) + [c] + CollapseSpaces(u)
  {
    var t := [c] + u;
    assert w + [c] + u == w + t;
    CollapseSpacesRun(w, t);
    CollapseSpacesVisible(c, u);
    assert SpaceGap(w) + ([c] + CollapseSpaces(u)) == SpaceGap(w) + [c] + CollapseSpaces(u);
  }


  /**
   * The first rewrite cuts every whitespace run short after its first
   * newline that has more whitespace after it, and leaves other runs alone.
   * With `CollapseIndentsKeepsVisible` and `GapsDetermine` this fixes the
   * result.
   */
  lemma {:induction false} CollapseIndentsGaps(s: string)
    ensures Gaps(CollapseIndents(s)) == MapGaps(IndentGap, Gaps(s))
    decreases |s|
  {
    var t := TrimLeft(s);
    TrimLeftIsSuffix(s);
    var w := s[..|s| - |t|];
    assert s == w + t;
    if t == [] {
      assert s == w;
      CollapseIndentsGapsEnd(w);
    } else {
      var c, u := t[0], t[1..];
      assert t == [c] + u;
      assert s == w + [c] + u;
      CollapseIndentsGaps(u);
      CollapseIndentsGapsStep(w, c, u);
    }
  }

  lemma CollapseIndentsGapsEnd(w: string)
    requires AllSpace(w)
    ensures Gaps(CollapseIndents(w)) == MapGaps(IndentGap, Gaps(w))
  {
    CollapseIndentsRun(w, []);
    assert w + [] == w;
    assert IndentGap(w) + [] == IndentGap(w);
    SpaceGapIsSpace(w);
    GapsOfSpaces(IndentGap(w));
    GapsOfSpaces(w);
    MapGapsCons(IndentGap, w, []);
  }

  lemma CollapseIndentsGapsStep(w: string, c: char, u: string)
    requires AllSpace(w) && !IsSpace(c)
    requires Gaps(CollapseIndents(u)) == MapGaps(IndentGap, Gaps(u))
    ensures Gaps(CollapseIndents(w + [c] + u)) == MapGaps(IndentGap, Gaps(w + [c] + u))
  {
    CollapseIndentsSplit(w, c, u);
    SpaceGapIsSpace(w);
    GapsCons(IndentGap(w), c, CollapseIndents(u));
    GapsCons(w, c, u);
    MapGapsCons(IndentGap, w, Gaps(u));
  }

  lemma CollapseIndentsSplit(w: string, c: char, u: string)
    requires AllSpace(w) && !IsSpace(c)
    ensures CollapseIndents(w + [c] + u) == IndentGap(w) + [c] + CollapseIndents(u)
  {
    var t := [c] + u;
    assert w + [c] + u == w + t;
    CollapseIndentsRun(w, t);
    CollapseIndentsVisible(c, u);
    assert IndentGap(w) + ([c] + CollapseIndents(u)) == IndentGap(w) + [c] + CollapseIndents(u);
  }


  /** The visible text and the runs between its characters make up the whole text. */
  lemma {:induction false} GapsDetermine(a: string, b: string)
    requires Visible(a) == Visible(b) && Gaps(a) == Gaps(b)
    ensures a == b
    decreases |a|
  {
    VisibleEmpty(a);
    VisibleEmpty(b);
    if TrimLeft(a) == [] {
      assert Gaps(a) == [a] && Gaps(b) == [b];
    } else {
      var ta, tb := TrimLeft(a), TrimLeft(b);
      GapsUncons(a);
      GapsUncons(b);
      var wa, wb := a[..|a| - |ta|], b[..|b| - |tb|];
      assert Visible(a)[0] == ta[0] && Visible(a)[1..] == Visible(ta[1..]);
      assert Visible(b)[0] == tb[0] && Visible(b)[1..] == Visible(tb[1..]);
      assert Gaps(a)[0] == wa && Gaps(a)[1..] == Gaps(ta[1..]);
      assert Gaps(b)[0] == wb && Gaps(b)[1..] == Gaps(tb[1..]);
      GapsDetermine(ta[1..], tb[1..]);
      assert ta == [ta[0]] + ta[1..] && tb == [tb[0]] + tb[1..];
    }
  }

  /** A text with a visible character splits into its first run, that character and the rest. */
  lemma GapsUncons(a: string)
    requires TrimLeft(a) != []
    ensures |TrimLeft(a)| <= |a| && a == a[..|a| - |TrimLeft(a)|] + TrimLeft(a)
    ensures Visible(a) == [TrimLeft(a)[0]] + Visible(TrimLeft(a)[1..])
    ensures Gaps(a) == [a[..|a| - |TrimLeft(a)|]] + Gaps(TrimLeft(a)[1..])
  {
    var t := TrimLeft(a);
    TrimLeftIsSuffix(a);
    var w := a[..|a| - |t|];
    assert a == w + t;
    VisibleTrimLeft(a);
    VisibleCons(t[0], t[1..]);
    assert t == [t[0]] + t[1..];
  }

  /** The visible text is empty exactly when the text is whitespace only. */
  lemma VisibleEmpty(s: string)
    ensures Visible(s) == [] <==> TrimLeft(s) == []
  {
    VisibleTrimLeft(s);
    var t := TrimLeft(s);
    if t != [] {
      VisibleCons(t[0], t[1..]);
      assert t == [t[0]] + t[1..];
    }
  }

  lemma {:induction false} VisibleOfSpaces(w: string)
    requires AllSpace(w)
    ensures Visible(w) == []
  {
    if w != [] {
      VisibleOfSpaces(w[1..]);
    }
  }

  /**
   * The second rewrite also removes line breaks: a line ending in a space
   * is joined to the next, so `1) A` after it is no longer an option line
   * and the option is lost.
   */
  lemma NormaliseJoinsLines()
    ensures Normalise("Q \n1) A") == "Q 1) A"
    ensures Options(Split(Normalise("Q \n1) A"), '\n')) == []
  {
    var y := "1) A";
    assert NoDoubleSpace(y) by {
      assert y[1] == ')' && y[3] == 'A';
    }
    LineJoin('Q', y);
    assert ['Q'] + " \n" + y == "Q \n1) A";
    assert ['Q'] + " " + y == "Q 1) A";
    JoinedOptions();
  }

  /** After a visible character, a space and a line break become one space. */
  lemma LineJoin(q: char, y: string)
    requires !IsSpace(q) && NoDoubleSpace(y) && y != [] && !IsSpace(y[0])
    ensures Normalise([q] + " \n" + y) == [q] + " " + y
  {
    LineJoinIndents(q, y);
    LineJoinSpaces(q, y);
  }

  lemma LineJoinIndents(q: char, y: string)
    requires !IsSpace(q) && NoDoubleSpace(y) && y != [] && !IsSpace(y[0])
    ensures CollapseIndents([q] + " \n" + y) == [q] + " \n" + y
  {
    var g := " \n";
    assert [q] + g + y == [q] + (g + y);
    NormalisedIsFixed(y);
    CollapseIndentsVisible(q, g + y);
    CollapseIndentsRun(g, y);
    assert IndentGap(g) == g by {
      assert g[0] == ' ' && g[1..] == "\n";
    }
  }

  lemma LineJoinSpaces(q: char, y: string)
    requires !IsSpace(q) && NoDoubleSpace(y) && y != [] && !IsSpace(y[0])
    ensures CollapseSpaces([q] + " \n" + y) == [q] + " " + y
  {
    var g := " \n";
    assert [q] + g + y == [q] + (g + y);
    GapBecomesSpace(y);
    CollapseSpacesVisible(q, g + y);
    assert [q] + (" " + y) == [q] + " " + y;
  }

  lemma GapBecomesSpace(y: string)
    requires NoDoubleSpace(y) && y != [] && !IsSpace(y[0])
    ensures CollapseSpaces(" \n" + y) == " " + y
  {
    NormalisedIsFixed(y);
    CollapseSpacesRun(" \n", y);
  }

  lemma JoinedOptions()
    ensures Options(Split("Q 1) A", '\n')) == []
  {
    SplitWithoutSep("Q 1) A", '\n');
    assert !IsOptionLine("Q 1) A");
    OptionsEmptyIff(["Q 1) A"]);
  }

  // ---------------------------------------------------------------------
  // Answer strings (parse_answer_string)
  // ---------------------------------------------------------------------

  /** `re.sub(r'[^\d,]', '', s)`: only the digits and commas of `s`, in order. */
  function KeepDigitsAndCommas(s: string): (r: string)
    ensures |r| <= |s|
    ensures forall i :: 0 <= i < |r| ==> IsDigit(r[i]) || r[i] == ','
  {
    if s == [] then []
    else (if IsDigit(s[0]) || s[0] == ',' then [s[0]] else []) + KeepDigitsAndCommas(s[1..])
  }

  /** `[int(x) - 1 for x in tokens if x.isdigit()]`; every index is at least -1. */
  function TokenIndices(tokens: seq<string>): (r: seq<int>)
    ensures |r| <= |tokens|
    ensures forall k :: 0 <= k < |r| ==> r[k] >= -1
  {
    if tokens == [] then []
    else
      (if IsDigitString(tokens[0]) then [DigitsValue(tokens[0]) - 1] else [])
      + TokenIndices(tokens[1..])
  }

  /** `parse_answer_string`: the 0-based option indices an answer string names. */
  function ParseAnswerString(s: string): seq<int> {
    var t := Strip(s);
    if t == [] then []
    else
      var cleaned := KeepDigitsAndCommas(t);
      if cleaned == [] then [] else TokenIndices(Split(cleaned, ','))
  }

  lemma {:induction false} KeepAppend(a: string, b: string)
    ensures KeepDigitsAndCommas(a + b) == KeepDigitsAndCommas(a) + KeepDigitsAndCommas(b)
  {
    if a != [] {
      assert (a + b)[0] == a[0];
      assert (a + b)[1..] == a[1..] + b;
      KeepAppend(a[1..], b);
      var p := if IsDigit(a[0]) || a[0] == ',' then [a[0]] else [];
      assert KeepDigitsAndCommas(a + b) == p + KeepDigitsAndCommas(a[1..] + b);
      assert KeepDigitsAndCommas(a) == p + KeepDigitsAndCommas(a[1..]);
    } else {
      assert a + b == b;
    }
  }

  lemma {:induction false} KeepSpaces(s: string)
    requires AllSpace(s)
    ensures KeepDigitsAndCommas(s) == []
  {
    if s != [] {
      KeepSpaces(s[1..]);
    }
  }

  /**
   * The blank-input checks are subsumed by the filter: the result is always
   * the indices of the non-empty comma-separated tokens of the digits and
   * commas of `s`, in token order. So `"1 3"` reads as `12`.
   */
  lemma ParseAnswerStringFilters(s: string)
    ensures ParseAnswerString(s) == TokenIndices(Split(KeepDigitsAndCommas(s), ','))
  {
    var t := Strip(s);
    KeepOfStrip(s);
    if KeepDigitsAndCommas(t) == [] {
      assert Split([], ',') == [[]];
      assert !IsDigitString([]);
    }
  }

  /** Stripping removes only whitespace, which the filter drops anyway. */
  lemma KeepOfStrip(s: string)
    ensures KeepDigitsAndCommas(Strip(s)) == KeepDigitsAndCommas(s)
  {
    var l := TrimLeft(s);
    TrimLeftIsSuffix(s);
    TrimRightIsPrefix(l);
    var i := |s| - |l|;
    var r := TrimRight(l);
    assert s == s[..i] + l;
    assert l == r + l[|r|..];
    KeepAppend(s[..i], l);
    KeepAppend(r, l[|r|..]);
    KeepSpaces(s[..i]);
    KeepSpaces(l[|r|..]);
  }

  lemma {:induction false} SplitOfCommas(s: string)
    requires forall i :: 0 <= i < |s| ==> s[i] == ','
    ensures forall k :: 0 <= k < |Split(s, ',')| ==> Split(s, ',')[k] == []
  {
    if s != [] {
      SplitOfCommas(s[1..]);
    }
  }

  lemma {:induction false} TokenIndicesOfEmpty(tokens: seq<string>)
    requires forall k :: 0 <= k < |tokens| ==> tokens[k] == []
    ensures TokenIndices(tokens) == []
  {
    if tokens != [] {
      TokenIndicesOfEmpty(tokens[1..]);
    }
  }

  /** An answer string without digits gives no indices. */
  lemma NoDigitsNoIndices(s: string)
    requires forall i :: 0 <= i < |s| ==> !IsDigit(s[i])
    ensures ParseAnswerString(s) == []
  {
    ParseAnswerStringFilters(s);
    var cleaned := KeepDigitsAndCommas(s);
    assert forall i :: 0 <= i < |cleaned| ==> cleaned[i] == ',' by {
      KeepNoDigits(s);
    }
    SplitOfCommas(cleaned);
    TokenIndicesOfEmpty(Split(cleaned, ','));
  }

  lemma {:induction false} KeepNoDigits(s: string)
    requires forall i :: 0 <= i < |s| ==> !IsDigit(s[i])
    ensures forall i :: 0 <= i < |KeepDigitsAndCommas(s)| ==> !IsDigit(KeepDigitsAndCommas(s)[i])
  {
    if s != [] {
      KeepNoDigits(s[1..]);
    }
  }

  /** The answer-key spelling of 0-based indices: 1-based numbers separated by commas. */
  function FormatAnswer(indices: seq<nat>): string {
    Join(NumberTokens(indices), ',')
  }

  function NumberTokens(indices: seq<nat>): (tokens: seq<string>)
    ensures |tokens| == |indices|
    ensures forall k :: 0 <= k < |tokens| ==> IsDigitString(tokens[k])
  {
    if indices == [] then [] else [DecimalString(indices[0] + 1)] + NumberTokens(indices[1..])
  }

  lemma {:induction false} JoinOfDigitTokens(tokens: seq<string>)
    requires |tokens| >= 1
    requires forall k :: 0 <= k < |tokens| ==> IsDigitString(tokens[k])
    ensures |Join(tokens, ',')| >= 1
    ensures forall i :: 0 <= i < |Join(tokens, ',')| ==>
              IsDigit(Join(tokens, ',')[i]) || Join(tokens, ',')[i] == ','
  {
    if |tokens| > 1 {
      JoinOfDigitTokens(tokens[1..]);
    }
  }

  lemma {:induction false} KeepDigitsAndCommasUnchanged(s: string)
    requires forall i :: 0 <= i < |s| ==> IsDigit(s[i]) || s[i] == ','
    ensures KeepDigitsAndCommas(s) == s
  {
    if s != [] {
      KeepDigitsAndCommasUnchanged(s[1..]);
      assert [s[0]] + s[1..] == s;
    }
  }

  /** Every character other than a digit or a comma is deleted, not rewritten. */
  lemma {:induction false} KeepDropsOthers(s: string)
    requires forall i :: 0 <= i < |s| ==> !IsDigit(s[i]) && s[i] != ','
    ensures KeepDigitsAndCommas(s) == []
  {
    if s != [] {
      KeepDropsOthers(s[1..]);
    }
  }

  /** Each digit token gives `int(t) - 1`, in token order. */
  lemma {:induction false} TokenIndicesOfDigits(tokens: seq<string>)
    requires forall k :: 0 <= k < |tokens| ==> IsDigitString(tokens[k])
    ensures |TokenIndices(tokens)| == |tokens|
    ensures forall k :: 0 <= k < |tokens| ==>
      IsDigitString(tokens[k]) && TokenIndices(tokens)[k] == DigitsValue(tokens[k]) - 1
  {
    if tokens != [] {
      TokenIndicesOfDigits(tokens[1..]);
      assert forall k :: 1 <= k < |tokens| ==> tokens[k] == tokens[1..][k - 1];
    }
  }

  /** The tokens are read one at a time: the indices of a concatenation are concatenated. */
  lemma {:induction false} TokenIndicesAppend(a: seq<string>, b: seq<string>)
    ensures TokenIndices(a + b) == TokenIndices(a) + TokenIndices(b)
  {
    if a == [] {
      assert a + b == b;
    } else {
      assert (a + b)[1..] == a[1..] + b;
      TokenIndicesAppend(a[1..], b);
    }
  }

  /** A token that is not a digit string contributes nothing. */
  lemma TokenIndicesSkips(t: string)
    requires !IsDigitString(t)
    ensures TokenIndices([t]) == []
  {
    assert [t][1..] == [];
  }

  lemma {:induction false} TokenIndicesOfNumbers(indices: seq<nat>)
    ensures TokenIndices(NumberTokens(indices)) == indices
  {
    if indices != [] {
      DecimalRoundTrip(indices[0] + 1);
      TokenIndicesOfNumbers(indices[1..]);
      assert NumberTokens(indices)[1..] == NumberTokens(indices[1..]);
      assert [indices[0]] + indices[1..] == indices;
    }
  }

  /** Reading back the answer-key spelling of a list of indices gives the list. */
  lemma AnswerStringRoundTrip(indices: seq<nat>)
    ensures ParseAnswerString(FormatAnswer(indices)) == indices
  {
    if indices != [] {
      var tokens := NumberTokens(indices);
      var s := Join(tokens, ',');
      JoinOfDigitTokens(tokens);
      assert !IsSpace(s[0]) && !IsSpace(s[|s| - 1]);
      StripUnchanged(s);
      KeepDigitsAndCommasUnchanged(s);
      forall k | 0 <= k < |tokens| ensures ',' !in tokens[k] {
        assert IsDigitString(tokens[k]);
      }
      SplitJoin(tokens, ',');
      TokenIndicesOfNumbers(indices);
    }
  }

  /** `"1,3"` names the first and third options. */
  lemma AnswerStringExample()
    ensures ParseAnswerString("1,3") == [0, 2]
  {
    FormatExample();
    AnswerStringRoundTrip([0, 2]);
  }

  lemma FormatExample()
    ensures FormatAnswer([0, 2]) == "1,3"
  {
    NumberTokensExample();
    assert Join(["1", "3"], ',') == "1,3";
  }

  lemma NumberTokensExample()
    ensures NumberTokens([0, 2]) == ["1", "3"]
  {
    assert [0, 2][1..] == [2];
    assert DecimalString(1) == "1";
    assert DecimalString(3) == "3";
  }

  /** Spaces inside an answer are deleted, so `"1 3"` names option 13. */
  lemma AnswerStringSpaceQuirk()
    ensures ParseAnswerString("1 3") == [12]
  {
    ParseAnswerStringFilters("1 3");
    KeepSpaceExample();
    SplitWithoutSep("13", ',');
    ThirteenExample();
  }

  lemma KeepSpaceExample()
    ensures KeepDigitsAndCommas("1 3") == "13"
  {
    assert "1 3"[1..] == " 3";
    assert " 3"[1..] == "3";
    KeepDigitsAndCommasUnchanged("3");
  }

  lemma ThirteenExample()
    ensures TokenIndices(["13"]) == [12]
  {
    assert "13"[..1] == "1";
    assert DigitsValue("13") == 13;
    assert ["13"][1..] == [];
  }

  /** A comma in front adds only an empty token, which is skipped. */
  lemma LeadingCommaIgnored(s: string)
    ensures ParseAnswerString([','] + s) == ParseAnswerString(s)
  {
    ParseAnswerStringFilters([','] + s);
    ParseAnswerStringFilters(s);
    assert ([','] + s)[1..] == s;
    var k := KeepDigitsAndCommas(s);
    assert ([','] + k)[1..] == k;
    assert ([[]] + Split(k, ','))[1..] == Split(k, ',');
    assert !IsDigitString([]);
  }

  /** Empty tokens are skipped: `",,2"` names the second option only. */
  lemma AnswerStringEmptyTokens()
    ensures ParseAnswerString(",,2") == [1]
  {
    LeadingCommaIgnored(",2");
    assert [','] + ",2" == ",,2";
    LeadingCommaIgnored("2");
    assert [','] + "2" == ",2";
    AnswerStringTwo();
  }

  lemma AnswerStringTwo()
    ensures ParseAnswerString("2") == [1]
  {
    ParseAnswerStringFilters("2");
    KeepDigitsAndCommasUnchanged("2");
    SplitWithoutSep("2", ',');
    assert ["2"][1..] == [];
  }

  /** An answer of `0` gives index -1, which nothing rejects. */
  lemma AnswerStringZero()
    ensures ParseAnswerString("0") == [-1]
  {
    ParseAnswerStringFilters("0");
    KeepDigitsAndCommasUnchanged("0");
    SplitWithoutSep("0", ',');
    assert ["0"][1..] == [];
  }

  // ---------------------------------------------------------------------
  // Answer-key lines (parse_answers)
  // ---------------------------------------------------------------------

  /** A character `[\s°]` matches: whitespace or the degree sign. */
  predicate IsSeparator(c: char) {
    IsSpace(c) || c == '\U{b0}'
  }

  /** Length of the run of separators at the start of `s` (greedy `[\s°]*`). */
  function SeparatorRun(s: string): (n: nat)
    ensures n <= |s|
    ensures forall i :: 0 <= i < n ==> IsSeparator(s[i])
    ensures n < |s| ==> !IsSeparator(s[n])
  {
    if s != [] && IsSeparator(s[0]) then 1 + SeparatorRun(s[1..]) else 0
  }

  /**
   * Where a match of `^(N|№|\d+)[\s°]*\d+` at the start of `line` ends, or
   * `None` without a match, as a backtracking matcher finds it. After `N` or
   * `№` the separators and then at least one digit must follow. After a
   * leading run of `d` digits, separators and digits may follow; if no digit
   * follows the separators, the matcher gives the last digit of the run back
   * to the final `\d+`, which only works when `d >= 2`.
   */
  function PrefixEnd(line: string): (m: Option<nat>)
    ensures m.Some? ==> 0 < m.value <= |line|
    ensures m.Some? ==> exists g: nat, e: nat :: KeyPrefixAt(line, g, e, m.value)
  {
    if line == [] then None
    else if line[0] == 'N' || line[0] == '\U{2116}' then SymbolPrefixEnd(line)
    else if IsDigit(line[0]) then DigitPrefixEnd(line)
    else None
  }

  /** The match after `N` or `№`: separators, then at least one digit. */
  function SymbolPrefixEnd(line: string): (m: Option<nat>)
    requires line != [] && (line[0] == 'N' || line[0] == '\U{2116}')
    ensures m.Some? ==> 0 < m.value <= |line|
    ensures m.Some? ==> exists g: nat, e: nat :: KeyPrefixAt(line, g, e, m.value)
  {
    var sep := SeparatorRun(line[1..]);
    var num := DigitRun(line[1 + sep..]);
    if num > 0 then SymbolPrefixSound(line, sep, num); Some(1 + sep + num) else None
  }

  /** The match after a leading run of digits, giving a digit back when it must. */
  function DigitPrefixEnd(line: string): (m: Option<nat>)
    requires line != [] && IsDigit(line[0])
    ensures m.Some? ==> 0 < m.value <= |line|
    ensures m.Some? ==> exists g: nat, e: nat :: KeyPrefixAt(line, g, e, m.value)
  {
    var lead := DigitRun(line);
    var sep := SeparatorRun(line[lead..]);
    var num := DigitRun(line[lead + sep..]);
    if num > 0 then DigitPrefixSound(line, lead, sep, num); Some(lead + sep + num)
    else if lead >= 2 then BacktrackPrefixSound(line, lead); Some(lead)
    else None
  }


  lemma SymbolPrefixSound(line: string, sep: nat, num: nat)
    requires line != [] && (line[0] == 'N' || line[0] == '\U{2116}')
    requires sep == SeparatorRun(line[1..]) && num == DigitRun(line[1 + sep..]) && num > 0
    ensures KeyPrefixAt(line, 1, 1 + sep, 1 + sep + num)
  {
    assert line[..1] == [line[0]];
    assert forall k :: 1 <= k < 1 + sep ==> line[k] == line[1..][k - 1];
    assert forall k :: 1 + sep <= k < 1 + sep + num ==> line[k] == line[1 + sep..][k - 1 - sep];
  }

  lemma DigitPrefixSound(line: string, lead: nat, sep: nat, num: nat)
    requires lead == DigitRun(line) && sep == SeparatorRun(line[lead..])
    requires num == DigitRun(line[lead + sep..]) && num > 0 && lead > 0
    ensures KeyPrefixAt(line, lead, lead + sep, lead + sep + num)
  {
    assert forall k :: lead <= k < lead + sep ==> line[k] == line[lead..][k - lead];
    assert forall k :: lead + sep <= k < lead + sep + num ==> line[k] == line[lead + sep..][k - lead - sep];
  }

  lemma BacktrackPrefixSound(line: string, lead: nat)
    requires lead == DigitRun(line) && lead >= 2
    ensures KeyPrefixAt(line, lead - 1, lead - 1, lead)
  {
  }

  /**
   * The line starts with a match of `^(N|№|\d+)[\s°]*\d+` ending at `m`: the
   * group up to `g` (`N`, `№` or digits), separators up to `e`, and digits up
   * to `m`.
   */
  ghost predicate KeyPrefixAt(line: string, g: nat, e: nat, m: nat) {
    0 < g <= e < m <= |line|
    && (line[..g] == "N" || line[..g] == "\U{2116}" || forall k :: 0 <= k < g ==> IsDigit(line[k]))
    && (forall k :: g <= k < e ==> IsSeparator(line[k]))
    && (forall k :: e <= k < m ==> IsDigit(line[k]))
  }

  /** Whenever the key prefix matches, `PrefixEnd` finds a match. */
  lemma PrefixEndComplete(line: string, g: nat, e: nat, m: nat)
    requires KeyPrefixAt(line, g, e, m)
    ensures PrefixEnd(line).Some?
  {
    if line[0] == 'N' || line[0] == '\U{2116}' {
      assert !IsDigit(line[0]);
      var sep := SeparatorRun(line[1..]);
      assert line[1..][e - 1] == line[e];
      assert sep == e - 1;
      assert line[1 + sep..][0] == line[e];
    } else {
      assert IsDigit(line[0]) by {
        assert line[..g][0] == line[0];
      }
      var lead := DigitRun(line);
      if lead < 2 {
        assert lead == 1 && g == 1;
        assert !IsSeparator(line[1..][e - 1]);
        var sep := SeparatorRun(line[1..]);
        assert sep == e - 1;
        assert line[1 + sep..][0] == line[e];
      }
    }
  }

  lemma {:induction false} DigitRunAtLeast(s: string, k: nat)
    requires k <= |s| && forall i :: 0 <= i < k ==> IsDigit(s[i])
    ensures DigitRun(s) >= k
  {
    if k > 0 {
      assert forall i :: 0 <= i < k - 1 ==> s[1..][i] == s[i + 1];
      DigitRunAtLeast(s[1..], k - 1);
    }
  }

  /** The separator run from `g` stops exactly at `e` when a digit sits there. */
  lemma {:induction false} SeparatorRunExact(s: string, k: nat)
    requires k < |s| && IsDigit(s[k]) && forall i :: 0 <= i < k ==> IsSeparator(s[i])
    ensures SeparatorRun(s) == k
  {
    if k > 0 {
      assert forall i :: 0 <= i < k - 1 ==> s[1..][i] == s[i + 1];
      assert s[1..][k - 1] == s[k];
      SeparatorRunExact(s[1..], k - 1);
    }
  }

  /**
   * `PrefixEnd` finds the longest match: every way of matching the key
   * prefix ends at or before it, as the greedy quantifiers of the regex do.
   */
  lemma PrefixEndLongest(line: string, g: nat, e: nat, m: nat)
    requires KeyPrefixAt(line, g, e, m)
    ensures PrefixEnd(line).Some? && m <= PrefixEnd(line).value
  {
    PrefixEndComplete(line, g, e, m);
    assert line[..g][0] == line[0];
    if line[0] == 'N' || line[0] == '\U{2116}' {
      SymbolPrefixLongest(line, g, e, m);
    } else {
      assert IsDigit(line[0]);
      DigitPrefixLongest(line, g, e, m);
    }
  }

  lemma SymbolPrefixLongest(line: string, g: nat, e: nat, m: nat)
    requires KeyPrefixAt(line, g, e, m) && (line[0] == 'N' || line[0] == '\U{2116}')
    ensures SymbolPrefixEnd(line).Some? && m <= SymbolPrefixEnd(line).value
  {
    assert line[..g][0] == line[0];
    assert g == 1;
    SeparatorRunExact(line[1..], e - 1);
    DigitRunAtLeast(line[e..], m - e);
  }

  lemma DigitPrefixLongest(line: string, g: nat, e: nat, m: nat)
    requires KeyPrefixAt(line, g, e, m) && IsDigit(line[0])
    ensures DigitPrefixEnd(line).Some? && m <= DigitPrefixEnd(line).value
  {
    assert line[..g][0] == line[0];
    assert line[..g] != "N" && line[..g] != "\U{2116}";
    var lead := DigitRun(line);
    DigitRunAtLeast(line, g);
    if g < lead {
      assert e == g by {
        assert IsDigit(line[g]);
      }
      DigitRunAtLeast(line, m);
    } else {
      SeparatorRunExact(line[g..], e - g);
      DigitRunAtLeast(line[e..], m - e);
    }
  }


  /** `s` holds a digit somewhere (`re.search(r'\d+', s)` finds a match). */
  ghost predicate HasDigit(s: string) {
    exists i :: 0 <= i < |s| && IsDigit(s[i])
  }

  /** `r` is the run of digits at `p`, and no digit comes before it. */
  ghost predicate FirstRunAt(s: string, p: nat, r: string) {
    p + |r| <= |s| && r == s[p..p + |r|]
    && (forall k :: 0 <= k < p ==> !IsDigit(s[k]))
    && (p + |r| < |s| ==> !IsDigit(s[p + |r|]))
  }

  /**
   * `re.search(r'\d+', s).group()`: the first maximal run of digits in `s`,
   * starting at position `p`; empty when `s` has no digit.
   */
  function FirstDigits(s: string): (r: string)
    ensures forall i :: 0 <= i < |r| ==> IsDigit(r[i])
    ensures r == [] <==> !HasDigit(s)
    ensures r != [] ==> exists p: nat :: FirstRunAt(s, p, r)
  {
    if s == [] then []
    else if IsDigit(s[0]) then
      var r := s[..DigitRun(s)];
      assert FirstRunAt(s, 0, r);
      r
    else
      var r := FirstDigits(s[1..]);
      HasDigitTail(s);
      if r == [] then r
      else
        ghost var p: nat :| FirstRunAt(s[1..], p, r);
        FirstRunShift(s, p, r);
        r
  }

  lemma HasDigitTail(s: string)
    requires s != [] && !IsDigit(s[0])
    ensures HasDigit(s) ==> HasDigit(s[1..])
  {
    if HasDigit(s) {
      var i :| 0 <= i < |s| && IsDigit(s[i]);
      assert s[1..][i - 1] == s[i];
    }
  }

  lemma FirstRunShift(s: string, p: nat, r: string)
    requires s != [] && !IsDigit(s[0]) && FirstRunAt(s[1..], p, r)
    ensures FirstRunAt(s, p + 1, r)
  {
    assert s[1..][p..p + |r|] == s[p + 1..p + 1 + |r|];
    assert forall k :: 1 <= k < p + 1 ==> s[k] == s[1..][k - 1];
  }

  /**
   * One line of the answer file: `None` for a blank or non-matching line,
   * otherwise the question number (the first run of digits of the line) and
   * the rest of the line after the matched prefix, stripped.
   */
  function ParseAnswerLine(raw: string): Option<(nat, string)> {
    ReadStrippedLine(Strip(raw))
  }

  function ReadStrippedLine(line: string): Option<(nat, string)> {
    if line == [] then None
    else
      match PrefixEnd(line)
      case None => None
      case Some(m) => Some((DigitsValue(FirstDigits(line)), Strip(line[m..])))
  }

  /**
   * Blank lines and lines without the prefix give nothing; a line that gives
   * an answer has the prefix, its answer is what follows the longest match of
   * the prefix, its number is the first run of digits and its answer has no
   * surrounding whitespace.
   */
  lemma ParseAnswerLineFacts(raw: string)
    ensures AllSpace(raw) ==> ParseAnswerLine(raw).None?
    ensures ParseAnswerLine(raw).Some? <==> PrefixEnd(Strip(raw)).Some?
    ensures ParseAnswerLine(raw).Some? <==> exists g: nat, e: nat, m: nat :: KeyPrefixAt(Strip(raw), g, e, m)
    ensures ParseAnswerLine(raw).Some? ==>
              exists g: nat, e: nat, m: nat :: KeyPrefixAt(Strip(raw), g, e, m)
                && ParseAnswerLine(raw).value.1 == Strip(Strip(raw)[m..])
                && (forall g': nat, e': nat, m': nat :: KeyPrefixAt(Strip(raw), g', e', m') ==> m' <= m)
    ensures ParseAnswerLine(raw).Some? ==>
              HasDigit(Strip(raw)) &&
              ParseAnswerLine(raw).value.0 == DigitsValue(FirstDigits(Strip(raw))) &&
              Strip(ParseAnswerLine(raw).value.1) == ParseAnswerLine(raw).value.1
  {
    var line := Strip(raw);
    if line != [] && PrefixEnd(line).Some? {
      StripIdempotent(line[PrefixEnd(line).value..]);
      var m := PrefixEnd(line).value;
      var g: nat, e: nat :| KeyPrefixAt(line, g, e, m);
      assert IsDigit(line[e]);
      forall g': nat, e': nat, m': nat | KeyPrefixAt(line, g', e', m')
        ensures m' <= m
      {
        PrefixEndLongest(line, g', e', m');
      }
    }
    if g: nat, e: nat, m: nat :| KeyPrefixAt(line, g, e, m) {
      PrefixEndComplete(line, g, e, m);
    }
  }

  lemma StripIdempotent(s: string)
    ensures Strip(Strip(s)) == Strip(s)
  {
    StripUnchanged(Strip(s));
  }

  /** The spelling the key file uses: `№`, the number, a space, the answer. */
  function KeyLine(n: nat, answer: string): string {
    ['\U{2116}'] + DecimalString(n) + [' '] + answer
  }

  lemma {:induction false} DigitRunOfDigits(s: string, t: string)
    requires forall i :: 0 <= i < |s| ==> IsDigit(s[i])
    requires t == [] || !IsDigit(t[0])
    ensures DigitRun(s + t) == |s|
  {
    if s != [] {
      assert (s + t)[1..] == s[1..] + t;
      DigitRunOfDigits(s[1..], t);
    } else {
      assert s + t == t;
    }
  }

  /** A key line reads back as its number and answer, whatever the answer holds. */
  lemma KeyLineRoundTrip(n: nat, answer: string)
    requires Strip(answer) == answer
    ensures ParseAnswerLine(KeyLine(n, answer)) == Some((n, answer))
  {
    if answer == [] {
      KeyLineBlank(n);
    } else {
      KeyLineStripped(n, answer);
      KeyLinePrefix(n, answer);
      KeyLineNumber(n, answer);
      KeyLineRest(n, answer);
      DecimalRoundTrip(n);
    }
  }

  /** With a blank answer the trailing space is stripped and the line is `№<n>`. */
  lemma KeyLineBlank(n: nat)
    ensures ParseAnswerLine(KeyLine(n, "")) == Some((n, ""))
  {
    var digits := DecimalString(n);
    var short := ['\U{2116}'] + digits;
    KeyLineBlankStrip(n);
    KeyLineBlankPrefix(digits);
    KeyLineBlankNumber(digits);
    DecimalRoundTrip(n);
  }

  lemma KeyLineBlankStrip(n: nat)
    ensures Strip(KeyLine(n, "")) == ['\U{2116}'] + DecimalString(n)
  {
    var digits := DecimalString(n);
    var short := ['\U{2116}'] + digits;
    var line := KeyLine(n, "");
    assert line == short + [' '];
    assert short[|short| - 1] == digits[|digits| - 1];
    assert TrimLeft(line) == line;
    TrimRightOfSpace(short);
    assert !IsSpace(short[|short| - 1]);
    assert TrimRight(short) == short;
  }

  lemma TrimRightOfSpace(s: string)
    ensures TrimRight(s + [' ']) == TrimRight(s)
  {
    assert (s + [' '])[..|s|] == s;
  }

  lemma KeyLineBlankPrefix(digits: string)
    requires IsDigitString(digits)
    ensures PrefixEnd(['\U{2116}'] + digits) == Some(1 + |digits|)
  {
    var short := ['\U{2116}'] + digits;
    assert short[1..] == digits;
    DigitRunOfDigits(digits, []);
    assert digits + [] == digits;
    assert short[1..][0..] == digits;
  }

  lemma KeyLineBlankNumber(digits: string)
    requires IsDigitString(digits)
    ensures FirstDigits(['\U{2116}'] + digits) == digits
  {
    var short := ['\U{2116}'] + digits;
    assert short[1..] == digits;
    DigitRunOfDigits(digits, []);
    assert digits + [] == digits;
    assert digits[..|digits|] == digits;
  }

  lemma KeyLineRest(n: nat, answer: string)
    requires Strip(answer) == answer
    ensures Strip(KeyLine(n, answer)[1 + |DecimalString(n)|..]) == answer
  {
    var rest := [' '] + answer;
    assert KeyLine(n, answer)[1 + |DecimalString(n)|..] == rest;
    assert rest[1..] == answer;
    assert TrimLeft(rest) == TrimLeft(answer);
  }

  lemma KeyLineStripped(n: nat, answer: string)
    requires answer != [] && Strip(answer) == answer
    ensures Strip(KeyLine(n, answer)) == KeyLine(n, answer)
  {
    StripAnswerEnds(answer);
    StripUnchanged(KeyLine(n, answer));
  }

  lemma KeyLinePrefix(n: nat, answer: string)
    ensures PrefixEnd(KeyLine(n, answer)) == Some(1 + |DecimalString(n)|)
  {
    var digits := DecimalString(n);
    var after := [' '] + answer;
    var line := KeyLine(n, answer);
    assert line[1..] == digits + after;
    assert (digits + after)[0] == digits[0];
    assert !IsSeparator(digits[0]);
    DigitRunOfDigits(digits, after);
    assert line[1..][0..] == line[1..];
  }

  lemma KeyLineNumber(n: nat, answer: string)
    ensures FirstDigits(KeyLine(n, answer)) == DecimalString(n)
  {
    var digits := DecimalString(n);
    var after := [' '] + answer;
    var line := KeyLine(n, answer);
    assert line[1..] == digits + after;
    DigitRunOfDigits(digits, after);
    assert (digits + after)[..|digits|] == digits;
  }

  /** A stripped, non-empty answer neither starts nor ends with whitespace. */
  lemma StripAnswerEnds(answer: string)
    requires answer != [] && Strip(answer) == answer
    ensures !IsSpace(answer[0]) && !IsSpace(answer[|answer| - 1])
  {
  }

  /** A bare two-digit number swallows the digit after it: `12 3` is question 12 with no answer. */
  lemma BareNumberLineQuirk()
    ensures ParseAnswerLine("12 3") == Some((12, ""))
  {
    StripUnchanged("12 3");
    PrefixQuirk();
    assert "12 3"[4..] == [];
    assert "12 3"[..2] == "12";
    assert "12"[..1] == "1";
    assert DigitsValue("12") == 12;
  }

  lemma PrefixQuirk()
    ensures PrefixEnd("12 3") == Some(4)
    ensures FirstDigits("12 3") == "12"
  {
    assert "12 3"[1..] == "2 3";
    assert "2 3"[1..] == " 3";
    assert DigitRun("12 3") == 2;
    assert "12 3"[2..] == " 3";
    assert " 3"[1..] == "3";
    assert SeparatorRun(" 3") == 1;
    assert "12 3"[3..] == "3";
    assert DigitRun("3") == 1;
  }

  /**
   * The same backtracking costs a written answer its first digit: `12 1,3`
   * is question 12 with answer `,3`, which names option 3 only.
   */
  lemma BareNumberAnswerQuirk()
    ensures ParseAnswerLine("12 1,3") == Some((12, ",3"))
    ensures ParseAnswerString(",3") == [2]
  {
    StripUnchanged("12 1,3");
    BareNumberAnswerRead();
    AnswerStringCommaThree();
  }

  lemma BareNumberAnswerRead()
    ensures ReadStrippedLine("12 1,3") == Some((12, ",3"))
  {
    BareNumberAnswerPrefix();
    assert "12 1,3"[4..] == ",3";
    StripUnchanged(",3");
    assert "12"[..1] == "1";
    assert DigitsValue("12") == 12;
  }

  lemma AnswerStringCommaThree()
    ensures ParseAnswerString(",3") == [2]
  {
    LeadingCommaIgnored("3");
    assert [','] + "3" == ",3";
    AnswerStringThree();
  }

  lemma AnswerStringThree()
    ensures ParseAnswerString("3") == [2]
  {
    ParseAnswerStringFilters("3");
    KeepDigitsAndCommasUnchanged("3");
    SplitWithoutSep("3", ',');
    assert ["3"][1..] == [];
  }

  lemma BareNumberAnswerPrefix()
    ensures PrefixEnd("12 1,3") == Some(4)
    ensures FirstDigits("12 1,3") == "12"
  {
    var line := "12 1,3";
    assert line[1..] == "2 1,3" && "2 1,3"[1..] == " 1,3";
    assert DigitRun(line) == 2;
    assert line[2..] == " 1,3" && " 1,3"[1..] == "1,3";
    assert SeparatorRun(" 1,3") == 1;
    assert line[3..] == "1,3" && "1,3"[1..] == ",3";
    assert DigitRun("1,3") == 1;
    assert line[..2] == "12";
  }

  /** A single digit with nothing after it matches nothing: `7` is skipped. */
  lemma SingleDigitLineSkipped()
    ensures ParseAnswerLine("7") == None
  {
    StripUnchanged("7");
    assert "7"[1..] == [];
    assert DigitRun("7") == 1;
    assert "7"[1..][0..] == [];
  }

  /**
   * The answers read from the key file: each matching line sets the entry
   * of its number, so a later line for the same number overwrites an
   * earlier one.
   */
  function AnswerKey(lines: seq<string>): map<nat, string> {
    Assign(ParseAnswerLine, lines)
  }

  /** `parse_answers` over the lines of the key file. */
  method ParseAnswers(lines: seq<string>) returns (answers: map<nat, string>)
    ensures answers == AnswerKey(lines)
  {
    answers := map[];
    for i := 0 to |lines|
      invariant answers == AnswerKey(lines[..i])
    {
      AssignPrefixStep(ParseAnswerLine, lines, i);
      match ParseAnswerLine(lines[i]) {
        case None =>
        case Some((n, answer)) =>
          answers := answers[n := answer];
      }
    }
    assert lines[..|lines|] == lines;
  }

  /** A number has an answer exactly when some line of the key file declares one. */
  lemma AnswerKeyDomain(lines: seq<string>, n: nat)
    ensures n in AnswerKey(lines) <==> exists i :: Declares(ParseAnswerLine, lines, i, n)
  {
    AssignDomain(ParseAnswerLine, lines, n);
  }

  /** The answer kept for `n` is the one on the last line that declares `n`. */
  lemma AnswerKeyLastWins(lines: seq<string>, i: nat, n: nat)
    requires Declares(ParseAnswerLine, lines, i, n)
    requires forall j :: i < j < |lines| ==> !Declares(ParseAnswerLine, lines, j, n)
    ensures n in AnswerKey(lines) && AnswerKey(lines)[n] == ParseAnswerLine(lines[i]).value.1
  {
    AssignLastWins(ParseAnswerLine, lines, i, n);
  }

  // ---------------------------------------------------------------------
  // Question spans and the ordered question table (parse_pdf_questions)
  // ---------------------------------------------------------------------

  /** One marker match: the question number it names and the text up to the next marker. */
  datatype Span = Span(number: nat, body: string)

  /** The stored content of one question: its prompt and its options. */
  datatype Entry = Entry(questionText: string, options: seq<string>)

  /** The span text as it is handed to the splitter: stripped, then normalised. */
  function SpanText(body: string): string {
    Normalise(Strip(body))
  }

  /** The entry a span's text yields. */
  function SpanEntry(body: string): (e: Entry)
    ensures Strip(e.questionText) == e.questionText
    ensures forall k :: 0 <= k < |e.options| ==> e.options[k] != []
  {
    var lines := Split(SpanText(body), '\n');
    OptionsNonEmpty(lines);
    StripIdempotent(Join(lines[..FirstOption(lines)], '\n'));
    Entry(Prompt(lines), Options(lines))
  }

  /** What a span stores: its number and the entry of its text. */
  function SpanPair(span: Span): (r: Option<(nat, Entry)>)
    ensures r.Some? && r.value.0 == span.number
  {
    Some((span.number, SpanEntry(span.body)))
  }

  function Numbers(spans: seq<Span>): (r: seq<nat>)
    ensures |r| == |spans|
    ensures forall k :: 0 <= k < |spans| ==> r[k] == spans[k].number
  {
    if spans == [] then [] else Numbers(spans[..|spans| - 1]) + [spans[|spans| - 1].number]
  }

  /** The question numbers in the order the table first saw them. */
  function QuestionOrder(spans: seq<Span>): seq<nat> {
    Distinct(Numbers(spans))
  }

  /** The table's contents: for each number, the entry of the last span with that number. */
  function QuestionEntries(spans: seq<Span>): map<nat, Entry> {
    Assign(SpanPair, spans)
  }

  /**
   * The ordered dictionary of questions: keys in the order of their first
   * insertion, each with the value of its latest insertion.
   */
  class QuestionTable {
    var order: seq<nat>
    var entries: map<nat, Entry>

    /** Every key is listed once, and the listed keys are exactly the stored ones. */
    ghost predicate Valid()
      reads this
    {
      NoDuplicates(order) && (forall n :: n in order <==> n in entries)
    }

    constructor ()
      ensures Valid() && order == [] && entries == map[]
    {
      order := [];
      entries := map[];
    }

    /** `table[key] = entry`: a new key goes to the end; an existing key keeps its place. */
    method Put(key: nat, entry: Entry)
      requires Valid()
      modifies this
      ensures Valid()
      ensures order == if key in old(entries) then old(order) else old(order) + [key]
      ensures entries == old(entries)[key := entry]
    {
      if key !in entries {
        order := order + [key];
      }
      entries := entries[key := entry];
    }
  }

  /** The per-span loop of `parse_pdf_questions`, from the marker matches onwards. */
  method ParseQuestions(spans: seq<Span>) returns (table: QuestionTable)
    ensures fresh(table) && table.Valid()
    ensures table.order == QuestionOrder(spans)
    ensures table.entries == QuestionEntries(spans)
  {
    table := new QuestionTable();
    for i := 0 to |spans|
      invariant table.Valid()
      invariant table.order == QuestionOrder(spans[..i])
      invariant table.entries == QuestionEntries(spans[..i])
    {
      var span := spans[i];
      var prompt, options := ExtractQuestionOptions(SpanText(span.body));
      QuestionStep(spans, i);
      table.Put(span.number, Entry(prompt, options));
    }
    assert spans[..|spans|] == spans;
  }

  /** One step of `ParseQuestions`: span `i` updates the order and the contents as `Put` does. */
  lemma QuestionStep(spans: seq<Span>, i: nat)
    requires i < |spans|
    ensures QuestionEntries(spans[..i + 1]) ==
              QuestionEntries(spans[..i])[spans[i].number := SpanEntry(spans[i].body)]
    ensures QuestionOrder(spans[..i + 1]) ==
              if spans[i].number in QuestionEntries(spans[..i]) then QuestionOrder(spans[..i])
              else QuestionOrder(spans[..i]) + [spans[i].number]
  {
    AssignPrefixStep(SpanPair, spans, i);
    NumbersStep(spans, i);
    DistinctSnoc(Numbers(spans[..i]), spans[i].number);
    EntryKeys(spans[..i], spans[i].number);
  }

  lemma NumbersStep(spans: seq<Span>, i: nat)
    requires i < |spans|
    ensures Numbers(spans[..i + 1]) == Numbers(spans[..i]) + [spans[i].number]
  {
    assert spans[..i + 1][..i] == spans[..i];
  }

  /** A number has an entry exactly when some span names it. */
  lemma EntryKeys(spans: seq<Span>, n: nat)
    ensures n in QuestionEntries(spans) <==> n in Numbers(spans)
  {
    AssignDomain(SpanPair, spans, n);
    if exists k :: Declares(SpanPair, spans, k, n) {
      var k :| Declares(SpanPair, spans, k, n);
      assert Numbers(spans)[k] == n;
    }
    if n in Numbers(spans) {
      var k :| 0 <= k < |spans| && Numbers(spans)[k] == n;
      assert Declares(SpanPair, spans, k, n);
    }
  }

  /** The table holds exactly the numbers that some span names, and lists each of them. */
  lemma QuestionKeys(spans: seq<Span>, n: nat)
    ensures n in QuestionEntries(spans) <==> n in QuestionOrder(spans)
    ensures n in QuestionOrder(spans) <==> exists k :: 0 <= k < |spans| && spans[k].number == n
  {
    EntryKeys(spans, n);
    DistinctElements(Numbers(spans), n);
    if n in Numbers(spans) {
      var k :| 0 <= k < |spans| && Numbers(spans)[k] == n;
      assert spans[k].number == n;
    }
  }

  /**
   * A repeated number keeps the place of its first span: the numbers are
   * listed once each, in the order in which they first appear.
   */
  lemma QuestionOrderByFirstSpan(spans: seq<Span>)
    ensures NoDuplicates(QuestionOrder(spans))
    ensures InFirstOccurrenceOrder(Numbers(spans), QuestionOrder(spans))
  {
    DistinctInFirstOrder(Numbers(spans));
  }

  /** A repeated number takes the content of its last span. */
  lemma QuestionEntryFromLastSpan(spans: seq<Span>, i: nat)
    requires i < |spans|
    requires forall j :: i < j < |spans| ==> spans[j].number != spans[i].number
    ensures spans[i].number in QuestionEntries(spans)
    ensures QuestionEntries(spans)[spans[i].number] == SpanEntry(spans[i].body)
  {
    var n := spans[i].number;
    assert Declares(SpanPair, spans, i, n);
    forall j | i < j < |spans| ensures !Declares(SpanPair, spans, j, n) {
    }
    AssignLastWins(SpanPair, spans, i, n);
  }

  // ---------------------------------------------------------------------
  // The question bank (main)
  // ---------------------------------------------------------------------

  /**
   * The record of question `n` with its table entry and its raw answer:
   * its type is `multiple` exactly when the answer names more than one
   * index, so an empty answer gives `single`.
   */
  function MakeRecord(n: nat, entry: Entry, answer: string): (r: QuestionRecord)
    ensures r.id == n && r.question == entry.questionText && r.options == entry.options
    ensures r.answer == ParseAnswerString(answer)
    ensures r.kind == Multiple <==> |r.answer| > 1
  {
    var indices := ParseAnswerString(answer);
    QuestionRecord(n, entry.questionText, entry.options, indices, if |indices| > 1 then Multiple else Single)
  }

  /**
   * The bank: for each question number in table order, a record when the
   * answer key has an entry for it, and nothing (a warning) otherwise.
   */
  function AssembledBank(order: seq<nat>, entries: map<nat, Entry>, answers: map<nat, string>): seq<QuestionRecord>
    requires KeysIn(order, entries)
  {
    if order == [] then []
    else
      var n := order[|order| - 1];
      KeysInPrefix(order, entries, |order| - 1);
      AssembledBank(order[..|order| - 1], entries, answers) + (if n in answers then [MakeRecord(n, entries[n], answers[n])] else [])
  }

  /** The ids of the records, in bank order. */
  function Ids(bank: seq<QuestionRecord>): (r: seq<nat>)
    ensures |r| == |bank|
    ensures forall k :: 0 <= k < |bank| ==> r[k] == bank[k].id
  {
    if bank == [] then [] else Ids(bank[..|bank| - 1]) + [bank[|bank| - 1].id]
  }

  /** The bank lists exactly the answered numbers of the table, in table order. */
  lemma {:induction false} BankIds(order: seq<nat>, entries: map<nat, Entry>, answers: map<nat, string>)
    requires KeysIn(order, entries)
    ensures Ids(AssembledBank(order, entries, answers)) == Restrict(order, answers.Keys)
  {
    if order != [] {
      var init, n := order[..|order| - 1], order[|order| - 1];
      KeysInPrefix(order, entries, |order| - 1);
      BankIds(init, entries, answers);
      var earlier := AssembledBank(init, entries, answers);
      var added := if n in answers then [MakeRecord(n, entries[n], answers[n])] else [];
      IdsAppend(earlier, added);
    }
  }

  lemma IdsAppend(a: seq<QuestionRecord>, b: seq<QuestionRecord>)
    ensures Ids(a + b) == Ids(a) + Ids(b)
  {
    var l, r := Ids(a + b), Ids(a) + Ids(b);
    assert |l| == |r|;
    forall k | 0 <= k < |l| ensures l[k] == r[k] {
      if k < |a| {
        assert (a + b)[k] == a[k];
      } else {
        assert (a + b)[k] == b[k - |a|];
      }
    }
  }

  /** Each record is made from the table entry and the answer of its own number. */
  lemma {:induction false} BankRecords(order: seq<nat>, entries: map<nat, Entry>, answers: map<nat, string>)
    requires KeysIn(order, entries)
    ensures forall r :: r in AssembledBank(order, entries, answers) ==>
              r.id in entries && r.id in answers && r == MakeRecord(r.id, entries[r.id], answers[r.id])
  {
    if order != [] {
      var init, n := order[..|order| - 1], order[|order| - 1];
      KeysInPrefix(order, entries, |order| - 1);
      BankRecords(init, entries, answers);
    }
  }

  /** One step of `AssembledBank`: one more table key adds its record when it has an answer. */
  lemma BankStep(order: seq<nat>, entries: map<nat, Entry>, answers: map<nat, string>, i: nat)
    requires i < |order| && KeysIn(order, entries)
    ensures KeysIn(order[..i], entries) && KeysIn(order[..i + 1], entries)
    ensures AssembledBank(order[..i + 1], entries, answers) ==
              AssembledBank(order[..i], entries, answers) +
              (if order[i] in answers then [MakeRecord(order[i], entries[order[i]], answers[order[i]])] else [])
  {
    KeysInPrefix(order, entries, i);
    KeysInPrefix(order, entries, i + 1);
    assert order[..i + 1][..i] == order[..i];
  }

  /** The assembly loop of `main` over the table's items. */
  method AssembleBank(table: QuestionTable, answers: map<nat, string>) returns (bank: seq<QuestionRecord>)
    requires table.Valid()
    ensures bank == AssembledBank(table.order, table.entries, answers)
  {
    var order, entries := table.order, table.entries;
    assert KeysIn(order, entries);
    bank := [];
    for i := 0 to |order|
      invariant KeysIn(order[..i], entries)
      invariant bank == AssembledBank(order[..i], entries, answers)
    {
      var n := order[i];
      BankStep(order, entries, answers, i);
      if n in answers {
        bank := bank + [MakeRecord(n, entries[n], answers[n])];
      }
    }
    assert order[..|order|] == order;
  }

  /** Every number in the table order has an entry. */
  lemma TableKeys(spans: seq<Span>)
    ensures KeysIn(QuestionOrder(spans), QuestionEntries(spans))
  {
    forall n | n in QuestionOrder(spans) ensures n in QuestionEntries(spans) {
      QuestionKeys(spans, n);
    }
  }

  /** The bank built from the marker matches and the lines of the key file. */
  function QuestionBank(spans: seq<Span>, keyLines: seq<string>): seq<QuestionRecord> {
    TableKeys(spans);
    AssembledBank(QuestionOrder(spans), QuestionEntries(spans), AnswerKey(keyLines))
  }

  /** `main`, between reading the inputs and writing the bank. */
  method BuildBank(spans: seq<Span>, keyLines: seq<string>) returns (bank: seq<QuestionRecord>)
    ensures bank == QuestionBank(spans, keyLines)
  {
    var table := ParseQuestions(spans);
    var answers := ParseAnswers(keyLines);
    bank := AssembleBank(table, answers);
  }

  /**
   * The join: a number gets a record exactly when some span names it and
   * some key line declares it; the records come once each, in table order.
   */
  lemma QuestionBankIds(spans: seq<Span>, keyLines: seq<string>, n: nat)
    ensures n in Ids(QuestionBank(spans, keyLines)) <==>
              (exists k :: 0 <= k < |spans| && spans[k].number == n) &&
              (exists i :: Declares(ParseAnswerLine, keyLines, i, n))
    ensures NoDuplicates(Ids(QuestionBank(spans, keyLines)))
    ensures InFirstOccurrenceOrder(QuestionOrder(spans), Ids(QuestionBank(spans, keyLines)))
  {
    TableKeys(spans);
    var order, answers := QuestionOrder(spans), AnswerKey(keyLines);
    BankIds(order, QuestionEntries(spans), answers);
    RestrictElements(order, answers.Keys, n);
    QuestionKeys(spans, n);
    AnswerKeyDomain(keyLines, n);
    QuestionOrderByFirstSpan(spans);
    RestrictKeepsOrder(order, answers.Keys);
  }

  /**
   * Each record carries the id, prompt and options of the last span with its
   * number, and the indices of the last key line for that number.
   */
  lemma QuestionBankRecord(spans: seq<Span>, keyLines: seq<string>, k: nat, i: nat, j: nat)
    requires k < |QuestionBank(spans, keyLines)|
    requires i < |spans| && spans[i].number == QuestionBank(spans, keyLines)[k].id
    requires forall i' :: i < i' < |spans| ==> spans[i'].number != spans[i].number
    requires Declares(ParseAnswerLine, keyLines, j, spans[i].number)
    requires forall j' :: j < j' < |keyLines| ==> !Declares(ParseAnswerLine, keyLines, j', spans[i].number)
    ensures QuestionBank(spans, keyLines)[k] ==
              MakeRecord(spans[i].number, SpanEntry(spans[i].body), ParseAnswerLine(keyLines[j]).value.1)
  {
    TableKeys(spans);
    var bank := QuestionBank(spans, keyLines);
    BankRecords(QuestionOrder(spans), QuestionEntries(spans), AnswerKey(keyLines));
    assert bank[k] in bank;
    QuestionEntryFromLastSpan(spans, i);
    AnswerKeyLastWins(keyLines, j, spans[i].number);
  }
}
