/**
 * Cleaning of the improvement suggestions (`get_suggestions_ai` in app.py).
 *
 * The language model's answer is split into lines; every line that is not
 * blank becomes one suggestion, with the bullet characters
 * " -•0123456789.*" removed from BOTH of its ends, as Python's
 * `str.strip(chars)` does.
 */
module Suggestions {
  import opened Text

  /** The answer of the language model to the prompt built from the resume, the job description and the joined missing keywords. */
  type SuggestionOracle = (string, string, string) -> string

  /** The argument of `s.strip(" -•1234567890.*")`. */
  const BulletChars: set<char> := {
    ' ', '-', '\U{2022}', '1', '2', '3', '4', '5', '6', '7', '8', '9', '0', '.', '*'
  }

  /** A line survives the filter `if s.strip()`. */
  predicate NonBlank(line: string) {
    Strip(line) != []
  }

  /** The bullet-stripped form of one line. */
  function CleanLine(line: string): string {
    StripChars(line, BulletChars)
  }

  /** What one line contributes: its bullet-strip if it is not blank, nothing otherwise. */
  function CleanOne(line: string): seq<string> {
    if NonBlank(line) then [CleanLine(line)] else []
  }

  /** `[s.strip(" -•1234567890.*") for s in lines if s.strip()]`. */
  function CleanLines(lines: seq<string>): seq<string> {
    if lines == [] then [] else CleanOne(lines[0]) + CleanLines(lines[1..])
  }

  /** Every suggestion is a single line that neither starts nor ends with a bullet character. */
  predicate AllCleanLines(suggestions: seq<string>) {
    forall e | e in suggestions :: NoneIn(e, {'\n'}) && NoEdgeIn(e, BulletChars)
  }

  /**
   * The post-processing of the answer: split on `\n`, then clean. No
   * suggestion contains a line break or starts or ends with a bullet
   * character.
   */
  function CleanSuggestions(text: string): (r: seq<string>)
    ensures AllCleanLines(r)
  {
    var lines := SplitOn(text, {'\n'});
    SegmentsHaveNoSeparator(text, {'\n'});
    CleanLinesShape(lines);
    SuggestionLinesHaveNoBreak(lines);
    CleanLines(lines)
  }

  /**
   * `get_suggestions_ai(resume_text, jd_text, missing_keywords)`: whatever
   * the model answers, every suggestion is a single line that neither
   * starts nor ends with a bullet character.
   */
  function GetSuggestions(resumeText: string, jdText: string, missingKeywords: seq<string>, ask: SuggestionOracle): (r: seq<string>)
    ensures AllCleanLines(r)
  {
    CleanSuggestions(ask(resumeText, jdText, Join(missingKeywords, ", ")))
  }

  /** A single line gives exactly one suggestion if it is not blank and none if it is. */
  lemma CleanOneLine(line: string)
    ensures NonBlank(line) ==> CleanLines([line]) == [CleanLine(line)]
    ensures !NonBlank(line) ==> CleanLines([line]) == []
  {
    assert [line][1..] == [];
  }

  /** The first line contributes its own suggestion, if any, ahead of the rest. */
  lemma CleanLinesCons(line: string, rest: seq<string>)
    ensures CleanLines([line] + rest) == CleanOne(line) + CleanLines(rest)
  {
    assert ([line] + rest)[1..] == rest;
  }

  /**
   * Cleaning works line by line and keeps the order: the suggestions of two
   * blocks of lines are those of the first block followed by those of the
   * second. With `CleanOneLine` this says there is one suggestion per
   * non-blank line, in the order of the lines.
   */
  lemma {:induction false} CleanLinesAppend(a: seq<string>, b: seq<string>)
    ensures CleanLines(a + b) == CleanLines(a) + CleanLines(b)
    decreases |a|
  {
    if a == [] {
      assert a + b == b;
    } else {
      var t := a[1..];
      assert a == [a[0]] + t;
      assert a + b == [a[0]] + (t + b);
      CleanLinesCons(a[0], t);
      CleanLinesCons(a[0], t + b);
      CleanLinesAppend(t, b);
    }
  }

  /** There are never more suggestions than lines, and there are none exactly when every line is blank. */
  lemma {:induction false} CleanLinesCount(lines: seq<string>)
    ensures |CleanLines(lines)| <= |lines|
    ensures CleanLines(lines) == [] <==> forall k | 0 <= k < |lines| :: !NonBlank(lines[k])
    decreases |lines|
  {
    if lines != [] {
      CleanLinesCount(lines[1..]);
      assert forall k | 1 <= k < |lines| :: lines[k] == lines[1..][k - 1];
    }
  }

  /**
   * Every suggestion is the bullet-strip of some non-blank line: it is a
   * slice of that line, everything cut off is a bullet character, and it
   * neither starts nor ends with one (it may be empty).
   */
  lemma {:induction false} CleanLinesShape(lines: seq<string>)
    ensures forall e | e in CleanLines(lines) ::
      exists k | 0 <= k < |lines| :: NonBlank(lines[k]) && IsStripOf(lines[k], e, BulletChars)
    ensures forall e | e in CleanLines(lines) :: NoEdgeIn(e, BulletChars)
    decreases |lines|
  {
    if lines != [] {
      CleanLinesShape(lines[1..]);
      StripCharsSpec(lines[0], BulletChars);
      forall e | e in CleanLines(lines)
        ensures exists k | 0 <= k < |lines| :: NonBlank(lines[k]) && IsStripOf(lines[k], e, BulletChars)
      {
        if NonBlank(lines[0]) && e == CleanLine(lines[0]) {
          assert NonBlank(lines[0]) && IsStripOf(lines[0], e, BulletChars);
        } else {
          assert CleanLines(lines) == CleanOne(lines[0]) + CleanLines(lines[1..]);
          assert e in CleanLines(lines[1..]);
          var k :| 0 <= k < |lines[1..]| && NonBlank(lines[1..][k]) && IsStripOf(lines[1..][k], e, BulletChars);
          assert lines[1..][k] == lines[k + 1];
        }
      }
    }
  }

  /** Cleaning the answer of two blocks joined by a newline cleans each block on its own. */
  lemma CleanSuggestionsAppend(a: string, b: string)
    ensures CleanSuggestions(a + "\n" + b) == CleanSuggestions(a) + CleanSuggestions(b)
  {
    assert a + "\n" + b == a + ['\n'] + b;
    SplitOnAppend(a, '\n', b, {'\n'});
    CleanLinesAppend(SplitOn(a, {'\n'}), SplitOn(b, {'\n'}));
  }

  /** A strip of a line without a line break has none either. */
  lemma StripOfLineHasNoBreak(line: string, e: string)
    requires NoneIn(line, {'\n'}) && IsStripOf(line, e, BulletChars)
    ensures NoneIn(e, {'\n'})
  {
    var i, j :| StripAt(line, e, BulletChars, i, j);
    assert forall m | 0 <= m < |e| :: e[m] == line[i + m];
  }

  /** Lines without a line break give suggestions without one. */
  lemma SuggestionLinesHaveNoBreak(lines: seq<string>)
    requires forall k | 0 <= k < |lines| :: NoneIn(lines[k], {'\n'})
    ensures forall e | e in CleanLines(lines) :: NoneIn(e, {'\n'})
  {
    CleanLinesShape(lines);
    forall e | e in CleanLines(lines)
      ensures NoneIn(e, {'\n'})
    {
      var k :| 0 <= k < |lines| && NonBlank(lines[k]) && IsStripOf(lines[k], e, BulletChars);
      StripOfLineHasNoBreak(lines[k], e);
    }
  }

  /** A numbered bullet loses its number, its dot and the space after it. */
  lemma NumberedBullet()
    ensures CleanLine("1. Use stronger verbs") == "Use stronger verbs"
  {
    var s := "1. Use stronger verbs";
    assert s[3..] == "Use stronger verbs";
    assert s[..3] == "1. " && AllIn("1. ", BulletChars);
    assert s[|s|..] == [] && AllIn([], BulletChars);
    assert NoEdgeIn("Use stronger verbs", BulletChars);
    StripByWitness(s, "Use stronger verbs", BulletChars, 3, |s|);
  }

  /** Digits are stripped at the end too, so a trailing number is lost with the space before it. */
  lemma TrailingNumberLost()
    ensures CleanLine("Scale to 10") == "Scale to"
  {
    var s := "Scale to 10";
    assert s[..8] == "Scale to";
    assert s[..0] == [] && AllIn([], BulletChars);
    assert s[8..] == " 10" && AllIn(" 10", BulletChars);
    assert NoEdgeIn("Scale to", BulletChars);
    StripByWitness(s, "Scale to", BulletChars, 0, 8);
  }

  /** A line made only of a bullet is not blank, so it yields an empty suggestion. */
  lemma BareBulletGivesEmpty()
    ensures NonBlank("1.") && CleanLines(["1."]) == [""]
  {
    assert "1."[0] !in Whitespace;
    StripCharsEmpty("1.", Whitespace);
    assert AllIn("1.", BulletChars);
    StripCharsEmpty("1.", BulletChars);
    CleanOneLine("1.");
  }
}
