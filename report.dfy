/**
 * The downloadable ATS report (the `report_text` template in app.py): each
 * keyword list is written as `', '.join(items)`, or `None` when the list is
 * empty, and the suggestions as one `- ` line each.
 */
module Report {
  import opened Text
  import opened Suggestions

  /**
   * `', '.join(items) if items else 'None'`. A non-empty list of items that
   * contain no comma and have no whitespace at either end reads back, split
   * on commas and stripped, as the list; the empty list reads back as
   * `["None"]`.
   */
  function RenderList(items: seq<string>): (r: string)
    ensures items == [] ==> ParseList(r) == ["None"]
    ensures items != [] && (forall k | 0 <= k < |items| :: NoneIn(items[k], {','}) && NoEdgeIn(items[k], Whitespace))
      ==> ParseList(r) == items
  {
    if items == [] then
      ParseNone();
      "None"
    else if forall k | 0 <= k < |items| :: NoneIn(items[k], {','}) && NoEdgeIn(items[k], Whitespace) then
      ParseJoinedList(items);
      Join(items, ", ")
    else
      Join(items, ", ")
  }

  /**
   * `chr(10).join([f"- {s}" for s in suggestions])`. Cleaned as the program
   * cleans the model's answer, the text gives back every list of single-line
   * suggestions without a bullet character at either end.
   */
  function RenderSuggestions(suggestions: seq<string>): (r: string)
    ensures (forall k | 0 <= k < |suggestions| :: NoneIn(suggestions[k], {'\n'}) && NoEdgeIn(suggestions[k], BulletChars))
      ==> CleanSuggestions(r) == suggestions
  {
    var text := Join(Bulleted(suggestions), "\n");
    if forall k | 0 <= k < |suggestions| :: NoneIn(suggestions[k], {'\n'}) && NoEdgeIn(suggestions[k], BulletChars) then
      BulletedLinesClean(suggestions);
      text
    else
      text
  }

  /** Each suggestion with the `- ` bullet in front. */
  function Bulleted(suggestions: seq<string>): (r: seq<string>)
    ensures |r| == |suggestions|
  {
    if suggestions == [] then [] else ["- " + suggestions[0]] + Bulleted(suggestions[1..])
  }

  /** A reader's inverse of `RenderList`: split on commas and strip each piece. */
  function ParseList(text: string): seq<string> {
    StripAll(SplitOn(text, {','}))
  }

  function StripAll(segs: seq<string>): (r: seq<string>)
    ensures |r| == |segs|
  {
    if segs == [] then [] else [Strip(segs[0])] + StripAll(segs[1..])
  }

  /** The text `None` reads back as the one-element list `["None"]`. */
  lemma ParseNone()
    ensures ParseList("None") == ["None"]
  {
    SplitOnNoSeparator("None", {','});
    StripCharsOfStripped("None", Whitespace);
  }

  /** The empty list and the one-element list `["None"]` render to the same text. */
  lemma EmptyAndNoneCollide()
    ensures RenderList([]) == RenderList(["None"]) == "None"
  {
  }

  /** A leading whitespace character that is not a separator changes no stripped piece. */
  lemma LeadingBlankIgnored(c: char, s: string)
    requires c in Whitespace && c != ','
    ensures StripAll(SplitOn([c] + s, {','})) == StripAll(SplitOn(s, {','}))
  {
    var segs := SplitOn(s, {','});
    assert ([c] + s)[0] == c && ([c] + s)[1..] == s;
    assert SplitOn([c] + s, {','}) == [[c] + segs[0]] + segs[1..];
    assert AllIn([c], Whitespace) && AllIn([], Whitespace);
    StripCharsPadding([c], segs[0], [], Whitespace);
    assert [c] + segs[0] + [] == [c] + segs[0];
    assert segs == [segs[0]] + segs[1..];
  }

  /**
   * Reading a list joined with `", "` back, by splitting on commas and
   * stripping, gives the list again, provided it is non-empty and no item
   * contains a comma or starts or ends with whitespace.
   */
  lemma {:induction false} ParseJoinedList(items: seq<string>)
    requires items != []
    requires forall k | 0 <= k < |items| :: NoneIn(items[k], {','}) && NoEdgeIn(items[k], Whitespace)
    ensures ParseList(Join(items, ", ")) == items
    decreases |items|
  {
    var x := items[0];
    StripCharsOfStripped(x, Whitespace);
    SplitOnNoSeparator(x, {','});
    if |items| == 1 {
      assert Join(items, ", ") == x;
    } else {
      var rest := items[1..];
      var j := Join(rest, ", ");
      assert forall k | 0 <= k < |rest| :: rest[k] == items[k + 1];
      ParseJoinedList(rest);
      assert Join(items, ", ") == x + [','] + ([' '] + j);
      SplitOnAppend(x, ',', [' '] + j, {','});
      LeadingBlankIgnored(' ', j);
      StripAllAppend([x], SplitOn([' '] + j, {','}));
    }
  }

  lemma {:induction false} StripAllAppend(a: seq<string>, b: seq<string>)
    ensures StripAll(a + b) == StripAll(a) + StripAll(b)
    decreases |a|
  {
    if a != [] {
      assert (a + b)[0] == a[0] && (a + b)[1..] == a[1..] + b;
      StripAllAppend(a[1..], b);
    } else {
      assert a + b == b;
    }
  }

  /** One bulleted suggestion cleans back to the suggestion. */
  lemma BulletedLineCleans(s: string)
    requires NoneIn(s, {'\n'}) && NoEdgeIn(s, BulletChars)
    ensures CleanSuggestions("- " + s) == [s]
  {
    var line := "- " + s;
    assert SplitOn(line, {'\n'}) == [line] by {
      assert forall k | 2 <= k < |line| :: line[k] == s[k - 2];
      SplitOnNoSeparator(line, {'\n'});
    }
    assert NonBlank(line) by {
      assert line[0] !in Whitespace;
      StripCharsEmpty(line, Whitespace);
    }
    assert CleanLine(line) == s by {
      assert AllIn("- ", BulletChars) && AllIn([], BulletChars);
      StripCharsPadding("- ", s, [], BulletChars);
      assert "- " + s + [] == line;
      StripCharsOfStripped(s, BulletChars);
    }
    CleanOneLine(line);
  }

  /**
   * The bulleted suggestion lines read back, through the same cleaning the
   * program applies to the model's answer, as the suggestions they were
   * written from, provided each is a single line that neither starts nor
   * ends with a bullet character (as every cleaned suggestion is).
   */
  lemma {:induction false} BulletedLinesClean(suggestions: seq<string>)
    requires forall k | 0 <= k < |suggestions| :: NoneIn(suggestions[k], {'\n'}) && NoEdgeIn(suggestions[k], BulletChars)
    ensures CleanSuggestions(Join(Bulleted(suggestions), "\n")) == suggestions
    decreases |suggestions|
  {
    if suggestions == [] {
      assert SplitOn([], {'\n'}) == [[]];
      assert !NonBlank([]);
      CleanOneLine([]);
    } else {
      var s := suggestions[0];
      var rest := suggestions[1..];
      BulletedLineCleans(s);
      if rest == [] {
        assert Join(Bulleted(suggestions), "\n") == "- " + s;
      } else {
        var tail := Join(Bulleted(rest), "\n");
        assert forall k | 0 <= k < |rest| :: rest[k] == suggestions[k + 1];
        BulletedLinesClean(rest);
        assert Bulleted(suggestions)[1..] == Bulleted(rest);
        assert Join(Bulleted(suggestions), "\n") == ("- " + s) + "\n" + tail;
        CleanSuggestionsAppend("- " + s, tail);
      }
    }
  }
}
