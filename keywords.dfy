/**
 * Keyword extraction: `normalize_keyword` and what
 * `extract_technical_keywords_ai` does with the language model's answer
 * (app.py:95-112). The model call itself is an oracle parameter; so is
 * `inflect`'s `singular_noun`.
 */
module Keywords {
  import opened Text

  datatype Option<T> = None | Some(value: T)

  /**
   * `inflect.engine().singular_noun`: `Some(s)` for the string it returns,
   * `None` for its `False` ("not a plural noun"). Its rules belong to the
   * inflect library.
   */
  type Singularizer = string -> Option<string>

  /** The completion the language model returns for the extraction prompt built from a text and its context label. */
  type ExtractionOracle = (string, string) -> string

  /** `re.split(r",|\n", response)` splits at these. */
  const KeywordSeparators: set<char> := {',', '\n'}

  /** Python truthiness of `singular_noun`'s answer: a non-empty string. */
  predicate HasSingular(answer: Option<string>) {
    answer.Some? && answer.value != []
  }

  /**
   * `normalize_keyword(word)`: without a (non-empty) singular form the
   * keyword is the strip of the lower-cased word, and only a blank word can
   * normalize to the empty string.
   */
  function Normalize(word: string, singular: Singularizer): (r: string)
    ensures !HasSingular(singular(Strip(Lower(word)))) ==> IsStripOf(Lower(word), r, Whitespace)
    ensures r == [] ==> AllIn(word, Whitespace)
  {
    var w := Strip(Lower(word));
    var answer := singular(w);
    StripCharsSpec(Lower(word), Whitespace);
    StripCharsEmpty(Lower(word), Whitespace);
    LowerAllIn(word);
    if HasSingular(answer) then answer.value else w
  }

  /**
   * The list comprehension of app.py:111 over the segments: one normalized
   * keyword per segment whose `strip()` is non-empty, in order.
   */
  function NormalizeSegments(segs: seq<string>, singular: Singularizer): seq<string>
    decreases |segs|
  {
    if segs == [] then []
    else
      var rest := NormalizeSegments(segs[1..], singular);
      if Strip(segs[0]) != [] then [Normalize(segs[0], singular)] + rest else rest
  }

  /** `set(...)` of a list. */
  function ToSet(xs: seq<string>): set<string> {
    set x | x in xs
  }

  /**
   * The post-processing of `extract_technical_keywords_ai` (app.py:111-112).
   * No keyword is found exactly when the answer consists of nothing but
   * whitespace, commas and newlines.
   */
  function ParseKeywords(response: string, singular: Singularizer): (r: set<string>)
    ensures r == {} <==> AllIn(response, Whitespace + KeywordSeparators)
  {
    var segs := SplitOn(response, KeywordSeparators);
    var list := NormalizeSegments(segs, singular);
    NormalizeSegmentsEmpty(segs, singular);
    AllSegmentsIn(response, Whitespace, KeywordSeparators);
    assert list != [] ==> list[0] in ToSet(list);
    ToSet(list)
  }

  /**
   * `extract_technical_keywords_ai(text, context)` (app.py:100-112), with the
   * prompt and the model call folded into `ask`. An empty keyword set means
   * the answer held nothing but whitespace, commas and newlines.
   */
  function ExtractTechnicalKeywords(text: string, context: string, ask: ExtractionOracle, singular: Singularizer): (r: set<string>)
    ensures r == {} <==> AllIn(ask(text, context), Whitespace + KeywordSeparators)
  {
    ParseKeywords(ask(text, context), singular)
  }

  // ---------------------------------------------------------------- normalize_keyword

  /**
   * When the singularizer has no (non-empty) answer, the keyword is
   * lower-case and has no whitespace at either end.
   */
  lemma NormalizeFallback(word: string, singular: Singularizer)
    requires !HasSingular(singular(Strip(Lower(word))))
    ensures IsLower(Normalize(word, singular))
    ensures NoEdgeIn(Normalize(word, singular), Whitespace)
  {
    var r := Normalize(word, singular);
    var i, j :| StripAt(Lower(word), r, Whitespace, i, j);
    LowerIsLower(word);
    IsLowerSlice(Lower(word), i, j);
  }

  /**
   * Case and surrounding whitespace never matter: two spellings that agree
   * after lower-casing normalize alike, however they are padded.
   */
  lemma NormalizeIgnoresCaseAndPadding(pre: string, a: string, post: string, b: string, singular: Singularizer)
    requires AllIn(pre, Whitespace) && AllIn(post, Whitespace)
    requires Lower(a) == Lower(b)
    ensures Normalize(pre + a + post, singular) == Normalize(b, singular)
  {
    LowerAppend(pre + a, post);
    LowerAppend(pre, a);
    LowerAllIn(pre);
    LowerAllIn(post);
    StripCharsPadding(Lower(pre), Lower(a), Lower(post), Whitespace);
  }

  /**
   * Normalizing twice changes nothing, provided the singularizer returns
   * lower-case, stripped words and leaves its own answers alone.
   */
  lemma NormalizeIdempotent(word: string, singular: Singularizer)
    requires HasSingular(singular(Strip(Lower(word)))) ==>
               IsLower(singular(Strip(Lower(word))).value)
               && NoEdgeIn(singular(Strip(Lower(word))).value, Whitespace)
    requires !HasSingular(singular(Normalize(word, singular)))
    ensures Normalize(Normalize(word, singular), singular) == Normalize(word, singular)
  {
    var n := Normalize(word, singular);
    if !HasSingular(singular(Strip(Lower(word)))) {
      NormalizeFallback(word, singular);
    }
    LowerOfLower(n);
    StripCharsOfStripped(n, Whitespace);
  }

  // ---------------------------------------------------------------- the parsed keyword set

  /** A string is a keyword of the list exactly when some non-blank segment normalizes to it. */
  lemma {:induction false} NormalizeSegmentsMembers(segs: seq<string>, singular: Singularizer, x: string)
    ensures x in NormalizeSegments(segs, singular)
        <==> exists k | 0 <= k < |segs| :: Strip(segs[k]) != [] && Normalize(segs[k], singular) == x
    decreases |segs|
  {
    if segs != [] {
      NormalizeSegmentsMembers(segs[1..], singular, x);
      assert forall k | 1 <= k < |segs| :: segs[k] == segs[1..][k - 1];
      if exists k | 0 <= k < |segs[1..]| :: Strip(segs[1..][k]) != [] && Normalize(segs[1..][k], singular) == x {
        var k :| 0 <= k < |segs[1..]| && Strip(segs[1..][k]) != [] && Normalize(segs[1..][k], singular) == x;
        assert segs[k + 1] == segs[1..][k];
      }
    }
  }

  /** The list has at most one keyword per segment. */
  lemma {:induction false} NormalizeSegmentsLength(segs: seq<string>, singular: Singularizer)
    ensures |NormalizeSegments(segs, singular)| <= |segs|
    decreases |segs|
  {
    if segs != [] {
      NormalizeSegmentsLength(segs[1..], singular);
    }
  }

  /** A set built from a list has no more elements than the list. */
  lemma {:induction false} ToSetSize(xs: seq<string>)
    ensures |ToSet(xs)| <= |xs|
    decreases |xs|
  {
    if xs != [] {
      ToSetSize(xs[1..]);
      assert ToSet(xs) == {xs[0]} + ToSet(xs[1..]);
    }
  }

  /**
   * The parsed keyword set holds exactly the normalized forms of the
   * segments of the answer (split at every comma and newline) that are not
   * blank, and it has at most one keyword per segment.
   */
  lemma ParseKeywordsMembers(response: string, singular: Singularizer)
    ensures forall x :: x in ParseKeywords(response, singular) <==>
      exists k | 0 <= k < |SplitOn(response, KeywordSeparators)| ::
        Strip(SplitOn(response, KeywordSeparators)[k]) != []
        && Normalize(SplitOn(response, KeywordSeparators)[k], singular) == x
    ensures |ParseKeywords(response, singular)| <= |Separators(response, KeywordSeparators)| + 1
  {
    var segs := SplitOn(response, KeywordSeparators);
    forall x ensures x in ParseKeywords(response, singular) <==>
      exists k | 0 <= k < |segs| :: Strip(segs[k]) != [] && Normalize(segs[k], singular) == x
    {
      NormalizeSegmentsMembers(segs, singular, x);
    }
    NormalizeSegmentsLength(segs, singular);
    ToSetSize(NormalizeSegments(segs, singular));
    SplitOnRoundTrip(response, KeywordSeparators);
  }

  /** An empty list means every segment was blank, and conversely. */
  lemma {:induction false} NormalizeSegmentsEmpty(segs: seq<string>, singular: Singularizer)
    ensures NormalizeSegments(segs, singular) == [] <==> AllSegmentsAllIn(segs, Whitespace)
    decreases |segs|
  {
    if segs != [] {
      NormalizeSegmentsEmpty(segs[1..], singular);
      StripCharsEmpty(segs[0], Whitespace);
      assert forall k | 1 <= k < |segs| :: segs[k] == segs[1..][k - 1];
      assert forall k | 0 <= k < |segs[1..]| :: segs[1..][k] == segs[k + 1];
    }
  }

  /**
   * A response without the expected JSON shape (an HTTP error status with a
   * body, say) becomes the answer "Error: <body>"; its text is parsed like
   * any other answer, so it yields keywords rather than an empty set.
   */
  lemma ErrorAnswerYieldsKeywords(body: string, singular: Singularizer)
    ensures ParseKeywords("Error: " + body, singular) != {}
  {
    var response := "Error: " + body;
    assert 'E' !in Whitespace + KeywordSeparators;
    assert response[0] == 'E';
    assert !AllIn(response, Whitespace + KeywordSeparators);
  }

  /** Lower-casing neither creates nor removes commas and newlines. */
  lemma LowerKeepsNoSeparator(s: string)
    requires NoneIn(s, KeywordSeparators)
    ensures NoneIn(Lower(s), KeywordSeparators)
  {
  }

  /** A slice of a string without separators has none either. */
  lemma StripKeepsNoSeparator(s: string)
    requires NoneIn(s, KeywordSeparators)
    ensures NoneIn(Strip(s), KeywordSeparators)
  {
    var r := Strip(s);
    StripCharsSpec(s, Whitespace);
    var i, j :| StripAt(s, r, Whitespace, i, j);
    assert forall k | 0 <= k < |r| :: r[k] == s[i + k];
  }

  /**
   * A keyword's shape: lower-case, no whitespace at either end, and no comma
   * or newline. `normalize_keyword` hands the singularizer only such words.
   */
  predicate KeywordShaped(w: string) {
    IsLower(w) && NoEdgeIn(w, Whitespace) && NoneIn(w, KeywordSeparators)
  }

  /** The word a separator-free segment hands to the singularizer is keyword-shaped. */
  lemma SingularizerInputShaped(seg: string)
    requires NoneIn(seg, KeywordSeparators)
    ensures KeywordShaped(Strip(Lower(seg)))
  {
    var l := Lower(seg);
    LowerIsLower(seg);
    LowerKeepsNoSeparator(seg);
    StripCharsSpec(l, Whitespace);
    var i, j :| StripAt(l, Strip(l), Whitespace, i, j);
    IsLowerSlice(l, i, j);
    StripKeepsNoSeparator(l);
  }

  /** The shape of a keyword that comes from a non-blank segment without a singular form. */
  lemma SegmentKeywordShape(seg: string, singular: Singularizer)
    requires !HasSingular(singular(Strip(Lower(seg))))
    requires NoneIn(seg, KeywordSeparators) && Strip(seg) != []
    ensures var x := Normalize(seg, singular);
      x != [] && IsLower(x) && NoEdgeIn(x, Whitespace) && NoneIn(x, KeywordSeparators)
  {
    NormalizeFallback(seg, singular);
    StripLowerCommute(seg);
    StripKeepsNoSeparator(seg);
    LowerKeepsNoSeparator(Strip(seg));
    assert Normalize(seg, singular) == Lower(Strip(seg));
  }

  /**
   * Every keyword is non-empty, lower-case, free of commas and newlines,
   * and has no surrounding whitespace, provided the singular form the
   * singularizer gives for a word of that shape has that shape too.
   */
  lemma ParseKeywordsShape(response: string, singular: Singularizer)
    requires forall w | KeywordShaped(w) :: HasSingular(singular(w)) ==> KeywordShaped(singular(w).value)
    ensures forall x | x in ParseKeywords(response, singular) ::
      x != [] && IsLower(x) && NoEdgeIn(x, Whitespace) && NoneIn(x, KeywordSeparators)
  {
    var segs := SplitOn(response, KeywordSeparators);
    SegmentsHaveNoSeparator(response, KeywordSeparators);
    forall x | x in ParseKeywords(response, singular)
      ensures x != [] && IsLower(x) && NoEdgeIn(x, Whitespace) && NoneIn(x, KeywordSeparators)
    {
      NormalizeSegmentsMembers(segs, singular, x);
      var k :| 0 <= k < |segs| && Strip(segs[k]) != [] && Normalize(segs[k], singular) == x;
      SingularizerInputShaped(segs[k]);
      if !HasSingular(singular(Strip(Lower(segs[k])))) {
        SegmentKeywordShape(segs[k], singular);
      }
    }
  }

  // ---------------------------------------------------------------- examples

  /** Three separator-free pieces joined by commas split back into those pieces. */
  lemma SplitThree(a: string, b: string, c: string)
    requires NoneIn(a, KeywordSeparators) && NoneIn(b, KeywordSeparators) && NoneIn(c, KeywordSeparators)
    ensures SplitOn(a + [','] + b + [','] + c, KeywordSeparators) == [a, b, c]
  {
    assert a + [','] + b + [','] + c == a + [','] + (b + [','] + c);
    SplitOnAppend(a, ',', b + [','] + c, KeywordSeparators);
    SplitOnAppend(b, ',', c, KeywordSeparators);
    SplitOnNoSeparator(a, KeywordSeparators);
    SplitOnNoSeparator(b, KeywordSeparators);
    SplitOnNoSeparator(c, KeywordSeparators);
  }

  /** Two separator-free pieces joined by a comma split back into those pieces. */
  lemma SplitTwo(a: string, b: string)
    requires NoneIn(a, KeywordSeparators) && NoneIn(b, KeywordSeparators)
    ensures SplitOn(a + [','] + b, KeywordSeparators) == [a, b]
  {
    SplitOnAppend(a, ',', b, KeywordSeparators);
    SplitOnNoSeparator(a, KeywordSeparators);
    SplitOnNoSeparator(b, KeywordSeparators);
  }

  /** A lower-case word without surrounding whitespace and without a singular form normalizes to itself. */
  lemma NormalizeNormal(w: string, singular: Singularizer)
    requires IsLower(w) && NoEdgeIn(w, Whitespace) && !HasSingular(singular(w))
    ensures Normalize(w, singular) == w
  {
    LowerOfLower(w);
    StripCharsOfStripped(w, Whitespace);
  }

  /** Three comma-separated spellings that normalize alike leave one keyword. */
  lemma ThreeSpellingsCollapse(a: string, b: string, c: string, w: string, singular: Singularizer)
    requires NoneIn(a, KeywordSeparators) && NoneIn(b, KeywordSeparators) && NoneIn(c, KeywordSeparators)
    requires Strip(a) != [] && Strip(b) != [] && Strip(c) != []
    requires Normalize(a, singular) == w && Normalize(b, singular) == w && Normalize(c, singular) == w
    ensures ParseKeywords(a + [','] + b + [','] + c, singular) == {w}
  {
    SplitThree(a, b, c);
    assert [a, b, c][1..] == [b, c] && [b, c][1..] == [c] && [c][1..] == [];
    assert NormalizeSegments([c], singular) == [w];
    assert NormalizeSegments([b, c], singular) == [w, w];
    assert NormalizeSegments([a, b, c], singular) == [w, w, w];
    assert ToSet([w, w, w]) == {w};
  }

  /** Two comma-separated words give their two normalized forms. */
  lemma TwoWords(a: string, b: string, singular: Singularizer)
    requires NoneIn(a, KeywordSeparators) && NoneIn(b, KeywordSeparators)
    requires Strip(a) != [] && Strip(b) != []
    ensures ParseKeywords(a + [','] + b, singular) == {Normalize(a, singular), Normalize(b, singular)}
  {
    SplitTwo(a, b);
    assert [a, b][1..] == [b] && [b][1..] == [];
    assert NormalizeSegments([b], singular) == [Normalize(b, singular)];
    assert NormalizeSegments([a, b], singular) == [Normalize(a, singular), Normalize(b, singular)];
  }

  /** A word with a character that is not whitespace is not blank. */
  lemma NotBlank(s: string, i: nat)
    requires i < |s| && s[i] !in Whitespace
    ensures Strip(s) != []
  {
    StripCharsEmpty(s, Whitespace);
  }

  /** "python" is already in normal form. */
  lemma PythonNormal(singular: Singularizer)
    requires !HasSingular(singular("python"))
    ensures Normalize("python", singular) == "python"
  {
    assert IsLower("python") && NoEdgeIn("python", Whitespace);
    NormalizeNormal("python", singular);
  }

  /** "Python" and "PYTHON" lower-case to "python". */
  lemma LowerPython()
    ensures Lower("Python") == "python"
  {
  }

  lemma LowerPYTHON()
    ensures Lower("PYTHON") == "python"
  {
  }

  /** "Python" normalizes to "python". */
  lemma PythonCapitalized(singular: Singularizer)
    requires !HasSingular(singular("python"))
    ensures Normalize("Python", singular) == "python"
  {
    PythonNormal(singular);
    LowerPython();
    LowerOfLower("python");
    assert [] + "Python" + [] == "Python";
    NormalizeIgnoresCaseAndPadding([], "Python", [], "python", singular);
  }

  /** " python" normalizes to "python". */
  lemma PythonPadded(singular: Singularizer)
    requires !HasSingular(singular("python"))
    ensures Normalize(" python", singular) == "python"
  {
    PythonNormal(singular);
    assert [' '] + "python" + [] == " python";
    NormalizeIgnoresCaseAndPadding([' '], "python", [], "python", singular);
  }

  /** " PYTHON" normalizes to "python". */
  lemma PythonShouted(singular: Singularizer)
    requires !HasSingular(singular("python"))
    ensures Normalize(" PYTHON", singular) == "python"
  {
    PythonNormal(singular);
    LowerPYTHON();
    LowerOfLower("python");
    assert [' '] + "PYTHON" + [] == " PYTHON";
    NormalizeIgnoresCaseAndPadding([' '], "PYTHON", [], "python", singular);
  }

  /** The three pieces of "Python, python, PYTHON" hold no separator and are not blank. */
  lemma PythonPieces()
    ensures NoneIn("Python", KeywordSeparators) && NoneIn(" python", KeywordSeparators) && NoneIn(" PYTHON", KeywordSeparators)
    ensures Strip("Python") != [] && Strip(" python") != [] && Strip(" PYTHON") != []
  {
    NotBlank("Python", 0);
    NotBlank(" python", 1);
    NotBlank(" PYTHON", 1);
  }

  /** "Python, python, PYTHON" yields the single keyword "python". */
  lemma DuplicatesCollapse(singular: Singularizer)
    requires !HasSingular(singular("python"))
    ensures ParseKeywords("Python, python, PYTHON", singular) == {"python"}
  {
    assert "Python, python, PYTHON" == "Python" + [','] + " python" + [','] + " PYTHON";
    PythonPieces();
    PythonCapitalized(singular);
    PythonPadded(singular);
    PythonShouted(singular);
    ThreeSpellingsCollapse("Python", " python", " PYTHON", "python", singular);
  }

  /** "Databases" lower-cases and strips to "databases". */
  lemma DatabasesSpelling()
    ensures Strip(Lower("Databases")) == "databases"
  {
    assert Lower("Databases") == "databases";
    assert NoEdgeIn("databases", Whitespace);
    StripCharsOfStripped("databases", Whitespace);
  }

  /** A word after one leading space lower-cases and strips as the word alone does. */
  lemma LeadingSpace(u: string, w: string)
    requires Lower(u) == w && NoEdgeIn(w, Whitespace)
    ensures Strip(Lower([' '] + u)) == w
  {
    LowerAppend([' '], u);
    assert Lower([' ']) == [' '];
    assert [' '] + w + [] == [' '] + w;
    StripCharsPadding([' '], w, [], Whitespace);
    StripCharsOfStripped(w, Whitespace);
  }

  /** " Frameworks" lower-cases and strips to "frameworks". */
  lemma FrameworksSpelling()
    ensures Strip(Lower(" Frameworks")) == "frameworks"
  {
    assert Lower("Frameworks") == "frameworks";
    assert NoEdgeIn("frameworks", Whitespace);
    LeadingSpace("Frameworks", "frameworks");
    assert [' '] + "Frameworks" == " Frameworks";
  }

  /** "Databases" normalizes to the singularizer's answer for "databases". */
  lemma DatabasesNormal(singular: Singularizer)
    requires singular("databases") == Some("database")
    ensures Normalize("Databases", singular) == "database"
  {
    DatabasesSpelling();
  }

  /** " Frameworks" normalizes to the singularizer's answer for "frameworks". */
  lemma FrameworksNormal(singular: Singularizer)
    requires singular("frameworks") == Some("framework")
    ensures Normalize(" Frameworks", singular) == "framework"
  {
    FrameworksSpelling();
  }

  /** The two pieces of "Databases, Frameworks" hold no separator and are not blank. */
  lemma PluralPieces()
    ensures NoneIn("Databases", KeywordSeparators) && NoneIn(" Frameworks", KeywordSeparators)
    ensures Strip("Databases") != [] && Strip(" Frameworks") != []
  {
    NotBlank("Databases", 0);
    NotBlank(" Frameworks", 1);
  }

  /** "Databases, Frameworks" yields {"database", "framework"} under the usual singular forms. */
  lemma PluralsSingularized(singular: Singularizer)
    requires singular("databases") == Some("database")
    requires singular("frameworks") == Some("framework")
    ensures ParseKeywords("Databases, Frameworks", singular) == {"database", "framework"}
  {
    assert "Databases, Frameworks" == "Databases" + [','] + " Frameworks";
    PluralPieces();
    DatabasesNormal(singular);
    FrameworksNormal(singular);
    TwoWords("Databases", " Frameworks", singular);
  }
}
