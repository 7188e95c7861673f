# ATS resume optimizer: a verified model of its deterministic core

`app.py` is a Streamlit application. It scores a resume (a PDF) against a job
description and suggests improvements. Most of its work is done by a language
model behind an HTTP API. This project models in Dafny what the program itself
does with the model's answers, and proves properties of that model:

- **Keyword extraction** (`normalize_keyword`, `extract_technical_keywords_ai`):
  - The answer is split on every `,` and `\n`, and blank segments are dropped.
  - Each remaining segment is lower-cased, stripped and singularized.
  - The results are collected into a set.
- **Yes/no classification** (`ai_semantic_match`): a keyword matches iff
  `"yes"` occurs anywhere in the stripped, lower-cased answer.
- **Semantic match** (`calculate_semantic_match`):
  - Each keyword goes into `matched` or `missing` according to the classifier.
  - The match percentage is computed, rounded to two decimals.
- **Suggestion cleaning** (`get_suggestions_ai`):
  - The answer is split into lines, and blank lines are dropped.
  - `" -•1234567890.*"` is stripped from both ends of each remaining line.
- **Report lists**: a keyword list is written as `', '.join(...)`, or `None` when
  it is empty. Suggestions are written one `- ` line each.

Every call to the language model is an oracle, a function-typed parameter:

- `ExtractionOracle` takes the text and its context label.
- `MatchOracle` takes the keyword and the resume text.
- `SuggestionOracle` takes the resume, the job description and the joined
  missing keywords.

`inflect`'s `singular_noun` is the `Singularizer` parameter. It returns
`Some(word)`, or `None` for Python's `False`.

Python's string primitives are modelled in module `Text`:

- `str.lower()` covers ASCII only.
- `str.strip()` uses the 29 characters that `str.isspace()` accepts.
- `str.strip(chars)` strips a character set from both ends.
- Splitting on a set of single-character separators models `re.split(r",|\n")`
  and `split("\n")`.
- `str.join` and the substring test `in` are modelled too.

`strip` is specified independently of its recursive definition. `IsStripOf(s,
r, cs)` holds when `r` is a slice of `s`, everything outside it is in `cs`, and
neither of its ends is in `cs`. `StripUnique` shows this pins the result down.

The percentage is an integer number of hundredths of a percent. It is the
integer nearest to `10000 * matched / total`, with ties going to the even
neighbour. This is what Python's `round(x, 2)` does on the exact value.

Modules: `Text` (text.dfy), `Keywords` (keywords.dfy), `Matching`
(matching.dfy), `Suggestions` (suggestions.dfy), `Report` (report.dfy).

## Model

| member | source | states |
|---|---|---|
| Text.StripCharsSpec | app.py:166 | `s.strip(chars)` removes characters of `chars` from both ends and nothing else: the result is a slice, everything cut off is in `chars`, and neither end of the result is |
| Text.StripUnique | app.py:96 | at most one string satisfies the strip description, so it fully determines `strip` |
| Text.StripCharsEmpty | app.py:111 | a strip is empty exactly when every character of the string is in the stripped set; with whitespace this decides the `if kw.strip()` filter |
| Text.StripCharsIdempotent | app.py:96 | stripping twice is the same as stripping once |
| Text.StripLowerCommute | app.py:126 | `s.strip().lower() == s.lower().strip()` |
| Text.ContainsSubStrip | app.py:126-127 | stripping characters of a set never creates or destroys an occurrence of a pattern whose first and last characters are outside that set |
| Text.SplitOnRoundTrip | app.py:111 | splitting loses nothing: the segments interleaved with the separators give back the string, and there is one more segment than separators |
| Text.SegmentsHaveNoSeparator | app.py:111 | no segment produced by the split contains a separator |
| Text.SplitOnAppend | app.py:166 | splitting at a separator splits the two sides independently |
| Text.JoinSplit | app.py:166 | `c.join(s.split(c)) == s` |
| Text.SplitJoin | app.py:261 | `c.join(xs).split(c) == xs` when no item contains `c` and the list is non-empty |
| Keywords.NormalizeFallback | app.py:95-98 | when the singularizer gives no non-empty answer, the keyword is lower-case and has no whitespace at either end |
| Keywords.NormalizeIgnoresCaseAndPadding | app.py:96 | words that differ only in ASCII case and surrounding whitespace normalize alike |
| Keywords.Normalize | app.py:95-98 | `normalize_keyword`: without a non-empty singular form, the keyword is the strip of the lower-cased word, in the sense of `Text.StripCharsSpec`; only an all-whitespace word normalizes to the empty string |
| Keywords.NormalizeIdempotent | app.py:95-98 | normalizing a keyword again changes nothing, when the singularizer returns lower-case stripped words and has no singular for its own result |
| Keywords.ParseKeywordsMembers | app.py:111-112 | the keyword set holds exactly the normalized forms of the segments, split on `,` and `\n`, whose `strip()` is non-empty; it has at most one element more than there are separators |
| Keywords.ParseKeywords | app.py:111-112 | the post-processing of the extraction answer gives an empty keyword set exactly when the answer consists only of whitespace, commas and newlines (membership: `ParseKeywordsMembers`; shape: `ParseKeywordsShape`) |
| Keywords.ExtractTechnicalKeywords | app.py:100-112 | the extracted set is empty iff the model's answer holds only whitespace, commas and newlines |
| Keywords.ErrorAnswerYieldsKeywords | app.py:111-112 | the answer `"Error: ..."`, which a response without the expected JSON shape becomes, always yields at least one keyword |
| Keywords.ParseKeywordsShape | app.py:111-112 | every keyword is non-empty and lower-case, has no whitespace at either end, and contains no comma or newline, provided the singularizer, given such a word, answers with such a word |
| Keywords.ThreeSpellingsCollapse | app.py:112 | three comma-separated spellings that normalize alike give one keyword, since the result is a set |
| Keywords.DuplicatesCollapse | app.py:111-112 | `"Python, python, PYTHON"` yields `{"python"}` |
| Keywords.PluralsSingularized | app.py:95-98 | `"Databases, Frameworks"` yields `{"database", "framework"}` when the singularizer maps the plurals to those words |
| Matching.IsYes | app.py:126-127 | the answer counts as yes iff `"yes"` occurs anywhere in the lower-cased answer; stripping never changes the verdict |
| Matching.AiSemanticMatch | app.py:115-127 | `ai_semantic_match`: a keyword matches iff the oracle's answer contains `"yes"` in any case |
| Matching.YesterdayIsYes | app.py:127 | `"Yesterday"` counts as a yes |
| Matching.NoIsNotYes | app.py:127 | `"NO"` is not a yes |
| Matching.ErrorAnswerMatches | app.py:126-127 | the answer `"Error: ..."` of a response without the expected JSON shape counts as a match when its body contains `yes` in any case |
| Matching.PartitionMultiset | app.py:130-136 | `matched` and `missing` together are a rearrangement of the input keywords, so their lengths add up to `total` |
| Matching.PartitionSound | app.py:131-135 | every matched keyword is accepted by the classifier, and every missing keyword is rejected |
| Matching.PartitionComplete | app.py:131-135 | an input keyword lands in `matched` when the classifier accepts it, and in `missing` when it rejects it |
| Matching.ExactlyOneList | app.py:130-135 | each input keyword is in exactly one of the lists, the lists share no keyword, and together they hold every input keyword |
| Matching.PartitionPrefix | app.py:131-135 | a prefix of the input gives a prefix of each list, so both lists keep the input order |
| Matching.MatchedPosition | app.py:131-133 | the accepted keyword at input position `i` comes right after the keywords accepted before it |
| Matching.PercentHundredths | app.py:137 | the result is within half a hundredth of `100 * matched / total`, and an exact tie goes to the even hundredth |
| Matching.PercentUnique | app.py:137 | only one value satisfies that rounding rule |
| Matching.PercentBounds | app.py:137 | the percentage lies in 0..100 %, and it is exactly 0 % when nothing matched and exactly 100 % when everything matched |
| Matching.TwoOfThree | app.py:137 | 2 of 3 keywords give 66.67 % |
| Matching.Score | app.py:136-137 | the score is 0 for an empty keyword collection, and at most 100 % |
| Matching.CalculateSemanticMatch | app.py:129-138 | the loop builds exactly the in-order lists of accepted and rejected keywords, their lengths add up to the number of keywords, and the percentage is the rounded score (0 when there are no keywords) |
| Suggestions.CleanOneLine | app.py:166 | a single line gives one suggestion, its bullet-strip, when it is not blank, and none when it is |
| Suggestions.CleanLinesAppend | app.py:166 | cleaning goes line by line and keeps the order; with `CleanOneLine`, there is one suggestion per non-blank line, in order |
| Suggestions.CleanLinesCount | app.py:166 | there are never more suggestions than lines, and there are none exactly when every line is blank |
| Suggestions.CleanLinesShape | app.py:166 | every suggestion is the bullet-strip of a non-blank line, and it neither starts nor ends with a character of `" -•0123456789.*"` |
| Suggestions.CleanSuggestionsAppend | app.py:166 | the answer of two blocks joined by a newline cleans as the two blocks separately |
| Suggestions.CleanSuggestions | app.py:166 | the cleaning of the suggestion answer: no suggestion contains a newline, and none starts or ends with a character of `" -•0123456789.*"` (order and count: `CleanLinesAppend`, `CleanOneLine`, `CleanLinesCount`) |
| Suggestions.GetSuggestions | app.py:141-166 | whatever the model answers, every suggestion is a single line with no bullet character at either end |
| Suggestions.NumberedBullet | app.py:166 | `"1. Use stronger verbs"` becomes `"Use stronger verbs"` |
| Suggestions.TrailingNumberLost | app.py:166 | digits are stripped at the end too: `"Scale to 10"` becomes `"Scale to"` |
| Suggestions.BareBulletGivesEmpty | app.py:166 | the line `"1."` is not blank, so it yields the empty suggestion `""` |
| Report.EmptyAndNoneCollide | app.py:258-259 | the empty list and the list `["None"]` render identically |
| Report.RenderList | app.py:258-259 | the empty list renders as text that reads back as `["None"]`; a non-empty list, split on commas and stripped, reads back as the list, provided no item contains a comma or has whitespace at either end |
| Report.RenderSuggestions | app.py:261 | the report's suggestion lines, cleaned as the program cleans the model's answer, give back the suggestions, provided each is one line with no bullet character at either end, as every cleaned suggestion is |

## Left out

- The Streamlit page, `add_bg_animation`, `gauge_chart` and the button driver (app.py:37-79, 201-266) are presentation only. This includes the report's header, the `{percentage} %` text, and the `kw.title()` display of missing keywords.
- `get_openrouter_response` (app.py:21-35) is an HTTP call, so each use is an oracle parameter. Its `"Error: ..."` answer, for a response whose JSON lacks `choices[0].message.content` (app.py:32-35), appears only as one possible answer, in `ErrorAnswerYieldsKeywords` and `ErrorAnswerMatches`.
- The oracles are total, so two ways an analysis raises instead of answering are not modelled. `requests.post` (app.py:31) sits outside the `try`, so a transport failure such as a refused connection raises. A JSON `null` content is returned as `None`, and then `re.split` (app.py:111), `.strip()` (app.py:126) or `.split("\n")` (app.py:166) raises.
- The prompt texts (app.py:101-109, 116-125, 142-164) are folded into the oracles. Only what each prompt is built from is kept: text and context, keyword and resume, or resume, job description and joined missing keywords.
- `extract_text_from_pdf` (app.py:84-90) wraps PyPDF2. The resume text is a parameter.
- `analyze_brevity`, `analyze_style` and `grammar_check` (app.py:171-198) return the model's answer unchanged, so there is nothing of their own to model.
- The rules of `inflect.singular_noun` are foreign code. They are the `Singularizer` parameter, and example lemmas state the answers they rely on as preconditions.
- `Text.Lower`: models `str.lower()` on ASCII letters only. Other Unicode case mappings are not modelled.
- `Matching.PercentHundredths`: uses exact rational arithmetic. Python computes `round((m / t) * 100, 2)` on binary floats, so the model's exact ties-to-even rule can differ from Python's result in the last hundredth, when the float product lands just off an exact tie. Python's `0` (an `int`) for an empty collection and its float results are both a natural number of hundredths here.
- `Matching.CalculateSemanticMatch`: takes the keyword set as a sequence, in the set's iteration order. That order is not modelled. The oracle is a function, so it answers the same for the same keyword; a live language model need not.
- `s.strip(" -•1234567890.*")` (app.py:166) removes bullet characters from both ends of a line, so a trailing number is lost too (`Suggestions.TrailingNumberLost`).
