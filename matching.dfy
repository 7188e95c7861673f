/**
 * Semantic matching of job-description keywords against a resume
 * (`ai_semantic_match` and `calculate_semantic_match` in app.py).
 *
 * The language model that answers "YES or NO" for one keyword is the oracle
 * `ask(keyword, resumeText)`; the model proves what the program does with
 * its answers: the yes-test, the partition of the keywords into matched and
 * missing lists, and the rounded match percentage.
 */
module Matching {
  import opened Text

  /** The answer of the language model to "does this resume show `keyword`?". */
  type MatchOracle = (string, string) -> string

  // ---------------------------------------------------------------- yes-test

  /**
   * `"yes" in response.strip().lower()`. Stripping the answer never changes
   * the verdict: the test is "yes" anywhere in the lower-cased answer.
   */
  function IsYes(response: string): (r: bool)
    ensures r <==> ContainsSub(Lower(response), "yes")
  {
    StripLowerCommute(response);
    ContainsSubStrip(Lower(response), "yes", Whitespace);
    ContainsSub(Lower(Strip(response)), "yes")
  }

  /** `ai_semantic_match(keyword, resume_text)`: the oracle's answer contains "yes" in any case. */
  function AiSemanticMatch(keyword: string, resumeText: string, ask: MatchOracle): (r: bool)
    ensures r <==> ContainsSub(Lower(ask(keyword, resumeText)), "yes")
  {
    IsYes(ask(keyword, resumeText))
  }

  /** An answer that merely contains "yes" inside a longer word still counts as a match. */
  lemma YesterdayIsYes()
    ensures IsYes("Yesterday")
  {
    var l := Lower("Yesterday");
    assert l[0..3] == "yes";
    assert OccursAt(l, "yes", 0);
  }

  /** A plain "NO" is not a match. */
  lemma NoIsNotYes()
    ensures !IsYes("NO")
  {
    assert Lower("NO") == "no";
    assert forall p: nat :: !OccursAt("no", "yes", p);
  }

  /**
   * A response without the expected JSON shape (an HTTP error status with a
   * body, say) becomes the answer "Error: " followed by the response body; a
   * body containing "yes" in any case turns it into a match.
   */
  lemma ErrorAnswerMatches(body: string)
    requires ContainsSub(Lower(body), "yes")
    ensures IsYes("Error: " + body)
  {
    var p :| 0 <= p <= |Lower(body)| && OccursAt(Lower(body), "yes", p);
    LowerAppend("Error: ", body);
    var l := Lower("Error: " + body);
    assert l == Lower("Error: ") + Lower(body);
    assert |Lower("Error: ")| == 7;
    var u, v := l[7 + p..7 + p + 3], Lower(body)[p..p + 3];
    assert forall k | 0 <= k < 3 :: u[k] == v[k];
    assert OccursAt(l, "yes", 7 + p);
  }

  // ---------------------------------------------------------------- partition

  /** The keywords of `ks` that the oracle accepts, in the order of `ks`. */
  function Matched(ks: seq<string>, resumeText: string, ask: MatchOracle): seq<string>
    decreases |ks|
  {
    if ks == [] then []
    else
      var init := Matched(ks[..|ks| - 1], resumeText, ask);
      if AiSemanticMatch(ks[|ks| - 1], resumeText, ask) then init + [ks[|ks| - 1]] else init
  }

  /** The keywords of `ks` that the oracle rejects, in the order of `ks`. */
  function Missing(ks: seq<string>, resumeText: string, ask: MatchOracle): seq<string>
    decreases |ks|
  {
    if ks == [] then []
    else
      var init := Missing(ks[..|ks| - 1], resumeText, ask);
      if AiSemanticMatch(ks[|ks| - 1], resumeText, ask) then init else init + [ks[|ks| - 1]]
  }

  /** Every keyword goes to exactly one of the two lists: the lists together are a rearrangement of the input. */
  lemma {:induction false} PartitionMultiset(ks: seq<string>, resumeText: string, ask: MatchOracle)
    ensures multiset(Matched(ks, resumeText, ask)) + multiset(Missing(ks, resumeText, ask)) == multiset(ks)
    ensures |Matched(ks, resumeText, ask)| + |Missing(ks, resumeText, ask)| == |ks|
    decreases |ks|
  {
    if ks != [] {
      var init := ks[..|ks| - 1];
      PartitionMultiset(init, resumeText, ask);
      assert ks == init + [ks[|ks| - 1]];
    }
  }

  /** Every matched keyword is accepted by the oracle and every missing keyword is rejected. */
  lemma {:induction false} PartitionSound(ks: seq<string>, resumeText: string, ask: MatchOracle)
    ensures forall x | x in Matched(ks, resumeText, ask) :: AiSemanticMatch(x, resumeText, ask)
    ensures forall x | x in Missing(ks, resumeText, ask) :: !AiSemanticMatch(x, resumeText, ask)
    decreases |ks|
  {
    if ks != [] {
      PartitionSound(ks[..|ks| - 1], resumeText, ask);
    }
  }

  /** An input keyword lands in `matched` if the oracle accepts it and in `missing` otherwise. */
  lemma {:induction false} PartitionComplete(ks: seq<string>, resumeText: string, ask: MatchOracle, x: string)
    requires x in ks
    ensures AiSemanticMatch(x, resumeText, ask) ==> x in Matched(ks, resumeText, ask)
    ensures !AiSemanticMatch(x, resumeText, ask) ==> x in Missing(ks, resumeText, ask)
    decreases |ks|
  {
    var init := ks[..|ks| - 1];
    if x != ks[|ks| - 1] {
      assert ks == init + [ks[|ks| - 1]];
      assert x in init;
      PartitionComplete(init, resumeText, ask, x);
    }
  }

  /**
   * Each input keyword appears in exactly one of the two lists, the lists
   * share no keyword, and together they hold every input keyword.
   */
  lemma ExactlyOneList(ks: seq<string>, resumeText: string, ask: MatchOracle)
    ensures forall x | x in ks :: (x in Matched(ks, resumeText, ask)) != (x in Missing(ks, resumeText, ask))
    ensures forall x | x in Matched(ks, resumeText, ask) :: x !in Missing(ks, resumeText, ask)
    ensures forall x :: x in ks <==> x in Matched(ks, resumeText, ask) || x in Missing(ks, resumeText, ask)
  {
    PartitionSound(ks, resumeText, ask);
    PartitionMultiset(ks, resumeText, ask);
    forall x | x in ks
      ensures (x in Matched(ks, resumeText, ask)) != (x in Missing(ks, resumeText, ask))
    {
      PartitionComplete(ks, resumeText, ask, x);
    }
    forall x | x in Matched(ks, resumeText, ask) || x in Missing(ks, resumeText, ask)
      ensures x in ks
    {
      if x in Matched(ks, resumeText, ask) {
        assert x in multiset(Matched(ks, resumeText, ask));
      } else {
        assert x in multiset(Missing(ks, resumeText, ask));
      }
      assert x in multiset(ks);
    }
  }

  /** Walking a prefix of the keywords yields a prefix of each list: both lists keep the input order. */
  lemma {:induction false} PartitionPrefix(ks: seq<string>, i: nat, resumeText: string, ask: MatchOracle)
    requires i <= |ks|
    ensures Matched(ks[..i], resumeText, ask) <= Matched(ks, resumeText, ask)
    ensures Missing(ks[..i], resumeText, ask) <= Missing(ks, resumeText, ask)
    decreases |ks|
  {
    if i < |ks| {
      var init := ks[..|ks| - 1];
      PartitionPrefix(init, i, resumeText, ask);
      assert init[..i] == ks[..i];
    } else {
      assert ks[..i] == ks;
    }
  }

  /**
   * The accepted keyword at input position `i` sits in `matched` right after
   * the keywords accepted before it; with `PartitionPrefix` this says that
   * accepted keywords keep their relative order.
   */
  lemma MatchedPosition(ks: seq<string>, i: nat, resumeText: string, ask: MatchOracle)
    requires i < |ks| && AiSemanticMatch(ks[i], resumeText, ask)
    ensures var before := Matched(ks[..i], resumeText, ask);
      |before| < |Matched(ks, resumeText, ask)| && Matched(ks, resumeText, ask)[|before|] == ks[i]
  {
    var before := Matched(ks[..i], resumeText, ask);
    assert ks[..i + 1][..i] == ks[..i];
    assert Matched(ks[..i + 1], resumeText, ask) == before + [ks[i]];
    PartitionPrefix(ks, i + 1, resumeText, ask);
  }

  // ---------------------------------------------------------------- percentage

  /**
   * `round(matched / total * 100, 2)` in hundredths of a percent: the
   * integer nearest to 10000 * matched / total, ties going to the even
   * neighbour as Python's `round` does on an exact value.
   */
  function PercentHundredths(matched: nat, total: nat): (h: nat)
    requires total > 0
    ensures -(total as int) <= 2 * (h * total - 10000 * matched) <= total
    ensures 2 * (h * total - 10000 * matched) == total ==> h % 2 == 0
    ensures 2 * (h * total - 10000 * matched) == -(total as int) ==> h % 2 == 0
  {
    var q := 10000 * matched / total;
    var rem := 10000 * matched % total;
    assert q * total + rem == 10000 * matched;
    MulSucc(q, total);
    if 2 * rem < total then q
    else if 2 * rem > total then q + 1
    else if q % 2 == 0 then q
    else q + 1
  }

  /** Multiples of a positive step are at least one or two steps away from zero. */
  lemma MulSteps(a: int, t: nat)
    ensures a >= 1 ==> a * t >= t
    ensures a >= 2 ==> a * t >= 2 * t
    ensures a <= -1 ==> a * t <= -(t as int)
    ensures a <= -2 ==> a * t <= -2 * t
  {
    if a >= 1 {
      assert a * t == (a - 1) * t + t;
    }
    if a >= 2 {
      assert a * t == (a - 2) * t + 2 * t;
    }
    if a <= -1 {
      assert a * t == (a + 1) * t - t;
    }
    if a <= -2 {
      assert a * t == (a + 2) * t - 2 * t;
    }
  }

  /** The contract of `PercentHundredths` determines its value: no other hundredths value rounds the same way. */
  lemma PercentUnique(matched: nat, total: nat, h: nat)
    requires total > 0
    requires -(total as int) <= 2 * (h * total - 10000 * matched) <= total
    requires 2 * (h * total - 10000 * matched) == total ==> h % 2 == 0
    requires 2 * (h * total - 10000 * matched) == -(total as int) ==> h % 2 == 0
    ensures h == PercentHundredths(matched, total)
  {
    var g := PercentHundredths(matched, total);
    var eh, eg := h * total - 10000 * matched, g * total - 10000 * matched;
    var d: int := h - g;
    MulSubDistrib(h, g, total);
    MulSteps(d, total);
    NearestUnique(total, eh, eg, d * total, h, g);
  }

  lemma MulSucc(a: int, t: int)
    ensures (a + 1) * t == a * t + t
  {
  }

  lemma MulSubDistrib(a: int, b: int, t: int)
    ensures a * t - b * t == (a - b) * t
  {
  }

  /**
   * Two integers `h` and `g` whose doubled rounding errors `2 * eh` and
   * `2 * eg` both lie in [-t, t] are one and the same, provided an error of
   * exactly half a step goes with an even value and the errors differ by a
   * multiple `prod` of the step `t`.
   */
  lemma NearestUnique(t: int, eh: int, eg: int, prod: int, h: int, g: int)
    requires t > 0 && prod == eh - eg
    requires -t <= 2 * eh <= t && -t <= 2 * eg <= t
    requires (2 * eh == t || 2 * eh == -t) ==> h % 2 == 0
    requires (2 * eg == t || 2 * eg == -t) ==> g % 2 == 0
    requires h - g >= 1 ==> prod >= t
    requires h - g >= 2 ==> prod >= 2 * t
    requires h - g <= -1 ==> prod <= -t
    requires h - g <= -2 ==> prod <= -2 * t
    ensures h == g
  {
  }

  /** The percentage lies between 0 % and 100 %, with both ends reached exactly. */
  lemma PercentBounds(matched: nat, total: nat)
    requires total > 0 && matched <= total
    ensures PercentHundredths(matched, total) <= 10000
    ensures matched == 0 ==> PercentHundredths(matched, total) == 0
    ensures matched == total ==> PercentHundredths(matched, total) == 10000
  {
    if matched == 0 {
      PercentUnique(matched, total, 0);
    }
    if matched == total {
      PercentUnique(matched, total, 10000);
    }
    var h := PercentHundredths(matched, total);
    var over := h as int - 10000;
    var err := h * total - 10000 * matched;
    MulSubDistrib(h, 10000, total);
    MulSteps(over, total);
    AtMostFull(total, matched, err, over * total, over);
  }

  /** The linear core of `PercentBounds`. */
  lemma AtMostFull(t: int, m: int, err: int, prod: int, over: int)
    requires 0 < t && 0 <= m <= t && 2 * err <= t
    requires prod == err + 10000 * m - 10000 * t
    requires over >= 1 ==> prod >= t
    ensures over <= 0
  {
  }

  /** Two keywords matched out of three give 66.67 %. */
  lemma TwoOfThree()
    ensures PercentHundredths(2, 3) == 6667
  {
    PercentUnique(2, 3, 6667);
  }

  /** The match score of `calculate_semantic_match`: 0 for an empty keyword collection. */
  function Score(matched: nat, total: nat): (h: nat)
    ensures total == 0 ==> h == 0
    ensures matched <= total ==> h <= 10000
  {
    if total == 0 then 0
    else
      PercentBounds(if matched <= total then matched else 0, total);
      PercentHundredths(matched, total)
  }

  // ---------------------------------------------------------------- the loop

  /**
   * `calculate_semantic_match(resume_text, jd_keywords)`: asks the oracle
   * about each keyword in turn, appends it to `matched` or `missing`, and
   * scores the share of matched keywords in hundredths of a percent.
   * `jdKeywords` is the keyword set in its iteration order.
   */
  method CalculateSemanticMatch(resumeText: string, jdKeywords: seq<string>, ask: MatchOracle)
    returns (percentage: nat, matched: seq<string>, missing: seq<string>)
    ensures matched == Matched(jdKeywords, resumeText, ask)
    ensures missing == Missing(jdKeywords, resumeText, ask)
    ensures |matched| + |missing| == |jdKeywords|
    ensures percentage == Score(|matched|, |jdKeywords|) && percentage <= 10000
  {
    matched, missing := [], [];
    for i := 0 to |jdKeywords|
      invariant matched == Matched(jdKeywords[..i], resumeText, ask)
      invariant missing == Missing(jdKeywords[..i], resumeText, ask)
      invariant |matched| + |missing| == i
    {
      var kw := jdKeywords[i];
      assert jdKeywords[..i + 1][..i] == jdKeywords[..i];
      if AiSemanticMatch(kw, resumeText, ask) {
        matched := matched + [kw];
      } else {
        missing := missing + [kw];
      }
    }
    assert jdKeywords[..|jdKeywords|] == jdKeywords;
    var total := |jdKeywords|;
    percentage := if total > 0 then PercentHundredths(|matched|, total) else 0;
    assert percentage == Score(|matched|, total);
  }
}
