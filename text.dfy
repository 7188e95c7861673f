/**
 * The Python string operations the post-processing in app.py is built
 * from: `str.lower()` (over ASCII), `str.strip()` with and without an
 * argument, `str.split` / `re.split` on single-character separators,
 * `str.join`, and the substring test `t in s`.
 */
module Text {

  /** The characters Python's `str.isspace()` accepts: what `str.strip()` with no argument removes. */
  const Whitespace: set<char> := {
    ' ', '\t', '\n', '\r', '\U{0B}', '\U{0C}', '\U{1C}', '\U{1D}', '\U{1E}', '\U{1F}',
    '\U{85}', '\U{A0}', '\U{1680}', '\U{2000}', '\U{2001}', '\U{2002}', '\U{2003}',
    '\U{2004}', '\U{2005}', '\U{2006}', '\U{2007}', '\U{2008}', '\U{2009}', '\U{200A}',
    '\U{2028}', '\U{2029}', '\U{202F}', '\U{205F}', '\U{3000}'
  }

  // ---------------------------------------------------------------- lower()

  function LowerChar(c: char): char {
    if 'A' <= c <= 'Z' then (c as int + 32) as char else c
  }

  /** `s.lower()`, restricted to ASCII letters. */
  function Lower(s: string): string {
    seq(|s|, i requires 0 <= i < |s| => LowerChar(s[i]))
  }

  predicate IsLower(s: string) {
    forall i | 0 <= i < |s| :: !('A' <= s[i] <= 'Z')
  }

  lemma LowerIsLower(s: string)
    ensures IsLower(Lower(s))
  {
  }

  lemma LowerOfLower(s: string)
    requires IsLower(s)
    ensures Lower(s) == s
  {
  }

  lemma LowerSlice(s: string, i: nat, j: nat)
    requires i <= j <= |s|
    ensures Lower(s[i..j]) == Lower(s)[i..j]
  {
  }

  lemma IsLowerSlice(s: string, i: int, j: int)
    requires 0 <= i <= j <= |s| && IsLower(s)
    ensures IsLower(s[i..j])
  {
    assert forall k | 0 <= k < j - i :: s[i..j][k] == s[i + k];
  }

  lemma LowerAppend(a: string, b: string)
    ensures Lower(a + b) == Lower(a) + Lower(b)
  {
  }

  /** Lower-casing maps whitespace to whitespace and nothing else to whitespace. */
  lemma LowerKeepsWhitespace(c: char)
    ensures LowerChar(c) in Whitespace <==> c in Whitespace
  {
  }

  // ---------------------------------------------------------------- strip()

  /** `s.lstrip(chars)`. */
  function TrimLeft(s: string, cs: set<char>): string
    decreases |s|
  {
    if |s| > 0 && s[0] in cs then TrimLeft(s[1..], cs) else s
  }

  /** `s.rstrip(chars)`. */
  function TrimRight(s: string, cs: set<char>): string
    decreases |s|
  {
    if |s| > 0 && s[|s| - 1] in cs then TrimRight(s[..|s| - 1], cs) else s
  }

  /** `lstrip` drops the longest prefix made of characters of `cs`, and nothing else. */
  lemma {:induction false} TrimLeftSpec(s: string, cs: set<char>)
    ensures |TrimLeft(s, cs)| <= |s| && TrimLeft(s, cs) == s[|s| - |TrimLeft(s, cs)|..]
    ensures forall k | 0 <= k < |s| - |TrimLeft(s, cs)| :: s[k] in cs
    ensures TrimLeft(s, cs) == [] || TrimLeft(s, cs)[0] !in cs
    decreases |s|
  {
    if |s| > 0 && s[0] in cs {
      TrimLeftSpec(s[1..], cs);
      assert forall k | 1 <= k < |s| :: s[k] == s[1..][k - 1];
    }
  }

  /** `rstrip` drops the longest suffix made of characters of `cs`, and nothing else. */
  lemma {:induction false} TrimRightSpec(s: string, cs: set<char>)
    ensures |TrimRight(s, cs)| <= |s| && TrimRight(s, cs) == s[..|TrimRight(s, cs)|]
    ensures forall k | |TrimRight(s, cs)| <= k < |s| :: s[k] in cs
    ensures TrimRight(s, cs) == [] || TrimRight(s, cs)[|TrimRight(s, cs)| - 1] !in cs
    decreases |s|
  {
    if |s| > 0 && s[|s| - 1] in cs {
      TrimRightSpec(s[..|s| - 1], cs);
      assert forall k | 0 <= k < |s| - 1 :: s[k] == s[..|s| - 1][k];
    }
  }

  /** Every character of `s` lies in `cs`. */
  predicate AllIn(s: string, cs: set<char>) {
    forall k | 0 <= k < |s| :: s[k] in cs
  }

  /** No character of `s` lies in `cs`. */
  predicate NoneIn(s: string, cs: set<char>) {
    forall k | 0 <= k < |s| :: s[k] !in cs
  }

  /** Neither end character of `r` lies in `cs`. */
  predicate NoEdgeIn(r: string, cs: set<char>) {
    r == [] || (r[0] !in cs && r[|r| - 1] !in cs)
  }

  /** `r == s[i..j]`, everything outside that slice is in `cs`, and `r` has no end character in `cs`. */
  ghost predicate StripAt(s: string, r: string, cs: set<char>, i: int, j: int) {
    && 0 <= i <= j <= |s|
    && r == s[i..j]
    && AllIn(s[..i], cs)
    && AllIn(s[j..], cs)
    && NoEdgeIn(r, cs)
  }

  /**
   * `r` is what remains of `s` after removing characters of `cs` from both
   * ends: a slice of `s` whose outside lies entirely in `cs` and whose two
   * end characters (if any) do not.
   */
  ghost predicate IsStripOf(s: string, r: string, cs: set<char>) {
    exists i, j :: StripAt(s, r, cs, i, j)
  }

  /** `s.strip(chars)`. */
  function StripChars(s: string, cs: set<char>): string {
    TrimRight(TrimLeft(s, cs), cs)
  }

  /** `strip` removes exactly the characters of `cs` at both ends. */
  lemma StripCharsSpec(s: string, cs: set<char>)
    ensures IsStripOf(s, StripChars(s, cs), cs)
  {
    var t := TrimLeft(s, cs);
    var r := TrimRight(t, cs);
    var i := |s| - |TrimLeft(s, cs)|;
    assert 0 <= i <= |s| && t == s[i..] && AllIn(s[..i], cs) && (t == [] || t[0] !in cs) by {
      TrimLeftSpec(s, cs);
      forall k | 0 <= k < i
        ensures s[..i][k] in cs
      {
        assert s[..i][k] == s[k];
      }
    }
    assert |r| <= |t| && r == t[..|r|] && AllIn(t[|r|..], cs) && (r == [] || r[|r| - 1] !in cs) by {
      TrimRightSpec(t, cs);
      forall k | 0 <= k < |t| - |r|
        ensures t[|r|..][k] in cs
      {
        assert t[|r|..][k] == t[|r| + k];
      }
    }
    StripAtCompose(s, t, r, cs, i);
  }

  /** Stripping the left end and then the right end leaves a slice that satisfies the strip description. */
  lemma StripAtCompose(s: string, t: string, r: string, cs: set<char>, i: int)
    requires 0 <= i <= |s| && t == s[i..] && AllIn(s[..i], cs) && (t == [] || t[0] !in cs)
    requires |r| <= |t| && r == t[..|r|] && AllIn(t[|r|..], cs) && (r == [] || r[|r| - 1] !in cs)
    ensures StripAt(s, r, cs, i, i + |r|)
  {
    var j := i + |r|;
    assert r == s[i..j];
    assert s[j..] == t[|r|..];
    assert r != [] ==> r[0] == t[0];
  }

  /** `s.strip()`. */
  function Strip(s: string): string {
    StripChars(s, Whitespace)
  }

  /** Two slices of `s` with everything outside in `cs` and no end character in `cs` have the same bounds, or are both empty. */
  lemma StripBoundsAgree(s: string, cs: set<char>, i1: int, j1: int, i2: int, j2: int)
    requires 0 <= i1 <= j1 <= |s| && 0 <= i2 <= j2 <= |s|
    requires forall k | 0 <= k < i1 :: s[k] in cs
    requires forall k | 0 <= k < i2 :: s[k] in cs
    requires forall k | j1 <= k < |s| :: s[k] in cs
    requires forall k | j2 <= k < |s| :: s[k] in cs
    requires i1 < j1 ==> s[i1] !in cs && s[j1 - 1] !in cs
    requires i2 < j2 ==> s[i2] !in cs && s[j2 - 1] !in cs
    ensures (i1 == i2 && j1 == j2) || (i1 == j1 && i2 == j2)
  {
    if i1 == j1 {
      assert forall k | 0 <= k < |s| :: s[k] in cs;
    }
    if i2 == j2 {
      assert forall k | 0 <= k < |s| :: s[k] in cs;
    }
  }

  /** The characters before `i` and from `j` on, as facts about `s` itself. */
  lemma OutsideChars(s: string, cs: set<char>, i: int, j: int)
    requires 0 <= i <= j <= |s| && AllIn(s[..i], cs) && AllIn(s[j..], cs)
    ensures forall k | 0 <= k < i :: s[k] in cs
    ensures forall k | j <= k < |s| :: s[k] in cs
  {
    forall k | 0 <= k < i
      ensures s[k] in cs
    {
      assert s[..i][k] == s[k];
    }
    forall k | j <= k < |s|
      ensures s[k] in cs
    {
      assert s[j..][k - j] == s[k];
    }
  }

  /** `strip` has one result: the description `IsStripOf` determines it. */
  lemma StripUnique(s: string, r1: string, r2: string, cs: set<char>)
    requires IsStripOf(s, r1, cs) && IsStripOf(s, r2, cs)
    ensures r1 == r2
  {
    var i1, j1 :| StripAt(s, r1, cs, i1, j1);
    var i2, j2 :| StripAt(s, r2, cs, i2, j2);
    OutsideChars(s, cs, i1, j1);
    OutsideChars(s, cs, i2, j2);
    assert i1 < j1 ==> s[i1] == r1[0] && s[j1 - 1] == r1[|r1| - 1];
    assert i2 < j2 ==> s[i2] == r2[0] && s[j2 - 1] == r2[|r2| - 1];
    StripBoundsAgree(s, cs, i1, j1, i2, j2);
    assert |r1| == j1 - i1 && |r2| == j2 - i2;
  }

  /** A slice that satisfies the strip description is the result of `strip`. */
  lemma StripByWitness(s: string, r: string, cs: set<char>, i: int, j: int)
    requires StripAt(s, r, cs, i, j)
    ensures StripChars(s, cs) == r
  {
    StripCharsSpec(s, cs);
    StripUnique(s, r, StripChars(s, cs), cs);
  }

  /** A string without end characters in `cs` is its own strip. */
  lemma StripCharsOfStripped(s: string, cs: set<char>)
    requires NoEdgeIn(s, cs)
    ensures StripChars(s, cs) == s
  {
    StripCharsSpec(s, cs);
    assert StripAt(s, s, cs, 0, |s|);
    StripUnique(s, s, StripChars(s, cs), cs);
  }

  /** Stripping twice removes nothing more. */
  lemma StripCharsIdempotent(s: string, cs: set<char>)
    ensures StripChars(StripChars(s, cs), cs) == StripChars(s, cs)
  {
    var r := StripChars(s, cs);
    StripCharsSpec(s, cs);
    var i, j :| StripAt(s, r, cs, i, j);
    StripCharsOfStripped(r, cs);
  }

  /** The strip is empty exactly when every character lies in `cs`. */
  lemma StripCharsEmpty(s: string, cs: set<char>)
    ensures StripChars(s, cs) == [] <==> AllIn(s, cs)
  {
    var t := TrimLeft(s, cs);
    TrimLeftSpec(s, cs);
    TrimRightSpec(t, cs);
    if t != [] {
      assert t[0] == s[|s| - |t|];
    }
  }

  /** Lower-casing and stripping whitespace commute (lower-casing is ASCII only). */
  lemma StripLowerCommute(s: string)
    ensures Strip(Lower(s)) == Lower(Strip(s))
  {
    var r := Strip(s);
    StripCharsSpec(s, Whitespace);
    var i, j :| StripAt(s, r, Whitespace, i, j);
    var ls, lr := Lower(s), Lower(r);
    assert lr == ls[i..j] by {
      LowerSlice(s, i, j);
    }
    assert AllIn(ls[..i], Whitespace) by {
      LowerSlice(s, 0, i);
      assert s[..i] == s[0..i] && ls[..i] == ls[0..i];
      LowerAllIn(s[..i]);
    }
    assert AllIn(ls[j..], Whitespace) by {
      LowerSlice(s, j, |s|);
      assert s[j..] == s[j..|s|] && ls[j..] == ls[j..|s|];
      LowerAllIn(s[j..]);
    }
    assert NoEdgeIn(lr, Whitespace) by {
      if r != [] {
        LowerKeepsWhitespace(r[0]);
        LowerKeepsWhitespace(r[|r| - 1]);
        assert lr[0] == LowerChar(r[0]) && lr[|lr| - 1] == LowerChar(r[|r| - 1]);
      }
    }
    StripByWitness(ls, lr, Whitespace, i, j);
  }

  lemma LowerAllIn(s: string)
    ensures AllIn(Lower(s), Whitespace) <==> AllIn(s, Whitespace)
  {
    forall k | 0 <= k < |s| ensures Lower(s)[k] in Whitespace <==> s[k] in Whitespace {
      LowerKeepsWhitespace(s[k]);
    }
  }

  lemma AllInAppend(a: string, b: string, cs: set<char>)
    requires AllIn(a, cs) && AllIn(b, cs)
    ensures AllIn(a + b, cs)
  {
    var s := a + b;
    forall k | 0 <= k < |s| ensures s[k] in cs {
      if k >= |a| { assert s[k] == b[k - |a|]; }
    }
  }

  lemma Regroup(a: string, b: string, c: string, d: string, e: string)
    ensures a + (b + c + d) + e == (a + b) + c + (d + e)
  {
  }

  lemma ConcatSlices(a: string, b: string, c: string)
    ensures (a + b + c)[..|a|] == a
    ensures (a + b + c)[|a|..|a| + |b|] == b
    ensures (a + b + c)[|a| + |b|..] == c
  {
  }

  /** Padding made only of characters of `cs` does not change the strip. */
  lemma StripCharsPadding(pre: string, x: string, post: string, cs: set<char>)
    requires AllIn(pre, cs) && AllIn(post, cs)
    ensures StripChars(pre + x + post, cs) == StripChars(x, cs)
  {
    var r := StripChars(x, cs);
    StripCharsSpec(x, cs);
    StripCharsSpec(pre + x + post, cs);
    var i, j :| StripAt(x, r, cs, i, j);
    StripAtPadding(pre, x, post, r, cs, i, j);
    StripUnique(pre + x + post, r, StripChars(pre + x + post, cs), cs);
  }

  lemma StripAtPadding(pre: string, x: string, post: string, r: string, cs: set<char>, i: int, j: int)
    requires AllIn(pre, cs) && AllIn(post, cs) && StripAt(x, r, cs, i, j)
    ensures StripAt(pre + x + post, r, cs, |pre| + i, |pre| + j)
  {
    var xb, xa := x[..i], x[j..];
    assert x == xb + r + xa;
    var left, right := pre + xb, xa + post;
    Regroup(pre, xb, r, xa, post);
    ConcatSlices(left, r, right);
    AllInAppend(pre, xb, cs);
    AllInAppend(xa, post, cs);
  }

  // ---------------------------------------------------------------- `t in s`

  predicate OccursAt(s: string, t: string, i: nat) {
    i + |t| <= |s| && s[i..i + |t|] == t
  }

  /** Python's substring test `t in s`. */
  predicate ContainsSub(s: string, t: string) {
    exists i | 0 <= i <= |s| :: OccursAt(s, t, i)
  }

  /** An occurrence inside a slice is an occurrence in the whole string. */
  lemma ContainsSubOfSlice(s: string, t: string, i: nat, j: nat)
    requires i <= j <= |s| && ContainsSub(s[i..j], t)
    ensures ContainsSub(s, t)
  {
    var p :| 0 <= p <= j - i && OccursAt(s[i..j], t, p);
    var u, v := s[i + p..i + p + |t|], s[i..j][p..p + |t|];
    forall k | 0 <= k < |t|
      ensures u[k] == v[k]
    {
      assert u[k] == s[i + p + k];
      assert v[k] == s[i..j][p + k];
    }
    assert u == v;
    assert OccursAt(s, t, i + p);
  }

  /** An occurrence in `x` of a pattern that starts and ends outside `cs` lies inside the stripped slice. */
  lemma OccursInStripped(x: string, r: string, t: string, cs: set<char>, i: int, j: int, p: nat)
    requires StripAt(x, r, cs, i, j) && t != [] && t[0] !in cs && t[|t| - 1] !in cs
    requires OccursAt(x, t, p)
    ensures ContainsSub(r, t)
  {
    var last := p + |t| - 1;
    assert x[p] == t[0] && x[last] == t[|t| - 1];
    forall k | 0 <= k < i
      ensures x[k] in cs
    {
      assert x[..i][k] == x[k];
    }
    forall k | j <= k < |x|
      ensures x[k] in cs
    {
      assert x[j..][k - j] == x[k];
    }
    assert i <= p && last < j;
    var u, v := r[p - i..p - i + |t|], x[p..p + |t|];
    assert forall k | 0 <= k < |t| :: u[k] == v[k];
    assert OccursAt(r, t, p - i);
  }

  /**
   * Stripping characters of `cs` from both ends never creates or destroys an
   * occurrence of a pattern whose first and last characters are outside `cs`.
   */
  lemma ContainsSubStrip(x: string, t: string, cs: set<char>)
    requires t != [] && t[0] !in cs && t[|t| - 1] !in cs
    ensures ContainsSub(StripChars(x, cs), t) <==> ContainsSub(x, t)
  {
    var r := StripChars(x, cs);
    StripCharsSpec(x, cs);
    var i, j :| StripAt(x, r, cs, i, j);
    if ContainsSub(r, t) {
      ContainsSubOfSlice(x, t, i, j);
    }
    if ContainsSub(x, t) {
      var p :| 0 <= p <= |x| && OccursAt(x, t, p);
      OccursInStripped(x, r, t, cs, i, j, p);
    }
  }

  // ---------------------------------------------------------------- split()

  /**
   * Splitting on every character of `seps`, as `s.split("\n")` does for one
   * separator and `re.split(r",|\n", s)` for two: maximal separator-free
   * segments, with empty segments kept, and `[""]` for the empty string.
   */
  function SplitOn(s: string, seps: set<char>): (r: seq<string>)
    ensures |r| >= 1
    decreases |s|
  {
    if s == [] then [[]]
    else
      var rest := SplitOn(s[1..], seps);
      if s[0] in seps then [[]] + rest
      else [[s[0]] + rest[0]] + rest[1..]
  }

  /** One step of `SplitOn`, for a string given as its first character and the rest. */
  lemma SplitOnCons(c: char, s: string, seps: set<char>)
    ensures c in seps ==> SplitOn([c] + s, seps) == [[]] + SplitOn(s, seps)
    ensures c !in seps ==> SplitOn([c] + s, seps) == [[c] + SplitOn(s, seps)[0]] + SplitOn(s, seps)[1..]
  {
    assert ([c] + s)[0] == c && ([c] + s)[1..] == s;
  }

  /** No segment contains a separator. */
  lemma {:induction false} SegmentsHaveNoSeparator(s: string, seps: set<char>)
    ensures forall k | 0 <= k < |SplitOn(s, seps)| :: NoneIn(SplitOn(s, seps)[k], seps)
    decreases |s|
  {
    if s != [] {
      SegmentsHaveNoSeparator(s[1..], seps);
      var rest := SplitOn(s[1..], seps);
      var r := SplitOn(s, seps);
      if s[0] in seps {
        assert forall k | 1 <= k < |r| :: r[k] == rest[k - 1];
      } else {
        var first := [s[0]] + rest[0];
        assert forall i | 1 <= i < |first| :: first[i] == rest[0][i - 1];
        assert forall k | 1 <= k < |r| :: r[k] == rest[k];
      }
    }
  }

  /** The separator characters of `s`, in order. */
  function Separators(s: string, seps: set<char>): (r: string)
    decreases |s|
  {
    if s == [] then []
    else (if s[0] in seps then [s[0]] else []) + Separators(s[1..], seps)
  }

  /** `segs[0] + between[0] + segs[1] + ... + segs[n]`. */
  function Interleave(segs: seq<string>, between: string): string
    requires |segs| == |between| + 1
    decreases |between|
  {
    if between == [] then segs[0]
    else segs[0] + [between[0]] + Interleave(segs[1..], between[1..])
  }

  /**
   * Splitting loses nothing: putting the separators back between the
   * segments gives the original string, and there is one segment more than
   * there are separators.
   */
  lemma {:induction false} SplitOnRoundTrip(s: string, seps: set<char>)
    ensures |SplitOn(s, seps)| == |Separators(s, seps)| + 1
    ensures Interleave(SplitOn(s, seps), Separators(s, seps)) == s
    decreases |s|
  {
    if s != [] {
      SplitOnRoundTrip(s[1..], seps);
      var rest := SplitOn(s[1..], seps);
      var between := Separators(s[1..], seps);
      if s[0] in seps {
        assert Separators(s, seps) == [s[0]] + between;
        assert Interleave(SplitOn(s, seps), Separators(s, seps))
            == [] + [s[0]] + Interleave(rest, between);
      } else {
        assert Separators(s, seps) == between;
        if between == [] {
          assert Interleave(SplitOn(s, seps), Separators(s, seps)) == [s[0]] + rest[0];
        } else {
          assert Interleave(rest, between) == rest[0] + [between[0]] + Interleave(rest[1..], between[1..]);
          assert SplitOn(s, seps)[1..] == rest[1..];
        }
      }
    }
  }

  /** A string without separators is a single segment. */
  lemma {:induction false} SplitOnNoSeparator(s: string, seps: set<char>)
    requires NoneIn(s, seps)
    ensures SplitOn(s, seps) == [s]
    decreases |s|
  {
    if s != [] {
      SplitOnNoSeparator(s[1..], seps);
      assert [s[0]] + s[1..] == s;
    }
  }

  /** Splitting at a separator splits the two sides independently. */
  lemma {:induction false} SplitOnAppend(a: string, c: char, b: string, seps: set<char>)
    requires c in seps
    ensures SplitOn(a + [c] + b, seps) == SplitOn(a, seps) + SplitOn(b, seps)
    decreases |a|
  {
    var s := a + [c] + b;
    if a == [] {
      assert s[1..] == b;
    } else {
      assert s[1..] == a[1..] + [c] + b;
      SplitOnAppend(a[1..], c, b, seps);
    }
  }

  lemma AllInCons(c: char, s: string, cs: set<char>)
    ensures AllIn([c] + s, cs) <==> c in cs && AllIn(s, cs)
  {
    var t := [c] + s;
    if AllIn(t, cs) {
      assert t[0] == c;
      forall k | 0 <= k < |s| ensures s[k] in cs {
        assert s[k] == t[k + 1];
      }
    }
    if c in cs && AllIn(s, cs) {
      forall k | 0 <= k < |t| ensures t[k] in cs {
        if k > 0 { assert t[k] == s[k - 1]; }
      }
    }
  }

  /** Every segment in `segs` consists of characters of `cs`. */
  predicate AllSegmentsAllIn(segs: seq<string>, cs: set<char>) {
    forall k | 0 <= k < |segs| :: AllIn(segs[k], cs)
  }

  lemma AllSegmentsCons(x: string, xs: seq<string>, cs: set<char>)
    ensures AllSegmentsAllIn([x] + xs, cs) <==> AllIn(x, cs) && AllSegmentsAllIn(xs, cs)
  {
    var t := [x] + xs;
    assert t[0] == x;
    assert forall k | 0 <= k < |xs| :: t[k + 1] == xs[k];
    if AllIn(x, cs) && AllSegmentsAllIn(xs, cs) {
      forall k | 0 <= k < |t|
        ensures AllIn(t[k], cs)
      {
        if k > 0 {
          assert t[k] == xs[k - 1];
        }
      }
    }
  }

  /**
   * Every segment consists of characters of `cs` exactly when every
   * character of the whole string is in `cs` or is a separator.
   */
  lemma {:induction false} AllSegmentsIn(s: string, cs: set<char>, seps: set<char>)
    ensures AllSegmentsAllIn(SplitOn(s, seps), cs) <==> AllIn(s, cs + seps)
    decreases |s|
  {
    if s != [] {
      var rest := SplitOn(s[1..], seps);
      AllSegmentsIn(s[1..], cs, seps);
      assert s == [s[0]] + s[1..];
      AllInCons(s[0], s[1..], cs + seps);
      if s[0] in seps {
        assert SplitOn(s, seps) == [[]] + rest;
        AllSegmentsCons([], rest, cs);
      } else {
        var x := [s[0]] + rest[0];
        assert SplitOn(s, seps) == [x] + rest[1..];
        assert rest == [rest[0]] + rest[1..];
        AllSegmentsCons(x, rest[1..], cs);
        AllSegmentsCons(rest[0], rest[1..], cs);
        AllInCons(s[0], rest[0], cs);
      }
    }
  }

  // ---------------------------------------------------------------- join()

  /** `sep.join(xs)`. */
  function Join(xs: seq<string>, sep: string): string
    decreases |xs|
  {
    if xs == [] then []
    else if |xs| == 1 then xs[0]
    else xs[0] + sep + Join(xs[1..], sep)
  }

  /** Prepending to the first item prepends to the joined string. */
  lemma JoinPrepend(pre: string, xs: seq<string>, sep: string)
    requires |xs| >= 1
    ensures Join([pre + xs[0]] + xs[1..], sep) == pre + Join(xs, sep)
  {
    var ys := [pre + xs[0]] + xs[1..];
    assert ys[0] == pre + xs[0] && ys[1..] == xs[1..];
    if |xs| > 1 {
      assert Join(ys, sep) == (pre + xs[0]) + sep + Join(xs[1..], sep);
      assert Join(xs, sep) == xs[0] + sep + Join(xs[1..], sep);
    }
  }

  /** Joining with one separator character undoes splitting on it. */
  lemma {:induction false} JoinSplit(s: string, c: char)
    ensures Join(SplitOn(s, {c}), [c]) == s
    decreases |s|
  {
    if s != [] {
      var rest := SplitOn(s[1..], {c});
      JoinSplit(s[1..], c);
      assert s == [s[0]] + s[1..];
      SplitOnCons(s[0], s[1..], {c});
      if s[0] == c {
        var r := [[]] + rest;
        assert r[0] == [] && r[1..] == rest;
        assert Join(r, [c]) == [] + [c] + Join(rest, [c]);
      } else {
        JoinPrepend([s[0]], rest, [c]);
      }
    }
  }

  /** Splitting on a separator character undoes joining with it, when no item contains it. */
  lemma {:induction false} SplitJoin(xs: seq<string>, c: char)
    requires |xs| >= 1
    requires forall k | 0 <= k < |xs| :: NoneIn(xs[k], {c})
    ensures SplitOn(Join(xs, [c]), {c}) == xs
    decreases |xs|
  {
    SplitOnNoSeparator(xs[0], {c});
    if |xs| > 1 {
      SplitJoin(xs[1..], c);
      SplitOnAppend(xs[0], c, Join(xs[1..], [c]), {c});
      assert xs == [xs[0]] + xs[1..];
    }
  }
}
