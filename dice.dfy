/** The Dice coefficient over character bigrams: both strings are
    sanitized, split into words on whitespace, every word is turned into
    its overlapping two-character pairs, and the score is
    `2 * intersection / union` where `intersection` counts the pairs that
    a greedy scan can match one-to-one. */
module Dice {
  import opened Wrappers
  import opened JsStrings

  /** The two ways `compare` fails: `new Array(-1)` for an empty word throws
      a RangeError, and `0 / 0` when neither side has a pair is NaN. */
  datatype DiceError = RangeError | NotANumber

  /** The overlapping two-character substrings of a non-empty word. */
  function Pairs(w: string): seq<string>
    requires |w| >= 1
  {
    seq(|w| - 1, i requires 0 <= i < |w| - 1 => w[i..i + 2])
  }

  /** `letterPairs`: an array of `str.length - 1` slots filled with
      `str.substring(i, i + 2)`; for the empty string the array length is
      -1 and the allocation throws. */
  method LetterPairs(str: string) returns (r: Result<seq<string>, DiceError>)
    ensures r.Err? <==> |str| == 0
    ensures r.Err? ==> r.error == RangeError
    ensures r.Ok? ==> (|r.value| == |str| - 1
      && forall i :: 0 <= i < |r.value| ==> r.value[i] == str[i..i + 2] && |r.value[i]| == 2)
    ensures r.Ok? ==> r.value == Pairs(str)
  {
    var numPairs := |str| - 1;
    if numPairs < 0 {
      return Err(RangeError);
    }
    var pairs := new string[numPairs];
    for i := 0 to numPairs
      invariant forall k :: 0 <= k < i ==> pairs[k] == str[k..k + 2]
    {
      pairs[i] := str[i..i + 2];
    }
    return Ok(pairs[..]);
  }

  /** The pairs of a list of words, concatenated in order; an empty word
      makes `letterPairs` throw. */
  function PairsOfWords(words: seq<string>): Result<seq<string>, DiceError>
    decreases |words|
  {
    if |words| == 0 then Ok([])
    else
      match PairsOfWords(words[..|words| - 1])
      case Err(e) => Err(e)
      case Ok(p) =>
        var w := words[|words| - 1];
        if |w| == 0 then Err(RangeError) else Ok(p + Pairs(w))
  }

  /** The words `str.split(/\s+/)` produces. */
  function Words(str: string): (words: seq<string>)
    ensures |words| >= 1
    ensures forall k, j :: 0 <= k < |words| && 0 <= j < |words[k]| ==> !IsWhitespace(words[k][j])
    ensures Concat(words) == Strip(str, IsWhitespace)
  {
    SplitPiecesHaveNoSeparator(str, IsWhitespace);
    SplitConcat(str, IsWhitespace);
    Split(str, IsWhitespace)
  }

  /** What `wordLetterPairs` returns or throws. */
  function WordPairs(str: string): Result<seq<string>, DiceError> {
    PairsOfWords(Words(str))
  }

  /** The number of pairs a list of non-empty words yields. */
  function PairCount(words: seq<string>): int
    decreases |words|
  {
    if |words| == 0 then 0
    else PairCount(words[..|words| - 1]) + |words[|words| - 1]| - 1
  }

  /** The pairs of a list of words fail exactly when some word is empty;
      otherwise there are `sum (|w| - 1)` of them. */
  lemma {:induction false} PairsOfWordsResult(words: seq<string>)
    ensures PairsOfWords(words).Err? <==> exists k :: 0 <= k < |words| && words[k] == []
    ensures PairsOfWords(words).Err? ==> PairsOfWords(words).error == RangeError
    ensures PairsOfWords(words).Ok? ==> |PairsOfWords(words).value| == PairCount(words)
    decreases |words|
  {
    if |words| > 0 {
      var init := words[..|words| - 1];
      PairsOfWordsResult(init);
      assert forall k :: 0 <= k < |init| ==> init[k] == words[k];
    }
  }

  /** `wordLetterPairs`: the pairs of every whitespace-separated word,
      appended in order. */
  method WordLetterPairs(str: string) returns (r: Result<seq<string>, DiceError>)
    ensures r == WordPairs(str)
  {
    var allPairs: seq<string> := [];
    var words := Split(str, IsWhitespace);
    for i := 0 to |words|
      invariant PairsOfWords(words[..i]) == Ok(allPairs)
    {
      var pairs := LetterPairs(words[i]);
      assert words[..i + 1][..i] == words[..i];
      if pairs.Err? {
        PairsOfWordsResult(words[..i + 1]);
        PairsOfWordsResult(words);
        assert words[..i + 1][i] == words[i];
        assert words[i] == [];
        return pairs;
      }
      allPairs := allPairs + pairs.value;
    }
    assert words[..|words|] == words;
    return Ok(allPairs);
  }

  /** `sanitize`: lower-case, then strip leading and trailing whitespace
      (`replace(/^\s+|\s+$/g, '')` removes exactly what `trim` removes). */
  function Sanitize(str: string): (r: string)
    ensures |r| <= |str|
    ensures IsTrimmed(r)
    ensures forall i :: 0 <= i < |r| ==> !IsUpper(r[i])
  {
    Trim(Lower(str))
  }

  /** A sanitized string has no whitespace at its ends and no upper-case
      letter, and sanitizing it again changes nothing. */
  lemma SanitizeIdempotent(str: string)
    ensures IsTrimmed(Sanitize(str))
    ensures forall i :: 0 <= i < |Sanitize(str)| ==> !IsUpper(Sanitize(str)[i])
    ensures Sanitize(Sanitize(str)) == Sanitize(str)
  {
    var l := Lower(str);
    var s := Trim(l);
    assert forall i :: 0 <= i < |s| ==> !IsUpper(s[i]) by {
      var lo, hi := TrimSlice(l);
      assert forall i :: 0 <= i < |s| ==> s[i] == l[lo + i];
    }
    assert Lower(s) == s by {
      LowerOfLower(s);
    }
    TrimOfTrimmed(s);
  }

  /** The number of pairs two pair lists have in common, each pair of
      either list used at most once: the size of the multiset intersection. */
  function Common<T(==)>(p1: seq<T>, p2: seq<T>): nat {
    |multiset(p1) * multiset(p2)|
  }

  /** The result `compare` returns or throws, stated with the multiset
      intersection in place of the greedy scan. */
  function Similarity(str1: string, str2: string): Result<real, DiceError> {
    Score(WordPairs(Sanitize(str1)), WordPairs(Sanitize(str2)))
  }

  /** The score of two pair lists, or the first failure. */
  function Score(w1: Result<seq<string>, DiceError>, w2: Result<seq<string>, DiceError>)
    : Result<real, DiceError>
  {
    match w1
    case Err(e) => Err(e)
    case Ok(p1) =>
      match w2
      case Err(e) => Err(e)
      case Ok(p2) =>
        if |p1| + |p2| == 0 then Err(NotANumber)
        else Ok(Ratio(Common(p1, p2), |p1| + |p2|))
  }

  /** `2 * intersection / union` in exact arithmetic. */
  function Ratio(intersection: nat, union: nat): real
    requires union > 0
  {
    (2 * intersection) as real / union as real
  }

  /** The entries of `s[..n]` that are not yet consumed. */
  function Left<T>(s: seq<T>, consumed: seq<bool>, n: nat): multiset<T>
    requires |consumed| == |s| && n <= |s|
  {
    if n == 0 then multiset{}
    else Left(s, consumed, n - 1) + (if consumed[n - 1] then multiset{} else multiset{s[n - 1]})
  }

  /** Before anything is consumed, what is left is the whole prefix. */
  lemma {:induction false} LeftNoneConsumed<T>(s: seq<T>, consumed: seq<bool>, n: nat)
    requires |consumed| == |s| && n <= |s|
    requires forall k :: 0 <= k < |s| ==> !consumed[k]
    ensures Left(s, consumed, n) == multiset(s[..n])
  {
    if n > 0 {
      LeftNoneConsumed(s, consumed, n - 1);
      assert s[..n] == s[..n - 1] + [s[n - 1]];
    }
  }

  /** What is left of a prefix depends only on the flags of that prefix. */
  lemma {:induction false} LeftSameFlags<T>(s: seq<T>, c1: seq<bool>, c2: seq<bool>, n: nat)
    requires |c1| == |s| && |c2| == |s| && n <= |s|
    requires forall k :: 0 <= k < n ==> c1[k] == c2[k]
    ensures Left(s, c1, n) == Left(s, c2, n)
  {
    if n > 0 {
      LeftSameFlags(s, c1, c2, n - 1);
    }
  }

  /** Consuming entry `j` removes exactly one copy of `s[j]` from what is left. */
  lemma {:induction false} ConsumeOne<T>(s: seq<T>, consumed: seq<bool>, j: nat, n: nat)
    requires |consumed| == |s| && j < n <= |s| && !consumed[j]
    ensures s[j] in Left(s, consumed, n)
    ensures Left(s, consumed[j := true], n) == Left(s, consumed, n) - multiset{s[j]}
  {
    var after := consumed[j := true];
    if j < n - 1 {
      ConsumeOne(s, consumed, j, n - 1);
      var tail := if consumed[n - 1] then multiset{} else multiset{s[n - 1]};
      MultisetRemoveThenAppend(Left(s, consumed, n - 1), Left(s, after, n - 1), tail, s[j]);
    } else {
      LeftSameFlags(s, consumed, after, n - 1);
    }
  }

  lemma MultisetRemoveThenAppend<T>(m: multiset<T>, m': multiset<T>, t: multiset<T>, x: T)
    requires x in m && m' == m - multiset{x}
    ensures m' + t == (m + t) - multiset{x} && x in m + t
  {
    assert forall y :: (m' + t)[y] == ((m + t) - multiset{x})[y];
  }

  /** When every entry equal to `p` is consumed, no `p` is left. */
  lemma {:induction false} NoneLeft<T>(s: seq<T>, consumed: seq<bool>, p: T, n: nat)
    requires |consumed| == |s| && n <= |s|
    requires forall k :: 0 <= k < n ==> consumed[k] || s[k] != p
    ensures p !in Left(s, consumed, n)
  {
    if n > 0 {
      NoneLeft(s, consumed, p, n - 1);
    }
  }

  /** One step of the greedy scan: matching `p` against what is left of
      the second list keeps "left = second - processed" and
      "count = |processed * second|". */
  lemma MatchStep<T>(done: multiset<T>, m2: multiset<T>, left: multiset<T>, p: T)
    requires left == m2 - done
    ensures p in left ==> ((done + multiset{p}) * m2 == done * m2 + multiset{p}
      && m2 - (done + multiset{p}) == left - multiset{p})
    ensures p !in left ==> ((done + multiset{p}) * m2 == done * m2
      && m2 - (done + multiset{p}) == left)
  {
    var d' := done + multiset{p};
    if p in left {
      assert forall x :: (d' * m2)[x] == (done * m2 + multiset{p})[x];
      assert forall x :: (m2 - d')[x] == (left - multiset{p})[x];
    } else {
      assert forall x :: (d' * m2)[x] == (done * m2)[x];
      assert forall x :: (m2 - d')[x] == left[x];
    }
  }

  /** The inner loop of `compare`: the first entry of the second list that
      has not been deleted and equals `pair1`, or -1 when there is none. */
  method FindUnconsumed<T(==)>(pairs2: seq<T>, consumed: seq<bool>, pair1: T) returns (j: int)
    requires |consumed| == |pairs2|
    ensures -1 <= j < |pairs2|
    ensures 0 <= j ==> !consumed[j] && pairs2[j] == pair1
    ensures 0 <= j ==> forall k :: 0 <= k < j ==> consumed[k] || pairs2[k] != pair1
    ensures j == -1 ==> forall k :: 0 <= k < |pairs2| ==> consumed[k] || pairs2[k] != pair1
  {
    for k := 0 to |pairs2|
      invariant forall k' :: 0 <= k' < k ==> consumed[k'] || pairs2[k'] != pair1
    {
      if !consumed[k] && pairs2[k] == pair1 {
        return k;
      }
    }
    return -1;
  }

  /** What the greedy scan knows after the first `i` pairs of the first
      list: the count so far is the intersection of those pairs with the
      second list, and what is left of the second list is the rest. */
  ghost predicate Scanned<T>(pairs1: seq<T>, pairs2: seq<T>, i: nat, consumed: seq<bool>, intersection: nat)
    requires i <= |pairs1|
  {
    && |consumed| == |pairs2|
    && intersection == |multiset(pairs1[..i]) * multiset(pairs2)|
    && Left(pairs2, consumed, |pairs2|) == multiset(pairs2) - multiset(pairs1[..i])
  }

  /** A match for `pairs1[i]` at `j` counts it and consumes `j`. */
  lemma ScanMatched<T>(pairs1: seq<T>, pairs2: seq<T>, i: nat, consumed: seq<bool>, intersection: nat, j: nat)
    requires i < |pairs1| && Scanned(pairs1, pairs2, i, consumed, intersection)
    requires j < |pairs2| && !consumed[j] && pairs2[j] == pairs1[i]
    ensures Scanned(pairs1, pairs2, i + 1, consumed[j := true], intersection + 1)
  {
    var p := pairs1[i];
    assert pairs1[..i + 1] == pairs1[..i] + [p];
    ConsumeOne(pairs2, consumed, j, |pairs2|);
    MatchStep(multiset(pairs1[..i]), multiset(pairs2), Left(pairs2, consumed, |pairs2|), p);
  }

  /** Without a match for `pairs1[i]` nothing changes but the position. */
  lemma ScanUnmatched<T>(pairs1: seq<T>, pairs2: seq<T>, i: nat, consumed: seq<bool>, intersection: nat)
    requires i < |pairs1| && Scanned(pairs1, pairs2, i, consumed, intersection)
    requires forall k :: 0 <= k < |pairs2| ==> consumed[k] || pairs2[k] != pairs1[i]
    ensures Scanned(pairs1, pairs2, i + 1, consumed, intersection)
  {
    var p := pairs1[i];
    assert pairs1[..i + 1] == pairs1[..i] + [p];
    NoneLeft(pairs2, consumed, p, |pairs2|);
    MatchStep(multiset(pairs1[..i]), multiset(pairs2), Left(pairs2, consumed, |pairs2|), p);
  }

  /** The nested loops of `compare`: for every pair of the first list the
      first matching entry of the second list that is still there counts
      and is deleted (a deleted slot holds `undefined`, which equals no
      pair), so each entry of the second list matches at most once. The
      greedy count is the size of the multiset intersection. */
  method CountMatches<T(==)>(pairs1: seq<T>, pairs2: seq<T>) returns (intersection: nat)
    ensures intersection == Common(pairs1, pairs2)
  {
    intersection := 0;
    var consumed := seq(|pairs2|, _ => false);
    LeftNoneConsumed(pairs2, consumed, |pairs2|);
    assert pairs2[..|pairs2|] == pairs2;
    for i := 0 to |pairs1|
      invariant Scanned(pairs1, pairs2, i, consumed, intersection)
    {
      var j := FindUnconsumed(pairs2, consumed, pairs1[i]);
      if j >= 0 {
        ScanMatched(pairs1, pairs2, i, consumed, intersection, j);
        intersection := intersection + 1;
        consumed := consumed[j := true];
      } else {
        ScanUnmatched(pairs1, pairs2, i, consumed, intersection);
      }
    }
    assert pairs1[..|pairs1|] == pairs1;
  }

  /** `compare`: the pairs of both sanitized strings (the first one's
      failure is raised first), the greedy match count, and
      `2 * intersection / union`, where `union == 0` gives NaN. */
  method Compare(str1: string, str2: string) returns (r: Result<real, DiceError>)
    ensures r == Similarity(str1, str2)
  {
    var w1 := WordLetterPairs(Sanitize(str1));
    if w1.Err? {
      return Err(w1.error);
    }
    var w2 := WordLetterPairs(Sanitize(str2));
    if w2.Err? {
      return Err(w2.error);
    }
    assert Similarity(str1, str2) == Score(w1, w2);
    var pairs1, pairs2 := w1.value, w2.value;
    var union := |pairs1| + |pairs2|;
    var intersection := CountMatches(pairs1, pairs2);
    if union == 0 {
      return Err(NotANumber);
    }
    return Ok(Ratio(intersection, union));
  }

  /** The multiset intersection is no larger than either side. */
  lemma CommonBounds<T>(p1: seq<T>, p2: seq<T>)
    ensures Common(p1, p2) <= |p1| && Common(p1, p2) <= |p2|
    ensures Common(p1, p2) == Common(p2, p1)
  {
    var m1, m2 := multiset(p1), multiset(p2);
    assert m1 * m2 <= m1 && m1 * m2 <= m2;
    SubMultisetSize(m1 * m2, m1);
    SubMultisetSize(m1 * m2, m2);
    assert m1 * m2 == m2 * m1;
  }

  lemma {:induction false} SubMultisetSize<T>(a: multiset<T>, b: multiset<T>)
    requires a <= b
    ensures |a| <= |b|
    decreases |b|
  {
    if |a| > 0 {
      var x :| x in a;
      SubMultisetSize(a - multiset{x}, b - multiset{x});
    }
  }

  /** The pairs of a sanitized string fail exactly when it is empty: the
      split of `""` is `[""]`, whose one word has no pairs and makes
      `new Array(-1)` throw, while a non-empty trimmed string splits into
      non-empty words. */
  lemma SanitizedWordPairs(str: string)
    ensures WordPairs(Sanitize(str)).Err? <==> Sanitize(str) == []
    ensures WordPairs(Sanitize(str)).Err? ==> WordPairs(Sanitize(str)).error == RangeError
  {
    var s := Sanitize(str);
    PairsOfWordsResult(Words(s));
    if |s| > 0 {
      SplitTrimmed(s, IsWhitespace);
    } else {
      assert Words(s)[0] == [];
    }
  }

  /** A list of non-empty words has no pairs exactly when every word is a
      single character. */
  lemma {:induction false} NoPairs(words: seq<string>)
    requires forall k :: 0 <= k < |words| ==> words[k] != []
    ensures PairCount(words) == 0 <==> forall k :: 0 <= k < |words| ==> |words[k]| == 1
    decreases |words|
  {
    if |words| > 0 {
      var init := words[..|words| - 1];
      assert forall k :: 0 <= k < |init| ==> init[k] == words[k];
      NoPairs(init);
      PairCountNonNegative(init);
    }
  }

  lemma {:induction false} PairCountNonNegative(words: seq<string>)
    requires forall k :: 0 <= k < |words| ==> words[k] != []
    ensures PairCount(words) >= 0
    decreases |words|
  {
    if |words| > 0 {
      var init := words[..|words| - 1];
      assert forall k :: 0 <= k < |init| ==> init[k] == words[k];
      PairCountNonNegative(init);
    }
  }

  /** A non-empty sanitized string has pairs to offer, and has none
      exactly when every word in it is a single character. */
  lemma SanitizedPairCount(str: string)
    requires Sanitize(str) != []
    ensures WordPairs(Sanitize(str)).Ok?
    ensures |WordPairs(Sanitize(str)).value| == 0
      <==> forall k :: 0 <= k < |Words(Sanitize(str))| ==> |Words(Sanitize(str))[k]| == 1
  {
    var s := Sanitize(str);
    SanitizedWordPairs(str);
    SplitTrimmed(s, IsWhitespace);
    PairsOfWordsResult(Words(s));
    NoPairs(Words(s));
  }

  /** How `compare` fails: a RangeError exactly when one of the sanitized
      strings is empty, and NaN exactly when both are non-empty but every
      word of both is a single character. */
  lemma SimilarityErrors(str1: string, str2: string)
    ensures Similarity(str1, str2) == Err(RangeError)
      <==> Sanitize(str1) == [] || Sanitize(str2) == []
    ensures Similarity(str1, str2) == Err(NotANumber)
      <==> (Sanitize(str1) != [] && Sanitize(str2) != []
        && (forall k :: 0 <= k < |Words(Sanitize(str1))| ==> |Words(Sanitize(str1))[k]| == 1)
        && (forall k :: 0 <= k < |Words(Sanitize(str2))| ==> |Words(Sanitize(str2))[k]| == 1))
  {
    var w1, w2 := WordPairs(Sanitize(str1)), WordPairs(Sanitize(str2));
    SanitizedWordPairs(str1);
    SanitizedWordPairs(str2);
    if Sanitize(str1) != [] && Sanitize(str2) != [] {
      SanitizedPairCount(str1);
      SanitizedPairCount(str2);
    }
    ScoreErrors(w1, w2);
  }

  /** `Score` fails with the first list's error, else the second's, else
      with NaN when both lists are empty. */
  lemma ScoreErrors(w1: Result<seq<string>, DiceError>, w2: Result<seq<string>, DiceError>)
    requires w1.Err? ==> w1.error == RangeError
    requires w2.Err? ==> w2.error == RangeError
    ensures Score(w1, w2) == Err(RangeError) <==> w1.Err? || w2.Err?
    ensures Score(w1, w2) == Err(NotANumber) <==> w1.Ok? && w2.Ok? && |w1.value| == 0 && |w2.value| == 0
  {
  }

  /** A score `compare` returns lies between 0 and 1. */
  lemma SimilarityBounds(str1: string, str2: string)
    ensures Similarity(str1, str2).Ok? ==>
      0.0 <= Similarity(str1, str2).value <= 1.0
  {
    ScoreBounds(WordPairs(Sanitize(str1)), WordPairs(Sanitize(str2)));
  }

  lemma ScoreBounds(w1: Result<seq<string>, DiceError>, w2: Result<seq<string>, DiceError>)
    ensures Score(w1, w2).Ok? ==> 0.0 <= Score(w1, w2).value <= 1.0
  {
    if Score(w1, w2).Ok? {
      var p1, p2 := w1.value, w2.value;
      CommonBounds(p1, p2);
      RatioBounds(Common(p1, p2), |p1| + |p2|);
    }
  }

  lemma RatioBounds(intersection: nat, union: nat)
    requires 0 < union && 2 * intersection <= union
    ensures 0.0 <= Ratio(intersection, union) <= 1.0
  {
  }

  /** The order of the arguments does not matter: the same error, or the
      same score. */
  lemma SimilaritySymmetric(str1: string, str2: string)
    ensures Similarity(str1, str2) == Similarity(str2, str1)
  {
    SanitizedWordPairs(str1);
    SanitizedWordPairs(str2);
    if WordPairs(Sanitize(str1)).Ok? && WordPairs(Sanitize(str2)).Ok? {
      CommonBounds(WordPairs(Sanitize(str1)).value, WordPairs(Sanitize(str2)).value);
    }
  }

  /** Strings that sanitize to the same text score 1 (or fail together). */
  lemma SimilarityIdentical(str1: string, str2: string)
    requires Sanitize(str1) == Sanitize(str2)
    ensures Similarity(str1, str2).Ok? ==> Similarity(str1, str2).value == 1.0
  {
    ScoreIdentical(WordPairs(Sanitize(str1)));
  }

  lemma ScoreIdentical(w: Result<seq<string>, DiceError>)
    ensures Score(w, w).Ok? ==> Score(w, w).value == 1.0
  {
    if w.Ok? && |w.value| > 0 {
      var p := w.value;
      assert multiset(p) * multiset(p) == multiset(p);
      assert Common(p, p) == |p|;
      RatioOfEqualHalves(|p|);
    }
  }

  lemma RatioOfEqualHalves(n: nat)
    requires n > 0
    ensures Ratio(n, n + n) == 1.0
  {
    var u := (n + n) as real;
    assert u > 0.0;
    assert (2 * n) as real == u;
    DivSelf(u);
  }

  lemma DivSelf(u: real)
    requires u > 0.0
    ensures u / u == 1.0
  {
  }

  /** The reference value: `compare("night", "nacht")` is 0.25, the two
      words sharing only the pair "ht" out of eight. */
  lemma NightNacht(str1: string, str2: string)
    requires str1 == "night" && str2 == "nacht"
    ensures Similarity(str1, str2) == Ok(0.25)
  {
    var p1 := PairsOfOneWord(str1, ["ni", "ig", "gh", "ht"]);
    var p2 := PairsOfOneWord(str2, ["na", "ac", "ch", "ht"]);
    CommonOfNightNacht();
    assert Score(Ok(p1), Ok(p2)) == Ok(Ratio(1, 8));
    assert Ratio(1, 8) == 0.25;
  }

  lemma CommonOfNightNacht()
    ensures Common(["ni", "ig", "gh", "ht"], ["na", "ac", "ch", "ht"]) == 1
  {
    var m1, m2 := multiset(["ni", "ig", "gh", "ht"]), multiset(["na", "ac", "ch", "ht"]);
    assert m1 == multiset{"ni", "ig", "gh", "ht"};
    assert m2 == multiset{"na", "ac", "ch", "ht"};
    assert forall x :: (m1 * m2)[x] == multiset{"ht"}[x];
    assert m1 * m2 == multiset{"ht"};
  }

  /** Two single letters have no pairs at all: `0 / 0`. */
  lemma SingleLetters(str1: string, str2: string)
    requires str1 == "a" && str2 == "b"
    ensures Similarity(str1, str2) == Err(NotANumber)
  {
    var p1 := PairsOfOneWord(str1, []);
    var p2 := PairsOfOneWord(str2, []);
  }

  /** The pairs of a lower-case word made of word characters. */
  lemma PairsOfOneWord(w: string, expected: seq<string>) returns (p: seq<string>)
    requires |w| >= 1 && |expected| == |w| - 1
    requires forall i :: 0 <= i < |expected| ==> expected[i] == w[i..i + 2]
    requires forall i :: 0 <= i < |w| ==> IsWordChar(w[i]) && !IsUpper(w[i])
    ensures p == expected
    ensures WordPairs(Sanitize(w)) == Ok(p)
  {
    p := expected;
    assert Lower(w) == w;
    WhitespaceIsNonWord(w[0]);
    WhitespaceIsNonWord(w[|w| - 1]);
    TrimOfTrimmed(w);
    assert Sanitize(w) == w;
    forall i | 0 <= i < |w|
      ensures !IsWhitespace(w[i])
    {
      WhitespaceIsNonWord(w[i]);
    }
    SplitWithoutSeparator(w, IsWhitespace);
    assert Words(w) == [w];
    assert Pairs(w) == expected;
    assert [w][..0] == [];
    assert PairsOfWords([w][..0]) == Ok([]);
    assert [] + Pairs(w) == Pairs(w);
    assert PairsOfWords([w]) == Ok(Pairs(w));
  }
}
