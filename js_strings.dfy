/** The JavaScript string builtins the core relies on, stated as functions
    on `seq<char>`: the character classes `\s` and `\W`, ASCII
    `toLowerCase`, `trim`, and `split` with a pattern `X+` that matches
    maximal runs of separator characters. */
module JsStrings {

  /** JavaScript's `\s`, which is also the set `String.prototype.trim`
      strips: the WhiteSpace and LineTerminator code points. */
  predicate IsWhitespace(c: char) {
    var n := c as int;
    n == 0x20 || 0x09 <= n <= 0x0D || n == 0xA0 || n == 0x1680
    || 0x2000 <= n <= 0x200A || n == 0x2028 || n == 0x2029
    || n == 0x202F || n == 0x205F || n == 0x3000 || n == 0xFEFF
  }

  /** JavaScript's `\w` without the `u` flag: `[A-Za-z0-9_]`. */
  predicate IsWordChar(c: char) {
    ('A' <= c <= 'Z') || ('a' <= c <= 'z') || ('0' <= c <= '9') || c == '_'
  }

  /** JavaScript's `\W`. */
  predicate IsNonWordChar(c: char) {
    !IsWordChar(c)
  }

  lemma WhitespaceIsNonWord(c: char)
    ensures IsWhitespace(c) ==> IsNonWordChar(c)
  {
  }

  predicate IsUpper(c: char) {
    'A' <= c <= 'Z'
  }

  function LowerChar(c: char): char {
    if IsUpper(c) then (c as int + 32) as char else c
  }

  /** `toLowerCase`, restricted to ASCII letters. */
  function Lower(s: string): (r: string)
    ensures |r| == |s|
    ensures forall i :: 0 <= i < |s| ==> !IsUpper(r[i])
    ensures forall i :: 0 <= i < |s| ==> (IsWhitespace(r[i]) <==> IsWhitespace(s[i]))
  {
    seq(|s|, i requires 0 <= i < |s| => LowerChar(s[i]))
  }

  /** Lowering a string that holds no upper-case letter changes nothing. */
  lemma LowerOfLower(s: string)
    requires forall i :: 0 <= i < |s| ==> !IsUpper(s[i])
    ensures Lower(s) == s
  {
  }

  /** The first position at or after `i` that is not whitespace (or the
      length of `s`). */
  function TrimStartIndex(s: string, i: nat): (r: nat)
    requires i <= |s|
    ensures i <= r <= |s|
    ensures forall k :: i <= k < r ==> IsWhitespace(s[k])
    ensures r < |s| ==> !IsWhitespace(s[r])
    decreases |s| - i
  {
    if i == |s| || !IsWhitespace(s[i]) then i else TrimStartIndex(s, i + 1)
  }

  /** The end of `s[lo..j]` once its trailing whitespace is dropped. */
  function TrimEndIndex(s: string, lo: nat, j: nat): (r: nat)
    requires lo <= j <= |s|
    ensures lo <= r <= j
    ensures forall k :: r <= k < j ==> IsWhitespace(s[k])
    ensures r > lo ==> !IsWhitespace(s[r - 1])
    decreases j
  {
    if j == lo || !IsWhitespace(s[j - 1]) then j else TrimEndIndex(s, lo, j - 1)
  }

  /** No whitespace at either end (vacuously true of the empty string). */
  predicate IsTrimmed(s: string) {
    |s| == 0 || (!IsWhitespace(s[0]) && !IsWhitespace(s[|s| - 1]))
  }

  /** `String.prototype.trim`. */
  function Trim(s: string): (r: string)
    ensures IsTrimmed(r)
  {
    var lo := TrimStartIndex(s, 0);
    s[lo..TrimEndIndex(s, lo, |s|)]
  }

  /** What `trim` removes is whitespace at the two ends: its result is a
      slice `s[lo..hi]` with only whitespace before `lo` and from `hi` on. */
  lemma TrimSlice(s: string) returns (lo: nat, hi: nat)
    ensures lo <= hi <= |s| && Trim(s) == s[lo..hi]
    ensures forall i :: 0 <= i < lo ==> IsWhitespace(s[i])
    ensures forall i :: hi <= i < |s| ==> IsWhitespace(s[i])
  {
    lo := TrimStartIndex(s, 0);
    hi := TrimEndIndex(s, lo, |s|);
  }

  /** Trimming a string without whitespace at its ends returns it unchanged. */
  lemma TrimOfTrimmed(s: string)
    requires IsTrimmed(s)
    ensures Trim(s) == s
  {
  }

  /** The characters of `s` that are not separators, in order. */
  function Strip(s: string, sep: char -> bool): string
    decreases |s|
  {
    if |s| == 0 then []
    else Strip(s[..|s| - 1], sep) + (if sep(s[|s| - 1]) then [] else [s[|s| - 1]])
  }

  /** The pieces of a list, joined in order. */
  function Concat(parts: seq<string>): string
    decreases |parts|
  {
    if |parts| == 0 then [] else Concat(parts[..|parts| - 1]) + parts[|parts| - 1]
  }

  /** JavaScript's `s.split(/X+/)` where `X` is the separator class `sep`:
      the pieces between maximal runs of separators. It is built one
      character at a time: a non-separator extends the last piece, the
      first separator of a run opens a new empty piece, and further
      separators of the same run change nothing. `"".split(..)` is `[""]`. */
  function Split(s: string, sep: char -> bool): (r: seq<string>)
    ensures |r| >= 1
    decreases |s|
  {
    if |s| == 0 then [""]
    else
      var t := Split(s[..|s| - 1], sep);
      var c := s[|s| - 1];
      if !sep(c) then t[..|t| - 1] + [t[|t| - 1] + [c]]
      else if |s| >= 2 && sep(s[|s| - 2]) then t
      else t + [""]
  }

  /** Position `i` is a separator that does not follow another one. */
  predicate IsRunStart(s: string, sep: char -> bool, i: nat)
    requires i < |s|
  {
    sep(s[i]) && (i == 0 || !sep(s[i - 1]))
  }

  /** The positions where a maximal run of separators begins. */
  function RunStarts(s: string, sep: char -> bool): set<nat> {
    set i: nat | i < |s| && IsRunStart(s, sep, i)
  }

  lemma RunStartsSnoc(s: string, sep: char -> bool)
    requires |s| > 0
    ensures var n := |s| - 1;
      RunStarts(s, sep) == RunStarts(s[..n], sep) + (if IsRunStart(s, sep, n) then {n} else {})
  {
    var n := |s| - 1;
    var init := s[..n];
    assert forall i :: 0 <= i < n ==> init[i] == s[i];
    assert forall i: nat :: i < n ==> (IsRunStart(init, sep, i) <==> IsRunStart(s, sep, i));
  }

  /** split yields one piece more than there are separator runs. */
  lemma {:induction false} SplitLength(s: string, sep: char -> bool)
    ensures |Split(s, sep)| == 1 + |RunStarts(s, sep)|
    decreases |s|
  {
    if |s| > 0 {
      var n := |s| - 1;
      SplitLength(s[..n], sep);
      RunStartsSnoc(s, sep);
      assert n !in RunStarts(s[..n], sep);
    }
  }

  /** No piece holds a separator. */
  lemma {:induction false} SplitPiecesHaveNoSeparator(s: string, sep: char -> bool)
    ensures forall k, j :: (0 <= k < |Split(s, sep)| && 0 <= j < |Split(s, sep)[k]|
      ==> !sep(Split(s, sep)[k][j]))
    decreases |s|
  {
    if |s| > 0 {
      SplitPiecesHaveNoSeparator(s[..|s| - 1], sep);
    }
  }

  lemma ConcatSnoc(parts: seq<string>, p: string)
    ensures Concat(parts + [p]) == Concat(parts) + p
  {
    assert (parts + [p])[..|parts|] == parts;
  }

  /** Joining the pieces gives back the input without its separators. */
  lemma {:induction false} SplitConcat(s: string, sep: char -> bool)
    ensures Concat(Split(s, sep)) == Strip(s, sep)
    decreases |s|
  {
    if |s| > 0 {
      var init := s[..|s| - 1];
      var c := s[|s| - 1];
      var t := Split(init, sep);
      SplitConcat(init, sep);
      if !sep(c) {
        var n := |t| - 1;
        assert t == t[..n] + [t[n]];
        ConcatSnoc(t[..n], t[n]);
        ConcatSnoc(t[..n], t[n] + [c]);
      } else if !(|s| >= 2 && sep(s[|s| - 2])) {
        ConcatSnoc(t, "");
      }
    }
  }

  /** The first piece is empty exactly when the input starts with a separator. */
  lemma {:induction false} SplitFirst(s: string, sep: char -> bool)
    requires |s| > 0
    ensures Split(s, sep)[0] == [] <==> sep(s[0])
    decreases |s|
  {
    var init := s[..|s| - 1];
    var t := Split(init, sep);
    if |s| > 1 {
      SplitFirst(init, sep);
      if sep(s[0]) {
        SplitLength(init, sep);
        assert IsRunStart(init, sep, 0);
        assert 0 in RunStarts(init, sep);
      }
    }
  }

  /** The last piece is empty exactly when the input ends with a separator. */
  lemma {:induction false} SplitLast(s: string, sep: char -> bool)
    requires |s| > 0
    ensures var r := Split(s, sep); r[|r| - 1] == [] <==> sep(s[|s| - 1])
    decreases |s|
  {
    if |s| > 1 && sep(s[|s| - 1]) && sep(s[|s| - 2]) {
      SplitLast(s[..|s| - 1], sep);
    }
  }

  /** Every piece other than the first and the last is non-empty. */
  lemma {:induction false} SplitInterior(s: string, sep: char -> bool)
    ensures forall k :: 0 < k < |Split(s, sep)| - 1 ==> Split(s, sep)[k] != []
    decreases |s|
  {
    if |s| > 1 {
      var init := s[..|s| - 1];
      var t := Split(init, sep);
      var r := Split(s, sep);
      SplitInterior(init, sep);
      if !sep(s[|s| - 1]) {
        assert r == t[..|t| - 1] + [t[|t| - 1] + [s[|s| - 1]]];
        assert forall k :: 0 < k < |r| - 1 ==> r[k] == t[k];
      } else if !sep(s[|s| - 2]) {
        SplitLast(init, sep);
        assert r == t + [""];
        assert forall k :: 0 < k < |r| - 1 ==> r[k] == t[k];
      }
    }
  }

  /** An input without separators is a single piece, itself. */
  lemma {:induction false} SplitWithoutSeparator(s: string, sep: char -> bool)
    requires forall i :: 0 <= i < |s| ==> !sep(s[i])
    ensures Split(s, sep) == [s]
    decreases |s|
  {
    if |s| > 0 {
      SplitWithoutSeparator(s[..|s| - 1], sep);
      assert s[..|s| - 1] + [s[|s| - 1]] == s;
    }
  }

  /** A non-empty input with no separator at either end splits into
      non-empty pieces. */
  lemma SplitTrimmed(s: string, sep: char -> bool)
    requires |s| > 0 && !sep(s[0]) && !sep(s[|s| - 1])
    ensures forall k :: 0 <= k < |Split(s, sep)| ==> Split(s, sep)[k] != []
  {
    SplitFirst(s, sep);
    SplitLast(s, sep);
    SplitInterior(s, sep);
  }
}
