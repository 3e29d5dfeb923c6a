/** The aggressive tokenizer: `text.split(/\W+/)` followed by `trim` on
    every token. */
module AggressiveTokenizer {
  import opened JsStrings

  /** `trim` leaves a string of word characters unchanged: whitespace is
      not a word character. */
  lemma TrimOfWord(p: string)
    requires forall j :: 0 <= j < |p| ==> IsWordChar(p[j])
    ensures Trim(p) == p
  {
    if |p| > 0 {
      WhitespaceIsNonWord(p[0]);
      WhitespaceIsNonWord(p[|p| - 1]);
    }
    TrimOfTrimmed(p);
  }

  /** `AggressiveTokenizer.prototype.tokenize`: the pieces of the split on
      runs of `\W`, each trimmed. The `trim` changes nothing, so the result
      is the bare split. */
  function Tokenize(text: string): (tokens: seq<string>)
    ensures tokens == Split(text, IsNonWordChar)
  {
    var parts := Split(text, IsNonWordChar);
    SplitPiecesHaveNoSeparator(text, IsNonWordChar);
    var tokens := seq(|parts|, i requires 0 <= i < |parts| => Trim(parts[i]));
    assert forall i :: 0 <= i < |parts| ==> tokens[i] == parts[i] by {
      forall i | 0 <= i < |parts| ensures Trim(parts[i]) == parts[i] {
        TrimOfWord(parts[i]);
      }
    }
    tokens
  }

  /** Every token consists of word characters `[A-Za-z0-9_]` only. */
  lemma TokensAreWordChars(text: string)
    ensures forall k, j :: (0 <= k < |Tokenize(text)| && 0 <= j < |Tokenize(text)[k]|
      ==> IsWordChar(Tokenize(text)[k][j]))
  {
    SplitPiecesHaveNoSeparator(text, IsNonWordChar);
  }

  /** Joining the tokens gives the input with every non-word character removed. */
  lemma TokensConcat(text: string)
    ensures Concat(Tokenize(text)) == Strip(text, IsNonWordChar)
  {
    SplitConcat(text, IsNonWordChar);
  }

  /** There is one token more than there are maximal runs of non-word
      characters; so an input without non-word characters is one token,
      itself (the empty input gives `[""]`). */
  lemma TokenCount(text: string)
    ensures |Tokenize(text)| == 1 + |RunStarts(text, IsNonWordChar)|
    ensures (forall i :: 0 <= i < |text| ==> IsWordChar(text[i])) ==> Tokenize(text) == [text]
  {
    SplitLength(text, IsNonWordChar);
    if forall i :: 0 <= i < |text| ==> IsWordChar(text[i]) {
      SplitWithoutSeparator(text, IsNonWordChar);
    }
  }

  /** The first token is empty exactly when the input starts with a
      non-word character, the last exactly when it ends with one, and every
      token in between is non-empty. */
  lemma EmptyTokens(text: string)
    ensures |text| > 0 ==> (Tokenize(text)[0] == [] <==> IsNonWordChar(text[0]))
    ensures |text| > 0 ==>
      (Tokenize(text)[|Tokenize(text)| - 1] == [] <==> IsNonWordChar(text[|text| - 1]))
    ensures forall k :: 0 < k < |Tokenize(text)| - 1 ==> Tokenize(text)[k] != []
  {
    if |text| > 0 {
      SplitFirst(text, IsNonWordChar);
      SplitLast(text, IsNonWordChar);
    }
    SplitInterior(text, IsNonWordChar);
  }
}
