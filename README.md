# natural: TF-IDF corpus, Dice coefficient and aggressive tokenizer in Dafny

This project models three small parts of the `natural` JavaScript library and
proves properties of them:

- **The TF-IDF engine** (`tfidf.dfy`, module `TfIdf`):
  - a `Corpus` class whose `documents` sequence only grows through `AddDocument`;
  - `buildDocument` as a counting loop, proved equal to a map of occurrence counts;
  - `tf`, `documentHasTerm`, `idf` and `tfidf` as functions of the document list;
  - `listTerms`, which scores every property of a document and sorts by score, descending;
  - `tfidfs`, which fills one score per document and records the callback calls in order.
- **The Dice coefficient** (`dice.dfy`, module `Dice`):
  - `letterPairs`, `wordLetterPairs`, `sanitize` and `compare`;
  - the greedy match count of `compare`, which tracks deleted entries with consumed flags and is proved equal to the size of the multiset intersection of the two pair lists;
  - the score as an exact `real`;
  - the two ways `compare` fails as explicit errors: a `RangeError` from `new Array(-1)`, and `NaN` from `0 / 0`.
- **The aggressive tokenizer** (`aggressive_tokenizer.dfy`): `text.split(/\W+/)` followed by `trim` on every piece. The `trim` is proved to change nothing.

`js_strings.dfy` states the JavaScript string builtins these rely on as functions on `seq<char>`:
- the classes `\s` and `\W`;
- ASCII `toLowerCase`;
- `trim`;
- `split` on a pattern `X+`, defined by a recursion on the last character and described by lemmas: no piece contains a separator, the pieces join back to the input without its separators, there is one more piece than there are separator runs, the first and last pieces are empty exactly when the input starts or ends with a separator, and every other piece is non-empty. These lemmas do not on their own fix where each piece ends (the list `["a", "bc"]` satisfies them for `"ab-c"`); the definition does.

`wrappers.dfy` holds `Option` and `Result`.

The tokenizer, the stopword list and `Math.log` are given to the `Corpus` constructor:
- the tokenizer as a function `string -> seq<string>`;
- the stopwords as a sequence;
- the logarithm as an uninterpreted function `real -> real`.

So the model states exact facts about counts and about the argument passed to the logarithm, not about its value. `AggressiveTokenizer.Tokenize` is one tokenizer a corpus can be built with.

### Where the code is taken literally, or repaired

- **The idf formula.** `idf` computes `Math.log(this.documents.length + 1 / docsWithTerm)` (tfidf.js:89). Under JavaScript precedence that is `n + (1 / docsWithTerm)`, and the model keeps it that way:
  - `TfIdf.IdfArgument` is that expression;
  - `TfIdf.IdfArgumentBounds` shows it lies in `(n, n + 1]`, and is `1` for the empty corpus, so idf there is `log(1)`, not `log(0 / 1)`;
  - `TfIdf.IdfArgumentAboveRatio` shows it is always larger than the ratio `n / docsWithTerm` that the smoothing comment describes;
  - `TfIdf.IdfArgumentGrows` shows that adding any document raises it, including a document that holds the term, whereas an inverse document frequency should fall as more documents hold the term.

  The inline comment at tfidf.js:89-90 ("inited to 1 so no addition needed") says the `+ 1` smoothing is already carried by `docsWithTerm` starting at 1, which points to `log(n / docsWithTerm)` as the intended argument. The model follows the code as written.
- **`compare` on inputs without pairs.** For such inputs (`compare("a", "b")`) the code returns `0 / 0`, which is `NaN`, although the doc comment at dice.js:81 promises "a number from 0-1". The model follows the code, as `Err(NotANumber)`.
- **Lines that name identifiers that do not exist.** These are modelled by their evident intent:
  - the constructor (tfidf.js:33-37) makes an empty corpus;
  - `tf` (tfidf.js:65-67) reads the document it is given, as `tf(term, document)`;
  - `tfidf` (tfidf.js:104-112) is the `reduce` at lines 109-111. The dead loop before it is not modelled;
  - `listTerms` scores each property `term` with `tfidf([term], d)` (tfidf.js:118).
- **The `__key` property.** `buildDocument` stores `__key` inside the same object as the term counts (tfidf.js:56). Here `Document` keeps the counts and the key in separate fields:
  - the key is `Some(key)` for a built document;
  - it is whatever a pre-built document brings (`None` when it has no `__key`);
  - `listTerms` still gives `__key` its own row when the document has a key, as the source's `for…in` does.

## Model

| member | source | states |
|---|---|---|
| JsStrings.Lower | js/natural/distance/dice.js:76 | `toLowerCase` keeps the length, leaves no upper-case letter and keeps every whitespace position |
| JsStrings.LowerOfLower | js/natural/distance/dice.js:76 | lower-casing a string without upper-case letters changes nothing |
| JsStrings.Trim | js/natural/tokenizers/aggressive_tokenizer.js:44 | the result of `trim` has no whitespace at either end |
| JsStrings.TrimSlice | js/natural/distance/dice.js:76 | `trim` returns a slice `s[lo..hi]` and removes only whitespace, before `lo` and from `hi` on, as the anchored `replace` in `sanitize` does |
| JsStrings.TrimOfTrimmed | js/natural/tokenizers/aggressive_tokenizer.js:44 | `trim` leaves a string without whitespace at its ends unchanged |
| JsStrings.Split | js/natural/tokenizers/aggressive_tokenizer.js:43 | `split` on `X+` always returns at least one piece, and `""` splits into `[""]` |
| JsStrings.SplitLength | js/natural/tokenizers/aggressive_tokenizer.js:43 | there is one piece more than there are maximal separator runs |
| JsStrings.SplitPiecesHaveNoSeparator | js/natural/tokenizers/aggressive_tokenizer.js:43 | no piece contains a separator character |
| JsStrings.SplitConcat | js/natural/tokenizers/aggressive_tokenizer.js:43 | joining the pieces gives the input with every separator removed |
| JsStrings.SplitFirst | js/natural/tokenizers/aggressive_tokenizer.js:43 | the first piece is empty exactly when the input starts with a separator |
| JsStrings.SplitLast | js/natural/tokenizers/aggressive_tokenizer.js:43 | the last piece is empty exactly when the input ends with a separator |
| JsStrings.SplitInterior | js/natural/tokenizers/aggressive_tokenizer.js:43 | every piece other than the first and the last is non-empty |
| JsStrings.SplitWithoutSeparator | js/natural/tokenizers/aggressive_tokenizer.js:43 | an input without separators is a single piece, the input itself |
| JsStrings.SplitTrimmed | js/natural/distance/dice.js:60 | a non-empty input without separators at its ends splits into non-empty pieces |
| AggressiveTokenizer.TrimOfWord | js/natural/tokenizers/aggressive_tokenizer.js:43-45 | `trim` leaves a token made of word characters unchanged |
| AggressiveTokenizer.Tokenize | js/natural/tokenizers/aggressive_tokenizer.js:41-46 | `tokenize` returns exactly the pieces of `split(/\W+/)`, because the `trim` map is the identity on them |
| AggressiveTokenizer.TokensAreWordChars | js/natural/tokenizers/aggressive_tokenizer.js:43 | every token consists only of `[A-Za-z0-9_]` |
| AggressiveTokenizer.TokensConcat | js/natural/tokenizers/aggressive_tokenizer.js:43 | the tokens joined are the input with every non-word character removed |
| AggressiveTokenizer.TokenCount | js/natural/tokenizers/aggressive_tokenizer.js:43 | the token count is 1 plus the number of maximal non-word runs, and an input of word characters only is the single token `[text]` |
| AggressiveTokenizer.EmptyTokens | js/natural/tokenizers/aggressive_tokenizer.js:43 | the first token is empty exactly when the input starts with a non-word character, the last exactly when it ends with one, and all interior tokens are non-empty |
| Dice.LetterPairs | js/natural/distance/dice.js:42-49 | for a string of length L ≥ 1 the result is L-1 pairs, pair i being `str[i..i+2]` of length 2; the empty string fails with RangeError |
| Dice.PairsOfWordsResult | js/natural/distance/dice.js:58-66 | the pairs of a word list fail, with RangeError, exactly when some word is empty; otherwise their number is the sum over the words of (length - 1) |
| Dice.Words | js/natural/distance/dice.js:60 | `str.split(/\s+/)` gives at least one word, no word holds whitespace, and the words joined give the input without its whitespace |
| Dice.WordLetterPairs | js/natural/distance/dice.js:58-66 | the loop returns the in-order concatenation of the pairs of the whitespace-split words, or the RangeError of the first empty word |
| Dice.Sanitize | js/natural/distance/dice.js:75-77 | `sanitize` is no longer than its input, has no whitespace at either end and no upper-case letter |
| Dice.SanitizeIdempotent | js/natural/distance/dice.js:75-77 | a sanitized string has no whitespace at its ends and no upper-case letter, and sanitizing twice equals sanitizing once |
| Dice.ConsumeOne | js/natural/distance/dice.js:99 | deleting an entry of the second list removes exactly one copy of it from what is left |
| Dice.NoneLeft | js/natural/distance/dice.js:95-102 | when the inner scan finds no match, no entry left equals the pair |
| Dice.FindUnconsumed | js/natural/distance/dice.js:95-102 | the inner loop stops at the first entry not yet deleted that equals the pair, or reports that there is none |
| Dice.ScanMatched | js/natural/distance/dice.js:97-100 | a match counts one more common pair and removes one copy from what is left |
| Dice.ScanUnmatched | js/natural/distance/dice.js:95-102 | a pair without a match leaves the count and what is left unchanged, and both stay equal to their multiset descriptions |
| Dice.CountMatches | js/natural/distance/dice.js:93-103 | the greedy count of the nested loops equals the size of the multiset intersection of the two pair lists |
| Dice.CommonBounds | js/natural/distance/dice.js:93-103 | the intersection is at most the size of either list, and it is symmetric |
| Dice.Compare | js/natural/distance/dice.js:86-105 | `compare` returns the first list's error, then the second's, then NaN for an empty union, and otherwise `2 * intersection / union` with the multiset intersection |
| Dice.SanitizedWordPairs | js/natural/distance/dice.js:43-44 | the pairs of a sanitized string fail exactly when it is empty, and then with RangeError |
| Dice.NoPairs | js/natural/distance/dice.js:58-66 | non-empty words give no pairs exactly when each is a single character |
| Dice.SanitizedPairCount | js/natural/distance/dice.js:58-66 | a non-empty sanitized string always has a pair list, which is empty exactly when every word has one character |
| Dice.SimilarityErrors | js/natural/distance/dice.js:86-104 | `compare` fails with RangeError exactly when a sanitized input is empty, and with NaN exactly when both are non-empty with only one-letter words |
| Dice.ScoreErrors | js/natural/distance/dice.js:91-104 | the score fails with the first list's error if there is one, then the second's, then NaN exactly when both lists are empty |
| Dice.SimilarityBounds | js/natural/distance/dice.js:81 | every score `compare` returns lies in [0, 1] |
| Dice.ScoreBounds | js/natural/distance/dice.js:104 | `2 * intersection / union` lies in [0, 1] |
| Dice.SimilaritySymmetric | js/natural/distance/dice.js:86-104 | `compare(a, b)` and `compare(b, a)` give the same error or the same score |
| Dice.SimilarityIdentical | js/natural/distance/dice.js:87-104 | strings that sanitize to the same text score 1 whenever they score at all |
| Dice.ScoreIdentical | js/natural/distance/dice.js:93-104 | a pair list compared with itself scores 1 |
| Dice.NightNacht | js/natural/distance/dice.js:86-105 | `compare("night", "nacht")` is 0.25 |
| Dice.SingleLetters | js/natural/distance/dice.js:91-104 | `compare("a", "b")` is `0 / 0` |
| Dice.PairsOfOneWord | js/natural/distance/dice.js:58-66 | a lower-case word of word characters sanitizes to itself and yields its own letter pairs |
| TfIdf.TallySnoc | js/natural/tfidf/tfidf.js:51-56 | each further term raises its count by one, starting at 1, unless the stopword filter drops it |
| TfIdf.CountTerms | js/natural/tfidf/tfidf.js:51-56 | the counting loop maps every term that is kept to its number of occurrences |
| TfIdf.BuildDocument | js/natural/tfidf/tfidf.js:40-57 | text is lower-cased, tokenized and counted with stopwords dropped; an array is counted without the filter; any other input is returned unchanged; built documents carry the key |
| TfIdf.TextDocument | js/natural/tfidf/tfidf.js:43-45 | for text input, a term's `tf` is its number of occurrences among the tokens, a stopword has no entry, every count is at least 1, and the key is attached |
| TfIdf.TermsDocument | js/natural/tfidf/tfidf.js:46-53 | for array input, a term's `tf` is its number of occurrences, stopwords included, and every count is at least 1 |
| TfIdf.TfGrowsByOne | js/natural/tfidf/tfidf.js:53 | each further occurrence of a kept term raises its `tf` by exactly 1 |
| TfIdf.Tf | js/natural/tfidf/tfidf.js:65-67 | `tf` is non-zero exactly when the document has a non-zero count for the term |
| TfIdf.DocumentHasTerm | js/natural/tfidf/tfidf.js:70-72 | `documentHasTerm` holds exactly when `tf` of the term in that document is positive |
| TfIdf.DocsWithTerm | js/natural/tfidf/tfidf.js:85-87 | `docsWithTerm` lies in [1, n+1]; it is 1 exactly when no document holds the term, and n+1 exactly when every document does |
| TfIdf.DocsWithTermCounts | js/natural/tfidf/tfidf.js:70-72 | `docsWithTerm` is 1 plus the number of documents for which `documentHasTerm` holds |
| TfIdf.DocsWithTermSnoc | js/natural/tfidf/tfidf.js:85-87 | adding a document raises `docsWithTerm` by one exactly when that document holds the term |
| TfIdf.IdfArgument | js/natural/tfidf/tfidf.js:89 | the argument passed to `Math.log`, `n + 1 / docsWithTerm` under JavaScript precedence, is always positive |
| TfIdf.Idf | js/natural/tfidf/tfidf.js:80-91 | `idf` on the empty corpus is `log(1)`; when no document holds the term it is `log(n + 1)` |
| TfIdf.IdfArgumentBounds | js/natural/tfidf/tfidf.js:89 | the log argument lies in (n, n+1], equals n+1 exactly when no document holds the term, and is 1 for an empty corpus |
| TfIdf.IdfArgumentAboveRatio | js/natural/tfidf/tfidf.js:89-90 | the argument as written always exceeds `n / docsWithTerm`, the ratio the smoothing comment describes |
| TfIdf.IdfArgumentGrows | js/natural/tfidf/tfidf.js:89 | adding a document without the term raises the argument by exactly 1; adding one with the term raises it by less than 1 and more than 0 |
| TfIdf.TfIdf | js/natural/tfidf/tfidf.js:104-112 | `tfidf` fails, with TypeError, exactly when the term list is non-empty and index `d` holds no document; an empty list scores 0 |
| TfIdf.Sum | js/natural/tfidf/tfidf.js:109-111 | no ensures of its own: it defines the `reduce`, `0.0` plus `tf(term, d) * idf(term)` for each term in order; SumConcat, SumOfTwo, SumPermutation and SumOfAbsent state its properties |
| TfIdf.SumConcat | js/natural/tfidf/tfidf.js:109-111 | the sum over two term lists joined is the sum of the two sums |
| TfIdf.SumOfTwo | js/natural/tfidf/tfidf.js:109-111 | `tfidf([t1, t2], d)` is `tf(t1) * idf(t1) + tf(t2) * idf(t2)` |
| TfIdf.SumPermutation | js/natural/tfidf/tfidf.js:109-111 | the sum depends only on how often each term occurs in the list, not on the order |
| TfIdf.SumOfAbsent | js/natural/tfidf/tfidf.js:109-111 | terms the document does not hold add nothing |
| TfIdf.Insert | js/natural/tfidf/tfidf.js:121 | inserting a row keeps the rows sorted by descending score and adds exactly that row |
| TfIdf.SortByScore | js/natural/tfidf/tfidf.js:121 | the sort returns a permutation of the rows, ordered by descending score |
| TfIdf.HigherCountRanksFirst | js/natural/tfidf/tfidf.js:114-121 | in a one-document corpus `{a: 3, b: 1}`, "a" outscores "b" whenever the shared idf is positive |
| TfIdf.ListedHigherCountFirst | js/natural/tfidf/tfidf.js:114-122 | on that corpus, in any list sorted by descending score whose rows are scored `tfidf([term], 0)` (what `listTerms(0)` returns), the row for "a" comes before the row for "b" |
| TfIdf.Corpus.constructor | js/natural/tfidf/tfidf.js:33-37 | a new corpus is empty and keeps the collaborators it is given |
| TfIdf.Corpus.AddDocument | js/natural/tfidf/tfidf.js:93-95 | the corpus grows by exactly one document, the built one, and earlier documents are unchanged |
| TfIdf.Corpus.ScoreProperties | js/natural/tfidf/tfidf.js:117-119 | the `for…in` loop yields exactly one row per property of the document (as many rows as properties, every row a property, every property once), each scored with `tfidf([term], d)` |
| TfIdf.Corpus.ListTerms | js/natural/tfidf/tfidf.js:114-122 | `listTerms` is a permutation of the document's properties, `__key` included, each scored with `tfidf([term], d)`, sorted by descending score; an index without a document gives `[]` |
| TfIdf.Corpus.TfIdfs | js/natural/tfidf/tfidf.js:124-135 | `tfidfs` has one score per document, entry i being `tfidf(terms, i)`; with a callback there is exactly one call per document, in index order, with `(i, score, key)` |

## Left out

- **Floating point.**
  - `Math.log` is an uninterpreted function on `real`, and no fact about its values is assumed.
  - Scores are exact reals, so IEEE rounding, infinities and `NaN` arithmetic are not modelled. The one `NaN` the Dice code produces is the error `NotANumber`.
- Dice.LetterPairs: strings are modelled as sequences of Unicode code points, not of UTF-16 code units as JavaScript's `length` and `substring` count them, so a word holding a character outside the Basic Multilingual Plane gives different pairs (JavaScript splits such a character into its two surrogate halves; `compare` of two equal one-emoji strings is 1 there and `Err(NotANumber)` here).
- **Unicode case mapping.** `toLowerCase` is modelled as ASCII lower-casing only. `\s` is the ECMAScript whitespace set, and `\W` is `[^A-Za-z0-9_]`, as without the `u` flag. No regular-expression engine is modelled.
- **Collaborators.** The tokenizer and the stopword list are parameters of the corpus, standing in for the module globals `tokenizer` and `stopwords`. The `AbstractTokenizer` base class and the `goog.provide`, `goog.require`, `goog.inherits` and `goog.base` plumbing are not part of this model.
- **The broken constructor.** The constructor body (tfidf.js:34-36) refers to identifiers that do not exist; the model has an empty-corpus constructor instead.
- **Dead code.** The unused counting loop in `idf` (tfidf.js:81-84), the discarded loop in `tfidf` (tfidf.js:105-108) and `stopOut = false` after `return` (tfidf.js:48) are not modelled.
- **JavaScript object quirks.**
  - a term spelled `__key` colliding with the key property;
  - property names inherited from `Object.prototype` (`constructor`, `toString`), which `document[term]` would read;
  - non-numeric values in a pre-built document.

  Documents map strings to integers, and the key is a separate field.
- **Inputs.**
  - Array input to `addDocument` is an array of strings;
  - a pre-built input is a frequency map;
  - other values, which `buildDocument` returns unchanged (tfidf.js:46-47) and `addDocument` pushes, are not modelled. A number would act as an empty document without a key: `document[term]` on it is `undefined`, so `tf` gives 0 and `documentHasTerm` is false, and `for…in` visits nothing. `null` or `undefined` would make `tf` and the `reduce` in `idf` (through `documentHasTerm`, tfidf.js:71 and 86) throw `TypeError`.
- TfIdf.Corpus.ListTerms: the enumeration order of `for…in` is left open, so the loop picks any remaining property. The sort is a stable insertion on a sequence, so the engine's own tie order and the in-place update of the array are not modelled.
- TfIdf.Corpus.ListTerms: the row for `__key` is scored from the term counts only. The source multiplies the key value (or 0 when it is falsy) by idf, which is `NaN` for a non-numeric key.
- TfIdf.Corpus.TfIdfs: the callback's own effects are not modelled, including any change it makes to the corpus while the loop runs. Only the ordered trace of `(index, score, key)` calls is recorded, and `hasCallback` stands for the callback being truthy.
- Dice.CountMatches: `delete pairs2[j]` is modelled as a consumed flag on an immutable sequence. The hole it leaves equals no pair, so the matching is the same, but the in-place update of the array is not modelled.
- **Indices.** The document index `d` of `tfidf` and `listTerms` is an integer. Other JavaScript property keys are not modelled.
