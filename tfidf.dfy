/** The TF-IDF engine: an append-only corpus of documents, each a map
    from term to count plus the key it was added under, and the scores
    computed from it on demand. The tokenizer, the stopword list and
    `Math.log` are collaborators the corpus is constructed with. */
module TfIdf {
  import opened Wrappers
  import opened JsStrings

  /** A document: the count of every term, and its `__key` property
      (absent for a pre-built document that had none). The source keeps the
      key inside the same object as the counts; here it is a field of its
      own. */
  datatype Document<K> = Document(counts: map<string, int>, key: Option<K>)

  /** What `addDocument` accepts: raw text, an array of terms, or a
      pre-built frequency map. */
  datatype Input<K> = Text(text: string) | Terms(terms: seq<string>) | Prebuilt(document: Document<K>)

  /** One row of `listTerms`. */
  datatype Entry = Entry(term: string, tfidf: real)

  /** One invocation of the `tfidfs` callback. */
  datatype Call<K> = Call(index: nat, score: real, key: Option<K>)

  /** `tf` on a document index that holds no document reads a property of
      `undefined`. */
  datatype TfIdfError = TypeError

  // ---------------------------------------------------------------------
  // buildDocument

  /** The counts `buildDocument` is meant to produce: every term of `terms`
      that is not filtered out, mapped to its number of occurrences. */
  function Tally(terms: seq<string>, stopwords: seq<string>, stopOut: bool): map<string, int> {
    map t | t in terms && !(stopOut && t in stopwords) :: multiset(terms)[t]
  }

  /** One more term either bumps its count (starting from 1) or, when it
      is filtered out, changes nothing. */
  lemma TallySnoc(terms: seq<string>, stopwords: seq<string>, stopOut: bool, term: string)
    ensures var before := Tally(terms, stopwords, stopOut);
      Tally(terms + [term], stopwords, stopOut)
        == if stopOut && term in stopwords then before
           else before[term := if term in before then before[term] + 1 else 1]
  {
    var before := Tally(terms, stopwords, stopOut);
    var after := Tally(terms + [term], stopwords, stopOut);
    assert multiset(terms + [term]) == multiset(terms) + multiset{term};
    assert forall t :: t in terms + [term] <==> t in terms || t == term;
    if stopOut && term in stopwords {
      assert after.Keys == before.Keys;
    } else {
      var expected := before[term := if term in before then before[term] + 1 else 1];
      assert after.Keys == expected.Keys;
      assert forall t :: t in after ==> after[t] == expected[t];
    }
  }

  /** The document `buildDocument(input, key)` returns: a string is
      lower-cased, tokenized and counted with stopwords left out; an array
      is counted as it is, without the filter; anything else is returned
      untouched, without a key. */
  function DocumentOf<K>(tokenize: string -> seq<string>, stopwords: seq<string>,
                         input: Input<K>, key: K): Document<K>
  {
    match input
    case Text(text) => Document(Tally(tokenize(Lower(text)), stopwords, true), Some(key))
    case Terms(terms) => Document(Tally(terms, stopwords, false), Some(key))
    case Prebuilt(document) => document
  }

  /** `buildDocument`: text is lower-cased and tokenized and has its
      stopwords filtered out, an array is counted as it is, and anything
      else is handed back unchanged. */
  method BuildDocument<K>(tokenize: string -> seq<string>, stopwords: seq<string>,
                          input: Input<K>, key: K) returns (document: Document<K>)
    ensures document == DocumentOf(tokenize, stopwords, input, key)
  {
    match input {
      case Prebuilt(d) =>
        return d;
      case Text(text) =>
        var counts := CountTerms(tokenize(Lower(text)), stopwords, true);
        return Document(counts, Some(key));
      case Terms(terms) =>
        var counts := CountTerms(terms, stopwords, false);
        return Document(counts, Some(key));
    }
  }

  /** The `reduce` of `buildDocument`: each term not filtered out bumps its
      count, starting from 1. */
  method CountTerms(terms: seq<string>, stopwords: seq<string>, stopOut: bool)
    returns (counts: map<string, int>)
    ensures counts == Tally(terms, stopwords, stopOut)
  {
    counts := map[];
    for i := 0 to |terms|
      invariant counts == Tally(terms[..i], stopwords, stopOut)
    {
      var term := terms[i];
      TallySnoc(terms[..i], stopwords, stopOut, term);
      assert terms[..i + 1] == terms[..i] + [term];
      if !stopOut || term !in stopwords {
        counts := counts[term := if term in counts then counts[term] + 1 else 1];
      }
    }
    assert terms[..|terms|] == terms;
  }

  /** Built from text: a term's count is its number of occurrences among
      the tokens of the lower-cased text, a stopword has no entry, every
      count is at least 1, and the key is attached. */
  lemma TextDocument<K>(tokenize: string -> seq<string>, stopwords: seq<string>,
                        text: string, key: K, term: string)
    ensures var d := DocumentOf(tokenize, stopwords, Text(text), key);
      && d.key == Some(key)
      && (term in stopwords ==> term !in d.counts && Tf(term, d) == 0)
      && (term !in stopwords ==> Tf(term, d) == multiset(tokenize(Lower(text)))[term])
      && (forall t :: t in d.counts ==> d.counts[t] >= 1)
  {
    var d := DocumentOf(tokenize, stopwords, Text(text), key);
    var tokens := tokenize(Lower(text));
    if term !in stopwords && term !in tokens {
      assert multiset(tokens)[term] == 0;
    }
  }

  /** Built from an array: no stopword filter applies. */
  lemma TermsDocument<K>(tokenize: string -> seq<string>, stopwords: seq<string>,
                         terms: seq<string>, key: K, term: string)
    ensures var d := DocumentOf(tokenize, stopwords, Terms(terms), key);
      && d.key == Some(key)
      && Tf(term, d) == multiset(terms)[term]
      && (forall t :: t in d.counts ==> d.counts[t] >= 1)
  {
    if term !in terms {
      assert multiset(terms)[term] == 0;
    }
  }

  /** Each further occurrence of a term that is not filtered out raises its
      `tf` by exactly one. */
  lemma TfGrowsByOne<K>(terms: seq<string>, stopwords: seq<string>, stopOut: bool, term: string, key: K)
    requires !(stopOut && term in stopwords)
    ensures Tf(term, Document(Tally(terms + [term], stopwords, stopOut), Some(key)))
      == Tf(term, Document(Tally(terms, stopwords, stopOut), Some(key))) + 1
  {
    TallySnoc(terms, stopwords, stopOut, term);
  }

  // ---------------------------------------------------------------------
  // tf, documentHasTerm, idf

  /** `tf(term, document)`: `document[term] || 0`. */
  function Tf<K>(term: string, document: Document<K>): (r: int)
    ensures r != 0 <==> term in document.counts && document.counts[term] != 0
  {
    if term in document.counts then document.counts[term] else 0
  }

  /** `documentHasTerm`: `document[term] && document[term] > 0`. */
  predicate DocumentHasTerm<K>(term: string, document: Document<K>)
    ensures DocumentHasTerm(term, document) <==> Tf(term, document) > 0
  {
    term in document.counts && document.counts[term] > 0
  }

  /** The `reduce` in `idf`: 1 plus one for every document holding the
      term. */
  function DocsWithTerm<K>(documents: seq<Document<K>>, term: string): (r: nat)
    ensures 1 <= r <= |documents| + 1
    ensures r == 1 <==> forall i :: 0 <= i < |documents| ==> !DocumentHasTerm(term, documents[i])
    ensures r == |documents| + 1 <==> forall i :: 0 <= i < |documents| ==> DocumentHasTerm(term, documents[i])
    decreases |documents|
  {
    if |documents| == 0 then 1
    else
      var n := |documents| - 1;
      assert forall i :: 0 <= i < n ==> documents[..n][i] == documents[i];
      DocsWithTerm(documents[..n], term) + (if DocumentHasTerm(term, documents[n]) then 1 else 0)
  }

  /** The indices of the documents holding a term. */
  function Holders<K>(documents: seq<Document<K>>, term: string): set<nat> {
    set i: nat | i < |documents| && DocumentHasTerm(term, documents[i])
  }

  /** `docsWithTerm` is one more than the number of documents holding the
      term. */
  lemma {:induction false} DocsWithTermCounts<K>(documents: seq<Document<K>>, term: string)
    ensures DocsWithTerm(documents, term) == 1 + |Holders(documents, term)|
    decreases |documents|
  {
    if |documents| > 0 {
      var n := |documents| - 1;
      var init := documents[..n];
      DocsWithTermCounts(init, term);
      HoldersSnoc(documents, term);
    }
  }

  lemma HoldersSnoc<K>(documents: seq<Document<K>>, term: string)
    requires |documents| > 0
    ensures var n := |documents| - 1;
      |Holders(documents, term)| == |Holders(documents[..n], term)|
        + (if DocumentHasTerm(term, documents[n]) then 1 else 0)
  {
    var n := |documents| - 1;
    var init := documents[..n];
    assert forall i :: 0 <= i < n ==> init[i] == documents[i];
    var extra: set<nat> := if DocumentHasTerm(term, documents[n]) then {n} else {};
    assert Holders(documents, term) == Holders(init, term) + extra;
    assert n !in Holders(init, term);
  }

  /** Adding a document raises `docsWithTerm` by one exactly when the new
      document holds the term. */
  lemma DocsWithTermSnoc<K>(documents: seq<Document<K>>, document: Document<K>, term: string)
    ensures DocsWithTerm(documents + [document], term)
      == DocsWithTerm(documents, term) + (if DocumentHasTerm(term, document) then 1 else 0)
  {
    assert (documents + [document])[..|documents|] == documents;
  }

  /** The argument `idf` passes to `Math.log`. Under JavaScript precedence
      `this.documents.length + 1 / docsWithTerm` adds the reciprocal to the
      corpus size. */
  function IdfArgument<K>(documents: seq<Document<K>>, term: string): (r: real)
    ensures r > 0.0
  {
    |documents| as real + 1.0 / DocsWithTerm(documents, term) as real
  }

  /** `idf`: the logarithm of the argument above. */
  function Idf<K>(documents: seq<Document<K>>, log: real -> real, term: string): (r: real)
    ensures |documents| == 0 ==> r == log(1.0)
    ensures (forall i :: 0 <= i < |documents| ==> !DocumentHasTerm(term, documents[i]))
      ==> r == log(|documents| as real + 1.0)
  {
    log(IdfArgument(documents, term))
  }

  /** The argument of the logarithm lies in `(n, n + 1]` for a corpus of
      `n` documents: it is `n + 1` exactly when no document holds the term,
      and `1` for the empty corpus. */
  lemma IdfArgumentBounds<K>(documents: seq<Document<K>>, term: string)
    ensures |documents| as real < IdfArgument(documents, term) <= |documents| as real + 1.0
    ensures IdfArgument(documents, term) == |documents| as real + 1.0
      <==> forall i :: 0 <= i < |documents| ==> !DocumentHasTerm(term, documents[i])
    ensures |documents| == 0 ==> IdfArgument(documents, term) == 1.0
  {
    var d := DocsWithTerm(documents, term) as real;
    ReciprocalBounds(d);
  }

  lemma ReciprocalBounds(d: real)
    requires d >= 1.0
    ensures 0.0 < 1.0 / d <= 1.0
    ensures 1.0 / d == 1.0 <==> d == 1.0
  {
    if 1.0 / d == 1.0 {
      assert d * (1.0 / d) == 1.0;
    }
  }

  /** The argument as written is always above the ratio
      `length / docsWithTerm` that the smoothing comment describes. */
  lemma IdfArgumentAboveRatio<K>(documents: seq<Document<K>>, term: string)
    ensures IdfArgument(documents, term) > |documents| as real / DocsWithTerm(documents, term) as real
  {
    var n := |documents| as real;
    var d := DocsWithTerm(documents, term) as real;
    ReciprocalBounds(d);
    QuotientAtMost(n, d);
  }

  lemma QuotientAtMost(n: real, d: real)
    requires n >= 0.0 && d >= 1.0
    ensures n / d <= n
  {
    var q := n / d;
    assert q * d == n;
    assert q >= 0.0;
    assert q * (d - 1.0) >= 0.0;
  }

  /** Adding any document raises the argument of the logarithm: by exactly
      one when the new document lacks the term, and by less than one but
      more than zero when it holds it. Rarity therefore does not lower
      the argument the way the smoothing comment intends. */
  lemma IdfArgumentGrows<K>(documents: seq<Document<K>>, document: Document<K>, term: string)
    ensures !DocumentHasTerm(term, document) ==>
      IdfArgument(documents + [document], term) == IdfArgument(documents, term) + 1.0
    ensures DocumentHasTerm(term, document) ==>
      IdfArgument(documents + [document], term) < IdfArgument(documents, term) + 1.0
    ensures IdfArgument(documents, term) < IdfArgument(documents + [document], term)
      <= IdfArgument(documents, term) + 1.0
  {
    DocsWithTermSnoc(documents, document, term);
    var d := DocsWithTerm(documents, term) as real;
    if DocumentHasTerm(term, document) {
      ReciprocalStep(d);
    }
  }

  lemma ReciprocalStep(d: real)
    requires d >= 1.0
    ensures 0.0 < 1.0 + 1.0 / (d + 1.0) - 1.0 / d < 1.0
  {
    assert 1.0 / (d + 1.0) < 1.0 / d by {
      assert (1.0 / (d + 1.0)) * (d + 1.0) == 1.0;
      assert (1.0 / d) * d == 1.0;
    }
    assert 1.0 / d <= 1.0 by {
      assert (1.0 / d) * d == 1.0;
    }
    assert 0.0 < 1.0 / (d + 1.0);
  }

  // ---------------------------------------------------------------------
  // tfidf

  /** The score one term contributes: `tf(term, document) * idf(term)`. */
  function TermScore<K>(documents: seq<Document<K>>, log: real -> real,
                        term: string, document: Document<K>): real {
    Tf(term, document) as real * Idf(documents, log, term)
  }

  /** The `reduce` in `tfidf` over a document that exists: the running sum
      of the term scores, one term at a time. */
  function Sum<K>(documents: seq<Document<K>>, log: real -> real,
                  terms: seq<string>, document: Document<K>): real
    decreases |terms|
  {
    if |terms| == 0 then 0.0
    else
      var n := |terms| - 1;
      Sum(documents, log, terms[..n], document) + TermScore(documents, log, terms[n], document)
  }

  /** `tfidf(terms, d)`: the sum for document `d`. With no document at
      `d` the first `tf` throws, so only an empty term list gets through
      (the `reduce` then never calls it). */
  function TfIdf<K>(documents: seq<Document<K>>, log: real -> real,
                    terms: seq<string>, d: int): (r: Result<real, TfIdfError>)
    ensures r.Err? <==> |terms| > 0 && !(0 <= d < |documents|)
    ensures |terms| == 0 ==> r == Ok(0.0)
  {
    if 0 <= d < |documents| then Ok(Sum(documents, log, terms, documents[d]))
    else if |terms| == 0 then Ok(0.0)
    else Err(TypeError)
  }

  /** The sum of two term lists joined is the sum of the two. */
  lemma {:induction false} SumConcat<K>(documents: seq<Document<K>>, log: real -> real,
                                        a: seq<string>, b: seq<string>, document: Document<K>)
    ensures Sum(documents, log, a + b, document)
      == Sum(documents, log, a, document) + Sum(documents, log, b, document)
    decreases |b|
  {
    if |b| > 0 {
      var n := |b| - 1;
      assert (a + b)[..|a + b| - 1] == a + b[..n];
      SumConcat(documents, log, a, b[..n], document);
    } else {
      assert a + b == a;
    }
  }

  /** Two terms contribute independently: `tfidf([t1, t2], d)` is
      `tf(t1) * idf(t1) + tf(t2) * idf(t2)`. */
  lemma SumOfTwo<K>(documents: seq<Document<K>>, log: real -> real,
                    t1: string, t2: string, document: Document<K>)
    ensures Sum(documents, log, [t1, t2], document)
      == TermScore(documents, log, t1, document) + TermScore(documents, log, t2, document)
  {
    assert [t1, t2][..1] == [t1];
    assert [t1][..0] == [];
    assert Sum(documents, log, [t1], document) == TermScore(documents, log, t1, document);
  }

  /** Each occurrence of a term counts: the order of the list does not
      matter, only how often each term appears in it. */
  lemma {:induction false} SumPermutation<K>(documents: seq<Document<K>>, log: real -> real,
                                             a: seq<string>, b: seq<string>, document: Document<K>)
    requires multiset(a) == multiset(b)
    ensures Sum(documents, log, a, document) == Sum(documents, log, b, document)
    decreases |a|
  {
    if |a| > 0 {
      var n := |a| - 1;
      var x := a[n];
      assert a == a[..n] + [x];
      assert x in multiset(b);
      var k :| 0 <= k < |b| && b[k] == x;
      var rest := b[..k] + b[k + 1..];
      assert b == b[..k] + [x] + b[k + 1..];
      MultisetOfSplice(b[..k], x, b[k + 1..]);
      assert multiset(a) == multiset(a[..n]) + multiset{x};
      MultisetCancel(multiset(a[..n]), multiset(rest), x);
      SumPermutation(documents, log, a[..n], rest, document);
      SumConcat(documents, log, b[..k], b[k + 1..], document);
      SumConcat(documents, log, b[..k] + [x], b[k + 1..], document);
      SumConcat(documents, log, b[..k], [x], document);
      assert [x][..0] == [];
    }
  }

  lemma MultisetOfSplice<T>(p: seq<T>, y: T, q: seq<T>)
    ensures multiset(p + [y] + q) == multiset(p + q) + multiset{y}
  {
    assert multiset(p + [y] + q) == multiset(p) + multiset{y} + multiset(q);
  }

  lemma MultisetCancel<T>(p: multiset<T>, q: multiset<T>, x: T)
    requires p + multiset{x} == q + multiset{x}
    ensures p == q
  {
    assert forall y :: p[y] == (p + multiset{x})[y] - multiset{x}[y];
    assert forall y :: q[y] == (q + multiset{x})[y] - multiset{x}[y];
  }

  /** Terms the document does not hold add nothing. */
  lemma {:induction false} SumOfAbsent<K>(documents: seq<Document<K>>, log: real -> real,
                                          terms: seq<string>, document: Document<K>)
    requires forall k :: 0 <= k < |terms| ==> terms[k] !in document.counts
    ensures Sum(documents, log, terms, document) == 0.0
    decreases |terms|
  {
    if |terms| > 0 {
      SumOfAbsent(documents, log, terms[..|terms| - 1], document);
    }
  }

  // ---------------------------------------------------------------------
  // listTerms ordering

  /** The terms of a list of rows, in order. */
  function TermsOf(entries: seq<Entry>): (r: seq<string>)
    ensures |r| == |entries|
    ensures forall k :: 0 <= k < |entries| ==> r[k] == entries[k].term
    decreases |entries|
  {
    if |entries| == 0 then []
    else TermsOf(entries[..|entries| - 1]) + [entries[|entries| - 1].term]
  }

  lemma {:induction false} TermsOfConcat(a: seq<Entry>, b: seq<Entry>)
    ensures TermsOf(a + b) == TermsOf(a) + TermsOf(b)
  {
    assert |TermsOf(a + b)| == |TermsOf(a) + TermsOf(b)|;
    assert forall k :: 0 <= k < |a + b| ==> TermsOf(a + b)[k] == (TermsOf(a) + TermsOf(b))[k];
  }

  /** Scores never increase along the list. */
  predicate Descending(entries: seq<Entry>) {
    forall j, k :: 0 <= j < k < |entries| ==> entries[j].tfidf >= entries[k].tfidf
  }

  /** Inserts a row after every row that scores at least as much, which is
      where the comparator `y.tfidf - x.tfidf` keeps it when the order is
      stable. */
  function Insert(sorted: seq<Entry>, e: Entry): (r: seq<Entry>)
    requires Descending(sorted)
    ensures Descending(r)
    ensures multiset(r) == multiset(sorted) + multiset{e}
    ensures r[0] == e || (|sorted| > 0 && r[0] == sorted[0])
    decreases |sorted|
  {
    if |sorted| == 0 then [e]
    else if sorted[0].tfidf < e.tfidf then
      DescendingCons(e, sorted);
      [e] + sorted
    else
      var rest := Insert(sorted[1..], e);
      assert sorted == [sorted[0]] + sorted[1..];
      DescendingCons(sorted[0], rest);
      [sorted[0]] + rest
  }

  /** A row scoring at least the head of a descending list may go before it. */
  lemma DescendingCons(x: Entry, rest: seq<Entry>)
    requires Descending(rest)
    requires |rest| == 0 || x.tfidf >= rest[0].tfidf
    ensures Descending([x] + rest)
  {
    var r := [x] + rest;
    forall j, k | 0 <= j < k < |r| ensures r[j].tfidf >= r[k].tfidf {
      if j > 0 {
        assert r[j] == rest[j - 1] && r[k] == rest[k - 1];
      } else {
        assert r[k] == rest[k - 1];
      }
    }
  }

  /** In a one-document corpus holding "a" three times and "b" once, "a"
      scores above "b" whenever the shared idf is positive, so `listTerms`
      ranks it first. */
  lemma HigherCountRanksFirst<K>(documents: seq<Document<K>>, log: real -> real)
    requires |documents| == 1 && documents[0].counts == map["a" := 3, "b" := 1]
    requires log(1.5) > 0.0
    ensures TfIdf(documents, log, ["a"], 0).Ok? && TfIdf(documents, log, ["b"], 0).Ok?
    ensures TfIdf(documents, log, ["a"], 0).value > TfIdf(documents, log, ["b"], 0).value
  {
    var d := documents[0];
    assert DocumentHasTerm("a", d) && DocumentHasTerm("b", d);
    assert IdfArgument(documents, "a") == 1.5;
    assert IdfArgument(documents, "b") == 1.5;
    assert ["a"][..0] == [] && ["b"][..0] == [];
    assert Sum(documents, log, ["a"], d) == 3.0 * log(1.5);
    assert Sum(documents, log, ["b"], d) == 1.0 * log(1.5);
  }

  /** The `listTerms` example in full: in any list that is sorted by
      descending score and scores each row `tfidf([term], 0)` on that
      corpus, as `Corpus.ListTerms(0)` returns, the row for "a" comes
      before the row for "b". */
  lemma ListedHigherCountFirst<K>(documents: seq<Document<K>>, log: real -> real,
                                  entries: seq<Entry>, j: nat, k: nat)
    requires |documents| == 1 && documents[0].counts == map["a" := 3, "b" := 1]
    requires log(1.5) > 0.0
    requires Descending(entries)
    requires forall i :: 0 <= i < |entries| ==>
      Ok(entries[i].tfidf) == TfIdf(documents, log, [entries[i].term], 0)
    requires j < |entries| && entries[j].term == "a"
    requires k < |entries| && entries[k].term == "b"
    ensures j < k
  {
    HigherCountRanksFirst(documents, log);
  }

  /** The set of property names `for (var term in document)` visits: the
      terms, and `__key` when the document has one. */
  function Properties<K>(document: Document<K>): set<string> {
    document.counts.Keys + (if document.key.Some? then {"__key"} else {})
  }

  // ---------------------------------------------------------------------
  // The corpus

  class Corpus<K> {
    /** The documents, in the order they were added. */
    var documents: seq<Document<K>>
    const tokenize: string -> seq<string>
    const stopwords: seq<string>
    const log: real -> real

    /** An empty corpus. */
    constructor(tokenize: string -> seq<string>, stopwords: seq<string>, log: real -> real)
      ensures documents == []
      ensures this.tokenize == tokenize && this.stopwords == stopwords && this.log == log
    {
      documents := [];
      this.tokenize := tokenize;
      this.stopwords := stopwords;
      this.log := log;
    }

    /** `addDocument`: appends the built document; earlier documents stay
        as they were. */
    method AddDocument(input: Input<K>, key: K)
      modifies this
      ensures documents == old(documents) + [DocumentOf(tokenize, stopwords, input, key)]
    {
      var document := BuildDocument(tokenize, stopwords, input, key);
      documents := documents + [document];
    }

    /** `listTerms(d)`: one row per property of document `d`, scored with
        `tfidf([term], d)`, sorted by descending score. An index that holds
        no document has no properties to visit. */
    method ListTerms(d: int) returns (entries: seq<Entry>)
      ensures !(0 <= d < |documents|) ==> entries == []
      ensures 0 <= d < |documents| ==>
        multiset(TermsOf(entries)) == multiset(Properties(documents[d]))
      ensures forall k :: 0 <= k < |entries| ==>
        Ok(entries[k].tfidf) == TfIdf(documents, log, [entries[k].term], d)
      ensures Descending(entries)
    {
      if !(0 <= d < |documents|) {
        return [];
      }
      var unsorted := ScoreProperties(d);
      entries := SortByScore(unsorted);
      forall k | 0 <= k < |entries|
        ensures Ok(entries[k].tfidf) == TfIdf(documents, log, [entries[k].term], d)
      {
        assert entries[k] in multiset(unsorted);
      }
      TermsOfPermutation(unsorted, entries);
    }

    /** The `for…in` loop of `listTerms`: a row for every property of
        document `d`, in whatever order the properties are visited. */
    method ScoreProperties(d: int) returns (unsorted: seq<Entry>)
      requires 0 <= d < |documents|
      ensures |unsorted| == |Properties(documents[d])|
      ensures forall k :: 0 <= k < |unsorted| ==> unsorted[k].term in Properties(documents[d])
      ensures multiset(TermsOf(unsorted)) == multiset(Properties(documents[d]))
      ensures forall k :: 0 <= k < |unsorted| ==>
        Ok(unsorted[k].tfidf) == TfIdf(documents, log, [unsorted[k].term], d)
    {
      var remaining := Properties(documents[d]);
      unsorted := [];
      while remaining != {}
        invariant remaining <= Properties(documents[d])
        invariant |unsorted| + |remaining| == |Properties(documents[d])|
        invariant forall k :: 0 <= k < |unsorted| ==> unsorted[k].term in Properties(documents[d])
        invariant multiset(TermsOf(unsorted)) + multiset(remaining) == multiset(Properties(documents[d]))
        invariant forall k :: 0 <= k < |unsorted| ==>
          Ok(unsorted[k].tfidf) == TfIdf(documents, log, [unsorted[k].term], d)
        decreases remaining
      {
        var term :| term in remaining;
        var score := TfIdf(documents, log, [term], d);
        var e := Entry(term, score.value);
        VisitOne(unsorted, e, remaining);
        unsorted := unsorted + [e];
        remaining := remaining - {e.term};
      }
    }

    /** `tfidfs(terms, callback)`: the score of every document in index
        order, and, when a callback is given, one call `(i, score, key)` per
        document in the same order. */
    method TfIdfs(terms: seq<string>, hasCallback: bool) returns (scores: seq<real>, calls: seq<Call<K>>)
      ensures |scores| == |documents|
      ensures forall i :: 0 <= i < |documents| ==> Ok(scores[i]) == TfIdf(documents, log, terms, i)
      ensures hasCallback ==> (|calls| == |documents|
        && forall i :: 0 <= i < |documents| ==> calls[i] == Call(i, scores[i], documents[i].key))
      ensures !hasCallback ==> calls == []
    {
      var n := |documents|;
      var tfidfs := new real[n];
      calls := [];
      for i := 0 to n
        invariant forall k :: 0 <= k < i ==> Ok(tfidfs[k]) == TfIdf(documents, log, terms, k)
        invariant hasCallback ==> (|calls| == i
          && forall k :: 0 <= k < i ==> calls[k] == Call(k, tfidfs[k], documents[k].key))
        invariant !hasCallback ==> calls == []
      {
        tfidfs[i] := TfIdf(documents, log, terms, i).value;
        if hasCallback {
          calls := calls + [Call(i, tfidfs[i], documents[i].key)];
        }
      }
      scores := tfidfs[..];
    }
  }

  /** `Array.prototype.sort` with the comparator `y.tfidf - x.tfidf`:
      the rows rearranged into descending order of score. */
  method SortByScore(entries: seq<Entry>) returns (sorted: seq<Entry>)
    ensures multiset(sorted) == multiset(entries)
    ensures Descending(sorted)
  {
    sorted := [];
    for i := 0 to |entries|
      invariant multiset(sorted) == multiset(entries[..i])
      invariant Descending(sorted)
    {
      assert entries[..i + 1] == entries[..i] + [entries[i]];
      sorted := Insert(sorted, entries[i]);
    }
    assert entries[..|entries|] == entries;
  }

  /** Moving one name from the names still to visit to the rows keeps
      their combined multiset. */
  lemma VisitOne(unsorted: seq<Entry>, e: Entry, remaining: set<string>)
    requires e.term in remaining
    ensures multiset(TermsOf(unsorted + [e])) + multiset(remaining - {e.term})
      == multiset(TermsOf(unsorted)) + multiset(remaining)
  {
    TermsOfConcat(unsorted, [e]);
    assert TermsOf([e]) == [e.term];
    assert multiset(remaining) == multiset(remaining - {e.term}) + multiset{e.term};
  }

  /** Rearranging rows rearranges their terms alike. */
  lemma {:induction false} TermsOfPermutation(a: seq<Entry>, b: seq<Entry>)
    requires multiset(a) == multiset(b)
    ensures multiset(TermsOf(a)) == multiset(TermsOf(b))
    decreases |a|
  {
    if |a| > 0 {
      var n := |a| - 1;
      var x := a[n];
      assert a == a[..n] + [x];
      assert x in multiset(b);
      var k :| 0 <= k < |b| && b[k] == x;
      var rest := b[..k] + b[k + 1..];
      assert b == b[..k] + [x] + b[k + 1..];
      MultisetOfSplice(b[..k], x, b[k + 1..]);
      assert multiset(a) == multiset(a[..n]) + multiset{x};
      MultisetCancel(multiset(a[..n]), multiset(rest), x);
      TermsOfPermutation(a[..n], rest);
      var pre, post := TermsOf(b[..k]), TermsOf(b[k + 1..]);
      assert TermsOf([x]) == [x.term];
      TermsOfConcat(a[..n], [x]);
      TermsOfConcat(b[..k] + [x], b[k + 1..]);
      TermsOfConcat(b[..k], [x]);
      TermsOfConcat(b[..k], b[k + 1..]);
      assert TermsOf(a) == TermsOf(a[..n]) + [x.term];
      assert TermsOf(b) == pre + [x.term] + post;
      assert TermsOf(rest) == pre + post;
      MultisetOfSplice(pre, x.term, post);
    }
  }
}
