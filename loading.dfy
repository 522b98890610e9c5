/**
 * Turning a query into a vector over the vocabulary (`process_input`,
 * src/loading.rs). Walking directories and reading files are left out.
 */
module Loading {
  import opened Wrappers
  import opened TextProcess
  import opened Calculations
  import opened Model

  /** The vector a query stands for: at the position of every vocabulary word
      the query holds, that word's weight; 0 everywhere else. It has one entry
      per weight. */
  function QueryVector(query: seq<string>, words: seq<string>, idf: seq<real>): (v: seq<real>)
    ensures |v| == |idf|
  {
    seq(|idf|, c requires 0 <= c < |idf| => if c < |words| && words[c] in query then idf[c] else 0.0)
  }

  /** The weights reach every vocabulary position the query hits: otherwise
      `idf_vals[c]` is out of bounds and the program panics. */
  predicate WeightsCoverQuery(query: seq<string>, words: seq<string>, idf: seq<real>)
  {
    forall c :: 0 <= c < |words| && words[c] in query ==> c < |idf|
  }

  /** `process_input`: an empty query is an error; otherwise start from zeros
      and, for every vocabulary word the query contains, add the word's weight
      once at the word's position. */
  method ProcessInput(query: seq<string>, vocab: Vocabulary, idf: seq<real>) returns (r: Result<seq<real>>)
    requires WeightsCoverQuery(query, vocab.words, idf)
    ensures r.Err? <==> |query| == 0
    ensures r.Err? ==> r.error == "Empty query"
    ensures r.Ok? ==> r.value == QueryVector(query, vocab.words, idf)
  {
    if |query| == 0 {
      return Err("Empty query");
    }
    var testVec := seq(|idf|, _ => 0.0);
    for c := 0 to |vocab.words|
      invariant |testVec| == |idf|
      invariant forall k :: 0 <= k < |idf| ==>
        testVec[k] == if k < c && vocab.words[k] in query then idf[k] else 0.0
    {
      if vocab.words[c] in query {
        testVec := testVec[c := testVec[c] + 1.0 * idf[c]];
      }
    }
    return Ok(testVec);
  }

  /** Only which words the query holds matters: repeating a word or
      reordering the query gives the same vector. */
  lemma {:induction false} QueryVectorBySet(q1: seq<string>, q2: seq<string>, words: seq<string>, idf: seq<real>)
    requires forall w :: w in q1 <==> w in q2
    ensures QueryVector(q1, words, idf) == QueryVector(q2, words, idf)
  {
    var v1, v2 := QueryVector(q1, words, idf), QueryVector(q2, words, idf);
    forall c | 0 <= c < |idf| ensures v1[c] == v2[c] {
      if c < |words| {
        assert words[c] in q1 <==> words[c] in q2;
      }
    }
  }

  /** A query that shares no word with the vocabulary is the zero vector. */
  lemma OutOfVocabularyIsZero(query: seq<string>, words: seq<string>, idf: seq<real>)
    requires forall w :: w in query ==> w !in words
    ensures IsZero(QueryVector(query, words, idf))
  {
    var v := QueryVector(query, words, idf);
    forall c | 0 <= c < |v| ensures v[c] == 0.0 {
      if c < |words| {
        assert words[c] in words;
      }
    }
  }

  /** Such a query is similar to no document, so it ranks none of them. */
  lemma OutOfVocabularyRanksNothing(query: seq<string>, words: seq<string>, idf: seq<real>,
                                    tfIdf: seq<seq<real>>, sqrt: real -> real)
    requires SqrtPositive(sqrt)
    requires forall w :: w in query ==> w !in words
    ensures Ranking(Similarities(QueryVector(query, words, idf), tfIdf, sqrt)) == []
  {
    var v := QueryVector(query, words, idf);
    OutOfVocabularyIsZero(query, words, idf);
    var sims := Similarities(v, tfIdf, sqrt);
    forall i | 0 <= i < |sims| ensures sims[i] == 0.0 {
      CosineWithZero(tfIdf[i], v, sqrt);
    }
    RankingEmpty(sims);
  }

  /** A document used as its own query is ranked: the query holds one of
      its words whose weight is not zero, so the similarity is positive. */
  lemma OwnDocumentRanked(m: Model, corpus: seq<seq<string>>, ln: real -> real, sqrt: real -> real,
                          i: nat, j: nat)
    requires IsModelOf(m, corpus, ln) && SqrtPositive(sqrt)
    requires i < |corpus| && j < |m.words.words|
    requires m.words.words[j] in corpus[i] && m.idf[j] != 0.0
    ensures i in Ranking(Similarities(QueryVector(corpus[i], m.words.words, m.idf), m.tfIdf, sqrt))
  {
    var q := QueryVector(corpus[i], m.words.words, m.idf);
    SelfQueryTerms(m, corpus, i);
    DotIsSumOfProducts(q, m.tfIdf[i]);
    SumPositive(Products(q, m.tfIdf[i]), j);
    assert Similarities(q, m.tfIdf, sqrt)[i] == Cosine(q, m.tfIdf[i], sqrt);
  }

  /** Term by term, a document's query vector against its TF-IDF row: no
      product is negative, and the product at a word of the document with a
      non-zero weight is positive. */
  lemma SelfQueryTerms(m: Model, corpus: seq<seq<string>>, i: nat)
    requires CountsOf(m.tf, corpus, m.words.words) && ProductOf(m.tfIdf, m.tf, m.idf)
    requires |m.idf| == |m.words.words| && i < |corpus|
    ensures var q, row := QueryVector(corpus[i], m.words.words, m.idf), m.tfIdf[i];
      && |q| == |row|
      && (forall k :: 0 <= k < |q| ==> Products(q, row)[k] >= 0.0)
      && (forall k :: 0 <= k < |q| && m.words.words[k] in corpus[i] && m.idf[k] != 0.0 ==> Products(q, row)[k] > 0.0)
  {
    var words, doc := m.words.words, corpus[i];
    var q, row := QueryVector(doc, words, m.idf), m.tfIdf[i];
    forall k | 0 <= k < |q|
      ensures Products(q, row)[k] >= 0.0
      ensures words[k] in doc && m.idf[k] != 0.0 ==> Products(q, row)[k] > 0.0
    {
      if words[k] in doc {
        TermSign(m.idf[k], m.tf[i][k], row[k], Products(q, row)[k]);
      }
    }
  }

  /** A weight times (a count times the weight) is never negative, and is
      positive for a positive count and a non-zero weight. */
  lemma TermSign(w: real, c: real, r: real, p: real)
    requires c >= 0.0 && r == c * w && p == w * r
    ensures p >= 0.0
    ensures c > 0.0 && w != 0.0 ==> p > 0.0
  {
    if c == 0.0 || w == 0.0 {
      ProductWithZero(c, w, r);
      ProductWithZero(w, r, p);
    } else if w > 0.0 {
      ProductOfPositives(c, w, r);
      ProductOfPositives(w, r, p);
    } else {
      ProductOfPositives(c, -w, -r);
      ProductOfNegatives(w, r, p);
    }
  }

  /** The unit test: a query of three whole sentences matches no single word
      of an eight-word vocabulary, so with one weight the vector is [0]. */
  method ProcessInputExample() returns (r: Result<seq<real>>)
    ensures r == Ok([0.0])
  {
    var query := ["this is some text", "and there is more", "this too"];
    var vocab := Vocabulary(["this", "is", "some", "text", "and", "there", "more", "too"],
      map["this" := 2, "is" := 2, "some" := 1, "text" := 1, "and" := 1, "there" := 1, "more" := 1, "too" := 1]);
    ExampleQueryMissesWords(query, vocab.words);
    OutOfVocabularyIsZero(query, vocab.words, [1.0]);
    var v := QueryVector(query, vocab.words, [1.0]);
    assert v == [v[0]];
    r := ProcessInput(query, vocab, [1.0]);
  }

  lemma ExampleQueryMissesWords(query: seq<string>, words: seq<string>)
    requires query == ["this is some text", "and there is more", "this too"]
    requires words == ["this", "is", "some", "text", "and", "there", "more", "too"]
    ensures forall w :: w in query ==> w !in words
  {
    forall w | w in query ensures w !in words {
      assert |w| > 4;
    }
  }

  /** The unit test: an empty query is rejected. */
  method ProcessInputEmptyExample() returns (r: Result<seq<real>>)
    ensures r == Err("Empty query")
  {
    var vocab := Vocabulary(["this", "is"], map["this" := 2, "is" := 2]);
    r := ProcessInput([], vocab, [1.0]);
  }
}
