/**
 * The trained model (`Model` and `Model::new`, src/model.rs): the term
 * counts, the word weights, their product and the vocabulary, all built from
 * one tokenised corpus.
 */
module Model {
  import opened TextProcess
  import opened Calculations

  /** The four parts of a trained model. Every matrix row is one document;
      column j of every matrix, and entry j of `idf`, belongs to the j-th word
      of `words`. */
  datatype Model = Model(tf: seq<seq<real>>, idf: seq<real>, tfIdf: seq<seq<real>>, words: Vocabulary)

  /** `m` is the model of `corpus`: the corpus's vocabulary with the counts,
      weights and products over its word order. */
  ghost predicate IsModelOf(m: Model, corpus: seq<seq<string>>, ln: real -> real)
  {
    && m.words == VocabularyOf(corpus)
    && CountsOf(m.tf, corpus, m.words.words)
    && WeightsOf(m.idf, corpus, m.words.words, ln)
    && ProductOf(m.tfIdf, m.tf, m.idf)
  }

  /** Row i, column j holds the count of word j in document i. */
  ghost predicate CountsOf(tf: seq<seq<real>>, corpus: seq<seq<string>>, words: seq<string>)
  {
    && |tf| == |corpus|
    && (forall i :: 0 <= i < |tf| ==> |tf[i]| == |words|)
    && (forall i, j :: 0 <= i < |tf| && 0 <= j < |words| ==>
          tf[i][j] == multiset(corpus[i])[words[j]] as real)
  }

  /** Entry j is the logarithm of the number of documents over one plus the
      number of occurrences of word j in the whole corpus. */
  ghost predicate WeightsOf(idf: seq<real>, corpus: seq<seq<string>>, words: seq<string>, ln: real -> real)
  {
    && |idf| == |words|
    && (forall j :: 0 <= j < |idf| ==>
          idf[j] == ln(|corpus| as real / (1.0 + multiset(Flatten(corpus))[words[j]] as real)))
  }

  /** Each cell is the count times the column's weight. */
  ghost predicate ProductOf(tfIdf: seq<seq<real>>, tf: seq<seq<real>>, idf: seq<real>)
  {
    && |tfIdf| == |tf|
    && (forall i :: 0 <= i < |tf| ==> |tf[i]| == |idf| && |tfIdf[i]| == |idf|)
    && (forall i, j :: 0 <= i < |tf| && 0 <= j < |idf| ==> tfIdf[i][j] == tf[i][j] * idf[j])
  }

  /** `Model::new`: collect the vocabulary, then the counts, the weights and
      their product. The corpus must hold a document: `tf_idf_calculation`
      reads the first row of the counts. */
  method New(corpus: seq<seq<string>>, ln: real -> real) returns (m: Model)
    requires |corpus| > 0
    ensures IsModelOf(m, corpus, ln)
  {
    var allWords := GetAllWords(corpus);
    VocabularyOfSpec(corpus);
    var tfVals := TfCalculation(corpus, allWords);
    assert CountsOf(tfVals, corpus, allWords.words);
    var idfVals := IdfCalculation(corpus, allWords, ln);
    WeightsAgree(corpus, allWords, ln);
    var tfIdfVals := TfIdfCalculation(tfVals, idfVals);
    assert ProductOf(tfIdfVals, tfVals, idfVals);
    m := Model(tfVals, idfVals, tfIdfVals, allWords);
  }

  /** The weights over the corpus's own vocabulary use the word's number of
      occurrences in the corpus. */
  lemma WeightsAgree(corpus: seq<seq<string>>, vocab: Vocabulary, ln: real -> real)
    requires vocab == VocabularyOf(corpus)
    ensures VocabularyOf(corpus).Valid()
    ensures forall w :: w in vocab.counts ==> vocab.counts[w] >= 0
    ensures WeightsOf(IdfCalculation(corpus, vocab, ln), corpus, vocab.words, ln)
  {
    VocabularyOfSpec(corpus);
    var idf := IdfCalculation(corpus, vocab, ln);
    forall j | 0 <= j < |idf|
      ensures idf[j] == ln(|corpus| as real / (1.0 + multiset(Flatten(corpus))[vocab.words[j]] as real))
    {
      assert vocab.words[j] in vocab.words;
    }
  }

  /** Every count row adds up to its document's length: each token of the
      document is counted under exactly one vocabulary word. */
  lemma TfRowSums(m: Model, corpus: seq<seq<string>>, ln: real -> real)
    requires IsModelOf(m, corpus, ln)
    ensures forall i :: 0 <= i < |corpus| ==> Sum(m.tf[i]) == |corpus[i]| as real
  {
    var words := m.words.words;
    VocabularyOfSpec(corpus);
    forall i | 0 <= i < |corpus| ensures Sum(m.tf[i]) == |corpus[i]| as real {
      CountRowSum(corpus[i], words, m.tf[i]);
      forall t | t in corpus[i] ensures t in words {
        assert t in m.words.counts;
      }
      CountSumCoversTokens(words, corpus[i]);
    }
  }

  /** A word's weight is positive exactly when one plus its number of
      occurrences in the corpus is below the number of documents, and zero
      exactly when the two are equal. */
  lemma IdfPositive(m: Model, corpus: seq<seq<string>>, ln: real -> real, j: nat)
    requires IsLnLike(ln)
    requires IsModelOf(m, corpus, ln)
    requires |corpus| > 0 && j < |m.idf|
    ensures var count := multiset(Flatten(corpus))[m.words.words[j]];
      && (m.idf[j] > 0.0 <==> 1 + count < |corpus|)
      && (m.idf[j] == 0.0 <==> 1 + count == |corpus|)
  {
    WeightsAgree(corpus, m.words, ln);
    VocabularyOfSpec(corpus);
    IdfSign(corpus, m.words, ln, j);
  }

  /** A document's TF-IDF cell is zero exactly where the document lacks the
      word or the word's weight is zero. */
  lemma TfIdfZero(m: Model, corpus: seq<seq<string>>, i: nat, j: nat)
    requires CountsOf(m.tf, corpus, m.words.words) && ProductOf(m.tfIdf, m.tf, m.idf)
    requires i < |corpus| && j < |m.words.words|
    ensures m.tfIdf[i][j] == 0.0 <==> m.words.words[j] !in corpus[i] || m.idf[j] == 0.0
  {
    var count := m.tf[i][j];
    assert count == 0.0 <==> m.words.words[j] !in corpus[i];
    ProductWithZero(count, m.idf[j], m.tfIdf[i][j]);
  }

  /** The unit test of `tf_calculation`: the rows of a three-document corpus
      sum to 4, 4 and 2, whatever the word order. */
  method TfRowSumsExample(ln: real -> real) returns (sums: seq<real>)
    ensures sums == [4.0, 4.0, 2.0]
  {
    var corpus := [["this", "is", "some", "text"], ["and", "there", "is", "more"], ["this", "too"]];
    var m := New(corpus, ln);
    TfRowSums(m, corpus, ln);
    sums := [Sum(m.tf[0]), Sum(m.tf[1]), Sum(m.tf[2])];
  }
}
