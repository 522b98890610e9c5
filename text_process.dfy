/**
 * Tokenisation and vocabulary counting (src/text_process/actions.rs).
 *
 * A token is a `string`. The stop-word list is a parameter set. The hash map
 * that `get_all_words` returns becomes a `Vocabulary`: the distinct words in
 * one fixed order, plus the map from each word to its occurrence count. Every
 * later component reads the words in that one order.
 */
module TextProcess {
  import opened Wrappers

  // ---------------------------------------------------------------------------
  // Splitting on single spaces
  // ---------------------------------------------------------------------------

  /** The pieces between single spaces, as `str::split(' ')` yields them:
      there is always at least one piece, and neighbouring spaces give
      empty pieces. */
  function Split(text: string): (pieces: seq<string>)
    ensures |pieces| > 0
    ensures forall k :: 0 <= k < |pieces| ==> ' ' !in pieces[k]
    decreases |text|
  {
    if |text| == 0 then [""]
    else
      var rest := Split(text[1..]);
      if text[0] == ' ' then [""] + rest
      else [[text[0]] + rest[0]] + rest[1..]
  }

  /** The pieces glued back together with one space between neighbours. */
  function Join(pieces: seq<string>): string
  {
    if |pieces| == 0 then ""
    else if |pieces| == 1 then pieces[0]
    else pieces[0] + " " + Join(pieces[1..])
  }

  /** Splitting loses nothing: joining the pieces gives back the text. */
  lemma {:induction false} JoinSplit(text: string)
    ensures Join(Split(text)) == text
    decreases |text|
  {
    if |text| > 0 {
      var rest := Split(text[1..]);
      JoinSplit(text[1..]);
      if text[0] == ' ' {
        assert Split(text) == [""] + rest;
        assert ([""] + rest)[1..] == rest;
        assert text == " " + text[1..];
      } else {
        var head := [text[0]] + rest[0];
        assert Split(text) == [head] + rest[1..];
        assert ([head] + rest[1..])[1..] == rest[1..];
        if |rest| == 1 {
          assert text[1..] == rest[0];
        } else {
          assert Join(rest) == rest[0] + " " + Join(rest[1..]);
          assert text == [text[0]] + text[1..];
        }
      }
    }
  }

  /** Splitting is the inverse of joining pieces that hold no space. */
  lemma {:induction false} SplitJoin(pieces: seq<string>)
    requires |pieces| > 0
    requires forall k :: 0 <= k < |pieces| ==> ' ' !in pieces[k]
    ensures Split(Join(pieces)) == pieces
    decreases |pieces|
  {
    if |pieces| == 1 {
      SplitNoSpace(pieces[0]);
    } else {
      SplitJoin(pieces[1..]);
      SplitCons(pieces[0], Join(pieces[1..]));
    }
  }

  /** A word without a space followed by one space splits off as the first piece. */
  lemma {:induction false} SplitCons(word: string, rest: string)
    requires ' ' !in word
    ensures Split(word + " " + rest) == [word] + Split(rest)
    decreases |word|
  {
    var text := word + " " + rest;
    if |word| == 0 {
      assert text == " " + rest;
      assert text[1..] == rest;
    } else {
      assert word[0] in word;
      assert forall c :: c in word[1..] ==> c in word;
      SplitCons(word[1..], rest);
      assert text[1..] == word[1..] + " " + rest;
      assert [word[0]] + word[1..] == word;
    }
  }

  /** A text without a space is a single piece. */
  lemma {:induction false} SplitNoSpace(text: string)
    requires ' ' !in text
    ensures Split(text) == [text]
    decreases |text|
  {
    if |text| > 0 {
      assert text[0] in text;
      assert forall c :: c in text[1..] ==> c in text;
      SplitNoSpace(text[1..]);
      assert [text[0]] + text[1..] == text;
    }
  }

  // ---------------------------------------------------------------------------
  // Tokenisation
  // ---------------------------------------------------------------------------

  /** A piece survives the filter when it is neither empty nor a stop word. */
  predicate IsToken(piece: string, stopWords: set<string>)
  {
    piece != "" && piece !in stopWords
  }

  /** The pieces that survive the filter, in their original order. */
  function KeepTokens(pieces: seq<string>, stopWords: set<string>): (tokens: seq<string>)
    ensures |tokens| <= |pieces|
    ensures forall w :: w in tokens <==> w in pieces && IsToken(w, stopWords)
  {
    if |pieces| == 0 then []
    else if IsToken(pieces[0], stopWords) then [pieces[0]] + KeepTokens(pieces[1..], stopWords)
    else KeepTokens(pieces[1..], stopWords)
  }

  /** The filter keeps order: filtering a concatenation filters each part. */
  lemma {:induction false} KeepTokensAppend(a: seq<string>, b: seq<string>, stopWords: set<string>)
    ensures KeepTokens(a + b, stopWords) == KeepTokens(a, stopWords) + KeepTokens(b, stopWords)
  {
    if |a| > 0 {
      assert (a + b)[1..] == a[1..] + b;
      KeepTokensAppend(a[1..], b, stopWords);
    } else {
      assert a + b == b;
    }
  }

  /** `tokenise`: the space-separated pieces of `text` minus empty pieces and
      stop words; an error when nothing is left. */
  function Tokenise(text: string, stopWords: set<string>): (r: Result<seq<string>>)
    ensures r.Err? <==> forall k :: 0 <= k < |Split(text)| ==> !IsToken(Split(text)[k], stopWords)
    ensures r.Err? ==> r.error == "No words found."
    ensures r.Ok? ==> |r.value| > 0 && r.value == KeepTokens(Split(text), stopWords)
    ensures r.Ok? ==> forall k :: 0 <= k < |r.value| ==>
      r.value[k] != "" && ' ' !in r.value[k] && r.value[k] !in stopWords
  {
    var pieces := Split(text);
    var words := KeepTokens(pieces, stopWords);
    assert forall k :: 0 <= k < |words| ==> ' ' !in words[k] && IsToken(words[k], stopWords) by {
      forall k | 0 <= k < |words| ensures ' ' !in words[k] && IsToken(words[k], stopWords) {
        assert words[k] in words;
        assert words[k] in pieces;
        var p :| 0 <= p < |pieces| && pieces[p] == words[k];
      }
    }
    if words == [] then
      assert forall k :: 0 <= k < |Split(text)| ==> !IsToken(Split(text)[k], stopWords) by {
        forall k | 0 <= k < |Split(text)| ensures !IsToken(Split(text)[k], stopWords) {
          assert Split(text)[k] in pieces;
        }
      }
      Err("No words found.")
    else
      assert words[0] in pieces && IsToken(words[0], stopWords);
      var p :| 0 <= p < |pieces| && pieces[p] == words[0];
      assert IsToken(Split(text)[p], stopWords);
      Ok(words)
  }

  /** The unit test's text: with "this", "is" and "some" among the stop words
      and "text" not, only "text" is left. */
  lemma TokeniseExample(stopWords: set<string>)
    requires "this" in stopWords && "is" in stopWords && "some" in stopWords
    requires "text" !in stopWords
    ensures Tokenise("this is some text", stopWords) == Ok(["text"])
  {
    var pieces := ["this", "is", "some", "text"];
    assert "this is some text" == Join(pieces);
    SplitJoin(pieces);
    ExampleKeep(pieces, stopWords);
  }

  lemma ExampleKeep(pieces: seq<string>, stopWords: set<string>)
    requires pieces == ["this", "is", "some", "text"]
    requires "this" in stopWords && "is" in stopWords && "some" in stopWords
    requires "text" !in stopWords
    ensures KeepTokens(pieces, stopWords) == ["text"]
  {
    assert KeepTokens(pieces[3..], stopWords) == ["text"];
    assert KeepTokens(pieces[2..], stopWords) == ["text"];
    assert KeepTokens(pieces[1..], stopWords) == ["text"];
  }

  /** The empty text holds no token. */
  lemma TokeniseEmpty(stopWords: set<string>)
    ensures Tokenise("", stopWords) == Err("No words found.")
  {
  }

  // ---------------------------------------------------------------------------
  // Vocabulary counting
  // ---------------------------------------------------------------------------

  /** The vocabulary: `words` lists every counted word once, in the one order
      all matrices and query vectors use; `counts` maps each word to its
      number of occurrences. */
  datatype Vocabulary = Vocabulary(words: seq<string>, counts: map<string, int>)
  {
    ghost predicate Valid()
    {
      && (forall i, j :: 0 <= i < j < |words| ==> words[i] != words[j])
      && (forall w :: w in counts <==> w in words)
    }
  }

  /** All tokens of the corpus, document after document. */
  function Flatten(corpus: seq<seq<string>>): (tokens: seq<string>)
  {
    if |corpus| == 0 then [] else Flatten(corpus[..|corpus| - 1]) + corpus[|corpus| - 1]
  }

  /** A token lies in the flattened corpus exactly when some document holds it. */
  lemma {:induction false} FlattenHas(corpus: seq<seq<string>>, w: string)
    ensures w in Flatten(corpus) <==> exists d :: 0 <= d < |corpus| && w in corpus[d]
  {
    if |corpus| > 0 {
      var init := corpus[..|corpus| - 1];
      FlattenHas(init, w);
      if w in Flatten(corpus) && w !in corpus[|corpus| - 1] {
        var d :| 0 <= d < |init| && w in init[d];
        assert corpus[d] == init[d];
      }
      if exists d :: 0 <= d < |corpus| && w in corpus[d] {
        var d :| 0 <= d < |corpus| && w in corpus[d];
        if d < |init| { assert init[d] == corpus[d]; }
      }
    }
  }

  /** One step of `get_all_words`: find or insert the entry for `w` (a new
      entry starts at 0 and joins the end of the word order), then add one. */
  function Tally(v: Vocabulary, w: string): Vocabulary
  {
    if w in v.counts then v.(counts := v.counts[w := v.counts[w] + 1])
    else Vocabulary(v.words + [w], v.counts[w := 0 + 1])
  }

  /** The vocabulary after tallying every token in order. */
  function TallyAll(tokens: seq<string>): Vocabulary
  {
    if |tokens| == 0 then Vocabulary([], map[])
    else Tally(TallyAll(tokens[..|tokens| - 1]), tokens[|tokens| - 1])
  }

  /** `get_all_words` as a value: the vocabulary of the whole corpus. */
  function VocabularyOf(corpus: seq<seq<string>>): Vocabulary
  {
    TallyAll(Flatten(corpus))
  }

  /** Tallying a token sequence yields a valid vocabulary whose words are
      exactly the tokens and whose counts are their multiplicities. */
  lemma {:induction false} TallyAllCounts(tokens: seq<string>)
    ensures TallyAll(tokens).Valid()
    ensures forall w :: w in TallyAll(tokens).counts <==> w in tokens
    ensures forall w :: w in TallyAll(tokens).counts ==> TallyAll(tokens).counts[w] == multiset(tokens)[w]
  {
    if |tokens| > 0 {
      var init, last := tokens[..|tokens| - 1], tokens[|tokens| - 1];
      TallyAllCounts(init);
      assert tokens == init + [last];
      assert multiset(tokens) == multiset(init) + multiset{last};
      var v := TallyAll(init);
      if last !in v.counts {
        assert forall i :: 0 <= i < |v.words| ==> v.words[i] != last by {
          forall i | 0 <= i < |v.words| ensures v.words[i] != last {
            assert v.words[i] in v.words;
          }
        }
      }
    }
  }

  /** The words of `get_all_words` are exactly the corpus's distinct tokens;
      each count is the number of occurrences across all documents, hence at
      least one; an empty corpus yields an empty vocabulary. */
  lemma VocabularyOfSpec(corpus: seq<seq<string>>)
    ensures VocabularyOf(corpus).Valid()
    ensures forall w :: w in VocabularyOf(corpus).counts <==> exists d :: 0 <= d < |corpus| && w in corpus[d]
    ensures forall w :: w in VocabularyOf(corpus).counts ==>
      VocabularyOf(corpus).counts[w] == multiset(Flatten(corpus))[w] >= 1
    ensures |corpus| == 0 ==> VocabularyOf(corpus) == Vocabulary([], map[])
  {
    TallyAllCounts(Flatten(corpus));
    forall w ensures w in Flatten(corpus) <==> exists d :: 0 <= d < |corpus| && w in corpus[d] {
      FlattenHas(corpus, w);
    }
  }

  /** Sum of the multiplicities in `m` of the listed words. */
  function CountSum(words: seq<string>, m: multiset<string>): nat
  {
    if |words| == 0 then 0 else m[words[0]] + CountSum(words[1..], m)
  }

  /** Adding one token that the distinct list holds raises the sum by one. */
  lemma {:induction false} CountSumAddOne(words: seq<string>, m: multiset<string>, t: string)
    requires forall i, j :: 0 <= i < j < |words| ==> words[i] != words[j]
    ensures CountSum(words, m + multiset{t}) == CountSum(words, m) + (if t in words then 1 else 0)
  {
    if |words| > 0 {
      CountSumAddOne(words[1..], m, t);
      if words[0] == t {
        forall k | 0 <= k < |words[1..]| ensures words[1..][k] != t {
          assert words[1..][k] == words[k + 1];
        }
      }
    }
  }

  /** When every token is listed in a distinct list of words, the listed
      multiplicities add up to the number of tokens. */
  lemma {:induction false} CountSumCoversTokens(words: seq<string>, tokens: seq<string>)
    requires forall i, j :: 0 <= i < j < |words| ==> words[i] != words[j]
    requires forall t :: t in tokens ==> t in words
    ensures CountSum(words, multiset(tokens)) == |tokens|
  {
    if |tokens| == 0 {
      CountSumEmpty(words);
    } else {
      var init, last := tokens[..|tokens| - 1], tokens[|tokens| - 1];
      assert tokens == init + [last];
      assert multiset(tokens) == multiset(init) + multiset{last};
      CountSumCoversTokens(words, init);
      CountSumAddOne(words, multiset(init), last);
    }
  }

  lemma {:induction false} CountSumEmpty(words: seq<string>)
    ensures CountSum(words, multiset{}) == 0
  {
    if |words| > 0 { CountSumEmpty(words[1..]); }
  }

  /** Sum of the counts of the listed words. */
  function SumOfCounts(words: seq<string>, counts: map<string, int>): int
    requires forall w :: w in words ==> w in counts
  {
    if |words| == 0 then 0 else counts[words[0]] + SumOfCounts(words[1..], counts)
  }

  lemma {:induction false} SumOfCountsAgrees(words: seq<string>, counts: map<string, int>, m: multiset<string>)
    requires forall w :: w in words ==> w in counts && counts[w] == m[w]
    ensures SumOfCounts(words, counts) == CountSum(words, m)
  {
    if |words| > 0 { SumOfCountsAgrees(words[1..], counts, m); }
  }

  /** The counts of `get_all_words` add up to the number of tokens in the corpus. */
  lemma CountsSumToTokens(corpus: seq<seq<string>>)
    ensures var v := VocabularyOf(corpus);
      v.Valid() && SumOfCounts(v.words, v.counts) == |Flatten(corpus)|
  {
    var v := VocabularyOf(corpus);
    TallyAllCounts(Flatten(corpus));
    SumOfCountsAgrees(v.words, v.counts, multiset(Flatten(corpus)));
    CountSumCoversTokens(v.words, Flatten(corpus));
  }

  /** `get_all_words`: walk every token of every document, creating a zero
      entry for a new word and then adding one to its count. */
  method GetAllWords(corpus: seq<seq<string>>) returns (v: Vocabulary)
    ensures v == VocabularyOf(corpus)
  {
    var words: seq<string> := [];
    var counts: map<string, int> := map[];
    var i := 0;
    while i < |corpus|
      invariant 0 <= i <= |corpus|
      invariant Vocabulary(words, counts) == TallyAll(Flatten(corpus[..i]))
    {
      var doc := corpus[i];
      ghost var before := Flatten(corpus[..i]);
      var j := 0;
      assert before + doc[..0] == before;
      while j < |doc|
        invariant 0 <= j <= |doc|
        invariant Vocabulary(words, counts) == TallyAll(before + doc[..j])
      {
        var w := doc[j];
        TallyAllSnoc(before + doc[..j], w);
        assert before + doc[..j + 1] == (before + doc[..j]) + [w];
        if w in counts {
          counts := counts[w := counts[w] + 1];
        } else {
          counts := counts[w := 0 + 1];
          words := words + [w];
        }
        j := j + 1;
      }
      FlattenSnoc(corpus, i);
      assert doc[..j] == doc;
      i := i + 1;
    }
    assert corpus[..i] == corpus;
    v := Vocabulary(words, counts);
  }

  /** Tallying one more token is one more `Tally` step. */
  lemma TallyAllSnoc(tokens: seq<string>, w: string)
    ensures TallyAll(tokens + [w]) == Tally(TallyAll(tokens), w)
  {
    assert (tokens + [w])[..|tokens + [w]| - 1] == tokens;
  }

  /** Flattening one more document appends its tokens. */
  lemma FlattenSnoc(corpus: seq<seq<string>>, i: nat)
    requires i < |corpus|
    ensures Flatten(corpus[..i + 1]) == Flatten(corpus[..i]) + corpus[i]
  {
    assert corpus[..i + 1][..i] == corpus[..i];
  }
}
