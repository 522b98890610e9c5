/**
 * The TF-IDF engine (src/calculations.rs): vector arithmetic, cosine
 * similarity, the TF, IDF and TF-IDF builders, and the ranking of documents
 * by similarity to a query.
 *
 * `f64` is `real`. The square root and the natural logarithm are parameters
 * of type `real -> real`; where a proof needs something of the square root,
 * a predicate on the parameter says what.
 */
module Calculations {
  import opened TextProcess

  // ---------------------------------------------------------------------------
  // Vectors
  // ---------------------------------------------------------------------------

  function Sum(v: seq<real>): real
  {
    if |v| == 0 then 0.0 else v[0] + Sum(v[1..])
  }

  /** `dot_product`: the sum of pairwise products over the zipped prefix, so
      the longer vector's tail is ignored. A zero vector is orthogonal to
      every vector, on either side. */
  function Dot(a: seq<real>, b: seq<real>): (r: real)
    ensures IsZero(a) || IsZero(b) ==> r == 0.0
    decreases |a|
  {
    if |a| == 0 || |b| == 0 then 0.0
    else
      assert IsZero(a) ==> IsZero(a[1..]) by {
        if IsZero(a) {
          forall k | 0 <= k < |a[1..]| ensures a[1..][k] == 0.0 {
            assert a[1..][k] == a[k + 1];
          }
        }
      }
      assert IsZero(b) ==> IsZero(b[1..]) by {
        if IsZero(b) {
          forall k | 0 <= k < |b[1..]| ensures b[1..][k] == 0.0 {
            assert b[1..][k] == b[k + 1];
          }
        }
      }
      a[0] * b[0] + Dot(a[1..], b[1..])
  }

  /** The dot product does not depend on the order of its arguments. */
  lemma {:induction false} DotSymmetric(a: seq<real>, b: seq<real>)
    ensures Dot(a, b) == Dot(b, a)
    decreases |a|
  {
    if |a| > 0 && |b| > 0 {
      DotSymmetric(a[1..], b[1..]);
    }
  }

  /** Only the common prefix counts: entries beyond the shorter length are ignored. */
  lemma {:induction false} DotZippedPrefix(a: seq<real>, b: seq<real>, extra: seq<real>)
    requires |a| <= |b|
    ensures Dot(a, b + extra) == Dot(a, b)
    decreases |a|
  {
    if |a| > 0 {
      assert (b + extra)[1..] == b[1..] + extra;
      DotZippedPrefix(a[1..], b[1..], extra);
    }
  }

  predicate IsZero(v: seq<real>)
  {
    forall k :: 0 <= k < |v| ==> v[k] == 0.0
  }

  function Square(x: real): real
  {
    x * x
  }

  // The solver reasons about a product of two distinct variables more
  // reliably than about a square, so the sign facts are stated on `x * y`.

  lemma ProductOfPositives(x: real, y: real, p: real)
    requires x > 0.0 && y > 0.0 && p == x * y
    ensures p > 0.0
  {
  }

  lemma ProductOfNegatives(x: real, y: real, p: real)
    requires x < 0.0 && y < 0.0 && p == x * y
    ensures p > 0.0
  {
  }

  lemma ProductWithZero(x: real, y: real, p: real)
    requires p == x * y
    ensures p != 0.0 <==> x != 0.0 && y != 0.0
  {
  }

  /** A square is never negative, and positive for a non-zero number. */
  lemma SquareSign(x: real)
    ensures Square(x) >= 0.0
    ensures x != 0.0 ==> Square(x) > 0.0
  {
    if x > 0.0 {
      ProductOfPositives(x, x, Square(x));
    } else if x < 0.0 {
      ProductOfNegatives(x, x, Square(x));
    } else {
      ProductWithZero(x, x, Square(x));
    }
  }

  /** The argument `vector_magnitude` takes the square root of. */
  function SumOfSquares(v: seq<real>): real
  {
    if |v| == 0 then 0.0 else Square(v[0]) + SumOfSquares(v[1..])
  }

  /** Never negative: every entry adds a square. */
  lemma {:induction false} SumOfSquaresNonNegative(v: seq<real>)
    ensures SumOfSquares(v) >= 0.0
  {
    if |v| > 0 {
      SquareSign(v[0]);
      SumOfSquaresNonNegative(v[1..]);
    }
  }

  /** The sum of squares is the dot product of a vector with itself. */
  lemma {:induction false} SumOfSquaresIsSelfDot(v: seq<real>)
    ensures SumOfSquares(v) == Dot(v, v)
  {
    if |v| > 0 {
      SumOfSquaresIsSelfDot(v[1..]);
    }
  }

  /** Zero exactly for a zero vector. */
  lemma {:induction false} SumOfSquaresPositive(v: seq<real>)
    ensures SumOfSquares(v) > 0.0 <==> !IsZero(v)
  {
    if |v| > 0 {
      SquareSign(v[0]);
      SumOfSquaresNonNegative(v[1..]);
      SumOfSquaresPositive(v[1..]);
      if IsZero(v[1..]) && v[0] == 0.0 {
        forall k | 0 <= k < |v| ensures v[k] == 0.0 {
          if k > 0 {
            assert v[k] == v[1..][k - 1];
          }
        }
      }
      if !IsZero(v[1..]) {
        var k :| 0 <= k < |v[1..]| && v[1..][k] != 0.0;
        assert v[k + 1] != 0.0;
      }
    }
  }

  /** A non-zero dot product needs a non-zero entry on each side. */
  lemma {:induction false} NonZeroDotNonZeroVectors(a: seq<real>, b: seq<real>)
    requires Dot(a, b) != 0.0
    ensures !IsZero(a) && !IsZero(b)
    decreases |a|
  {
    if Dot(a[1..], b[1..]) != 0.0 {
      NonZeroDotNonZeroVectors(a[1..], b[1..]);
      var i :| 0 <= i < |a[1..]| && a[1..][i] != 0.0;
      assert a[i + 1] != 0.0;
      var j :| 0 <= j < |b[1..]| && b[1..][j] != 0.0;
      assert b[j + 1] != 0.0;
    } else {
      ProductWithZero(a[0], b[0], a[0] * b[0]);
      assert a[0] != 0.0 && b[0] != 0.0;
    }
  }

  /** The pairwise products of two equally long vectors. */
  function Products(a: seq<real>, b: seq<real>): (p: seq<real>)
    requires |a| == |b|
    ensures |p| == |a|
  {
    seq(|a|, k requires 0 <= k < |a| => a[k] * b[k])
  }

  /** The dot product of equally long vectors is the sum of their pairwise products. */
  lemma {:induction false} DotIsSumOfProducts(a: seq<real>, b: seq<real>)
    requires |a| == |b|
    ensures Dot(a, b) == Sum(Products(a, b))
  {
    if |a| > 0 {
      DotIsSumOfProducts(a[1..], b[1..]);
      var p, tail := Products(a, b), Products(a[1..], b[1..]);
      ProductsTail(a, b);
      calc {
        Dot(a, b);
        a[0] * b[0] + Dot(a[1..], b[1..]);
        p[0] + Sum(tail);
        Sum(p);
      }
    }
  }

  /** The unit test of `dot_product`: [1, 2, 3] with itself gives 14. */
  lemma DotExample()
    ensures Dot([1.0, 2.0, 3.0], [1.0, 2.0, 3.0]) == 14.0
  {
  }

  lemma ProductsTail(a: seq<real>, b: seq<real>)
    requires |a| == |b| && |a| > 0
    ensures Products(a, b)[0] == a[0] * b[0]
    ensures Products(a, b)[1..] == Products(a[1..], b[1..])
  {
    var p, tail := Products(a, b), Products(a[1..], b[1..]);
    forall k | 0 <= k < |tail| ensures p[1..][k] == tail[k] {
      assert a[1..][k] == a[k + 1] && b[1..][k] == b[k + 1];
    }
  }

  /** A sum of non-negative entries with one positive entry is positive. */
  lemma {:induction false} SumPositive(v: seq<real>, k: nat)
    requires forall q :: 0 <= q < |v| ==> v[q] >= 0.0
    requires k < |v| && v[k] > 0.0
    ensures Sum(v) > 0.0
    decreases k
  {
    if k == 0 {
      SumNonNegative(v[1..]);
    } else {
      SumPositive(v[1..], k - 1);
    }
  }

  /** A sum of non-negative entries is non-negative. */
  lemma {:induction false} SumNonNegative(v: seq<real>)
    requires forall q :: 0 <= q < |v| ==> v[q] >= 0.0
    ensures Sum(v) >= 0.0
  {
    if |v| > 0 {
      SumNonNegative(v[1..]);
    }
  }

  /** The square-root parameter is positive on positive arguments, as the
      real square root is. */
  ghost predicate SqrtPositive(sqrt: real -> real)
  {
    forall x :: x > 0.0 ==> sqrt(x) > 0.0
  }

  /** The square-root parameter is the real square root. */
  ghost predicate IsSqrt(sqrt: real -> real)
  {
    forall x :: x >= 0.0 ==> sqrt(x) >= 0.0 && sqrt(x) * sqrt(x) == x
  }

  lemma IsSqrtPositive(sqrt: real -> real)
    requires IsSqrt(sqrt)
    ensures SqrtPositive(sqrt)
  {
    forall x | x > 0.0 ensures sqrt(x) > 0.0 {
      assert sqrt(x) * sqrt(x) == x;
    }
  }

  /** `vector_magnitude`: the square root of the sum of squares. With the
      real square root it is the non-negative root of the vector's dot product
      with itself; it is positive for a non-zero vector. */
  function Magnitude(v: seq<real>, sqrt: real -> real): (r: real)
    ensures IsSqrt(sqrt) ==> r >= 0.0 && r * r == Dot(v, v)
    ensures SqrtPositive(sqrt) && !IsZero(v) ==> r > 0.0
  {
    SumOfSquaresNonNegative(v);
    SumOfSquaresIsSelfDot(v);
    SumOfSquaresPositive(v);
    sqrt(SumOfSquares(v))
  }

  lemma QuotientSign(d: real, m: real)
    requires m > 0.0
    ensures d / m > 0.0 <==> d > 0.0
    ensures d / m == 0.0 <==> d == 0.0
  {
    assert (d / m) * m == d;
    if d / m > 0.0 {
      ProductOfPositives(d / m, m, d);
    }
    if d / m < 0.0 {
      ProductOfPositives(-(d / m), m, -d);
    }
  }

  /** Both magnitudes are positive when the dot product is not zero. */
  lemma MagnitudesPositive(a: seq<real>, b: seq<real>, sqrt: real -> real)
    requires SqrtPositive(sqrt)
    requires Dot(a, b) != 0.0
    ensures Magnitude(a, sqrt) * Magnitude(b, sqrt) > 0.0
  {
    NonZeroDotNonZeroVectors(a, b);
    SumOfSquaresPositive(a);
    SumOfSquaresPositive(b);
    ProductOfPositives(Magnitude(a, sqrt), Magnitude(b, sqrt), Magnitude(a, sqrt) * Magnitude(b, sqrt));
  }

  /** `cosine_similarity`: zero exactly when the dot product is zero (then
      the magnitudes are never consulted), and of the dot product's sign
      otherwise, the magnitudes being positive. */
  function Cosine(a: seq<real>, b: seq<real>, sqrt: real -> real): (r: real)
    requires SqrtPositive(sqrt)
    ensures r == 0.0 <==> Dot(a, b) == 0.0
    ensures r > 0.0 <==> Dot(a, b) > 0.0
  {
    var d := Dot(a, b);
    if d == 0.0 then 0.0
    else
      MagnitudesPositive(a, b, sqrt);
      var m := Magnitude(a, sqrt) * Magnitude(b, sqrt);
      QuotientSign(d, m);
      d / m
  }

  /** Cosine similarity is symmetric. */
  lemma CosineSymmetric(a: seq<real>, b: seq<real>, sqrt: real -> real)
    requires SqrtPositive(sqrt)
    ensures Cosine(a, b, sqrt) == Cosine(b, a, sqrt)
  {
    DotSymmetric(a, b);
    if Dot(a, b) != 0.0 {
      assert Magnitude(a, sqrt) * Magnitude(b, sqrt) == Magnitude(b, sqrt) * Magnitude(a, sqrt);
    }
  }

  /** The similarity with a zero vector is 0, on either side. */
  lemma CosineWithZero(a: seq<real>, z: seq<real>, sqrt: real -> real)
    requires SqrtPositive(sqrt)
    requires IsZero(z)
    ensures Cosine(a, z, sqrt) == 0.0 && Cosine(z, a, sqrt) == 0.0
  {
  }

  /** With the real square root, a non-zero vector is fully similar to itself. */
  lemma CosineSelf(v: seq<real>, sqrt: real -> real)
    requires IsSqrt(sqrt)
    requires !IsZero(v)
    ensures SqrtPositive(sqrt) && Cosine(v, v, sqrt) == 1.0
  {
    IsSqrtPositive(sqrt);
    SumOfSquaresPositive(v);
    SumOfSquaresIsSelfDot(v);
    var s := SumOfSquares(v);
    assert Magnitude(v, sqrt) * Magnitude(v, sqrt) == s;
    DivideBySelf(s);
  }

  lemma DivideBySelf(s: real)
    requires s > 0.0
    ensures s / s == 1.0
  {
  }

  /** The unit test's orthogonal pair: [4, 2, 3] and [2, -4, 0]. */
  lemma CosineOrthogonalExample(sqrt: real -> real)
    requires SqrtPositive(sqrt)
    ensures Cosine([4.0, 2.0, 3.0], [2.0, -4.0, 0.0], sqrt) == 0.0
  {
    assert Dot([4.0, 2.0, 3.0], [2.0, -4.0, 0.0]) == 0.0;
  }

  // ---------------------------------------------------------------------------
  // TF, IDF and TF-IDF
  // ---------------------------------------------------------------------------

  /** The `fold` inside `tf_calculation`: start at 0 and add one for every
      token equal to `w`. */
  function CountOf(doc: seq<string>, w: string): (n: real)
    ensures n == multiset(doc)[w] as real
  {
    if |doc| == 0 then 0.0
    else
      var acc := CountOf(doc[..|doc| - 1], w);
      assert doc == doc[..|doc| - 1] + [doc[|doc| - 1]];
      if doc[|doc| - 1] == w then acc + 1.0 else acc
  }

  /** `tf_calculation`: a |corpus| by |words| matrix of zeros, each cell then
      set to the number of occurrences of the column's word in the row's
      document. */
  method TfCalculation(corpus: seq<seq<string>>, vocab: Vocabulary) returns (tf: seq<seq<real>>)
    ensures |tf| == |corpus|
    ensures forall i :: 0 <= i < |tf| ==> |tf[i]| == |vocab.words|
    ensures forall i, j :: 0 <= i < |tf| && 0 <= j < |vocab.words| ==>
      tf[i][j] == multiset(corpus[i])[vocab.words[j]] as real
  {
    var width := |vocab.words|;
    tf := seq(|corpus|, _ => seq(width, _ => 0.0));
    for i := 0 to |corpus|
      invariant |tf| == |corpus|
      invariant forall r :: 0 <= r < |tf| ==> |tf[r]| == width
      invariant forall r, j :: 0 <= r < i && 0 <= j < width ==>
        tf[r][j] == multiset(corpus[r])[vocab.words[j]] as real
    {
      for j := 0 to width
        invariant |tf| == |corpus|
        invariant forall r :: 0 <= r < |tf| ==> |tf[r]| == width
        invariant forall r, c :: 0 <= r < i && 0 <= c < width ==>
          tf[r][c] == multiset(corpus[r])[vocab.words[c]] as real
        invariant forall c :: 0 <= c < j ==> tf[i][c] == multiset(corpus[i])[vocab.words[c]] as real
      {
        tf := tf[i := tf[i][j := CountOf(corpus[i], vocab.words[j])]];
      }
    }
  }

  /** A row of counts over a list of words sums to the listed multiplicities. */
  lemma {:induction false} CountRowSum(doc: seq<string>, words: seq<string>, row: seq<real>)
    requires |row| == |words|
    requires forall j :: 0 <= j < |words| ==> row[j] == multiset(doc)[words[j]] as real
    ensures Sum(row) == CountSum(words, multiset(doc)) as real
  {
    if |words| > 0 {
      CountRowSum(doc, words[1..], row[1..]);
    }
  }

  /** `idf_calculation`: one weight per vocabulary word, in vocabulary order:
      the logarithm of the number of documents over one plus the word's count. */
  function IdfCalculation(corpus: seq<seq<string>>, vocab: Vocabulary, ln: real -> real): (idf: seq<real>)
    requires vocab.Valid()
    requires forall w :: w in vocab.counts ==> vocab.counts[w] >= 0
    ensures |idf| == |vocab.words|
    ensures forall j :: 0 <= j < |idf| ==>
      idf[j] == ln(|corpus| as real / (1.0 + vocab.counts[vocab.words[j]] as real))
  {
    var numerator := |corpus| as real;
    seq(|vocab.words|, j requires 0 <= j < |vocab.words| =>
      assert vocab.words[j] in vocab.words;
      ln(numerator / (1.0 + vocab.counts[vocab.words[j]] as real)))
  }

  /** What the weights need of the logarithm parameter: ln 1 = 0 and it is
      strictly increasing on the positive reals. */
  ghost predicate IsLnLike(ln: real -> real)
  {
    && ln(1.0) == 0.0
    && forall x, y :: 0.0 < x < y ==> ln(x) < ln(y)
  }

  /** A quotient by a positive number compares with 1 as the numerator
      compares with the denominator. */
  lemma QuotientVersusOne(n: real, m: real)
    requires m > 0.0
    ensures n / m > 1.0 <==> n > m
    ensures n / m == 1.0 <==> n == m
  {
    var q := n / m;
    assert q * m == n;
    if q > 1.0 {
      ProductOfPositives(q - 1.0, m, n - m);
    } else if q < 1.0 {
      ProductOfPositives(1.0 - q, m, m - n);
    }
  }

  /** The sign of a weight: with a logarithm, a word's weight is positive
      exactly when one plus its count is below the number of documents, zero
      exactly when the two are equal, and negative otherwise. The count is
      the word's number of occurrences, not of documents holding it, so a
      word repeated within documents can get a negative weight. */
  lemma IdfSign(corpus: seq<seq<string>>, vocab: Vocabulary, ln: real -> real, j: nat)
    requires IsLnLike(ln)
    requires vocab.Valid()
    requires forall w :: w in vocab.counts ==> vocab.counts[w] >= 0
    requires |corpus| > 0 && j < |vocab.words|
    ensures vocab.words[j] in vocab.counts
    ensures var weight := IdfCalculation(corpus, vocab, ln)[j];
      var count := vocab.counts[vocab.words[j]];
      && (weight > 0.0 <==> 1 + count < |corpus|)
      && (weight == 0.0 <==> 1 + count == |corpus|)
  {
    assert vocab.words[j] in vocab.words;
    var n := |corpus| as real;
    var m := 1.0 + vocab.counts[vocab.words[j]] as real;
    QuotientSign(n, m);
    QuotientVersusOne(n, m);
    var x := n / m;
    if x > 1.0 {
      assert ln(1.0) < ln(x);
    } else if x < 1.0 {
      assert ln(x) < ln(1.0);
    }
  }

  /** `tf_idf_calculation`: a matrix of zeros as tall as `tf` and as wide as
      its first row; cell (i, j) then becomes tf[i][j] * idf[j] for every
      j < |idf|, and the columns from |idf| on stay zero. */
  method TfIdfCalculation(tf: seq<seq<real>>, idf: seq<real>) returns (tfIdf: seq<seq<real>>)
    requires |tf| > 0
    requires forall i :: 0 <= i < |tf| ==> |idf| <= |tf[i]|
    ensures |tfIdf| == |tf|
    ensures forall i :: 0 <= i < |tfIdf| ==> |tfIdf[i]| == |tf[0]|
    ensures forall i, j :: 0 <= i < |tfIdf| && 0 <= j < |idf| ==> tfIdf[i][j] == tf[i][j] * idf[j]
    ensures forall i, j :: 0 <= i < |tfIdf| && |idf| <= j < |tf[0]| ==> tfIdf[i][j] == 0.0
  {
    var width := |tf[0]|;
    tfIdf := seq(|tf|, _ => seq(width, _ => 0.0));
    for c1 := 0 to |tf|
      invariant |tfIdf| == |tf|
      invariant forall i :: 0 <= i < |tfIdf| ==> |tfIdf[i]| == width
      invariant forall i, j :: 0 <= i < c1 && 0 <= j < |idf| ==> tfIdf[i][j] == tf[i][j] * idf[j]
      invariant forall i, j :: 0 <= i < |tfIdf| && |idf| <= j < width ==> tfIdf[i][j] == 0.0
    {
      var doc := tf[c1];
      for c2 := 0 to |idf|
        invariant |tfIdf| == |tf|
        invariant forall i :: 0 <= i < |tfIdf| ==> |tfIdf[i]| == width
        invariant forall i, j :: 0 <= i < c1 && 0 <= j < |idf| ==> tfIdf[i][j] == tf[i][j] * idf[j]
        invariant forall i, j :: 0 <= i < |tfIdf| && |idf| <= j < width ==> tfIdf[i][j] == 0.0
        invariant forall j :: 0 <= j < c2 ==> tfIdf[c1][j] == doc[j] * idf[j]
      {
        tfIdf := tfIdf[c1 := tfIdf[c1][c2 := doc[c2] * idf[c2]]];
      }
    }
  }

  /** The unit test: one row [1, 1, 1] and a single weight 1 give [1, 0, 0]. */
  method TfIdfExample() returns (tfIdf: seq<seq<real>>)
    ensures tfIdf == [[1.0, 0.0, 0.0]]
  {
    tfIdf := TfIdfCalculation([[1.0, 1.0, 1.0]], [1.0]);
    assert |tfIdf[0]| == 3;
    assert tfIdf[0] == [1.0, 0.0, 0.0];
  }

  // ---------------------------------------------------------------------------
  // Ranking
  // ---------------------------------------------------------------------------

  /** Document `i` is ranked before document `j`: a higher score, or an equal
      score and a lower index (the sort is stable and starts from index order). */
  predicate Before(scores: seq<real>, i: nat, j: nat)
    requires i < |scores| && j < |scores|
  {
    scores[i] > scores[j] || (scores[i] == scores[j] && i < j)
  }

  predicate InRange(scores: seq<real>, s: seq<nat>)
  {
    forall k :: 0 <= k < |s| ==> s[k] < |scores|
  }

  /** `s` lists document indices in ranking order, each at most once. */
  predicate RankedBy(scores: seq<real>, s: seq<nat>)
  {
    && InRange(scores, s)
    && forall p, q :: 0 <= p < q < |s| ==> Before(scores, s[p], s[q])
  }

  predicate Distinct(s: seq<nat>)
  {
    forall p, q :: 0 <= p < q < |s| ==> s[p] != s[q]
  }

  /** The indices 0, 1, ..., n - 1 in ascending order. */
  function Range(n: nat): (r: seq<nat>)
    ensures |r| == n
    ensures forall k :: 0 <= k < n ==> r[k] == k
  {
    if n == 0 then [] else Range(n - 1) + [n - 1]
  }

  /** The filter at the end of `rank_idx`: keep, in the order given, the
      indices whose score is strictly positive. */
  function FilterPositive(scores: seq<real>, s: seq<nat>): (r: seq<nat>)
    requires InRange(scores, s)
    ensures InRange(scores, r)
    ensures |r| <= |s|
    ensures forall x :: x in r <==> x in s && x < |scores| && scores[x] > 0.0
  {
    if |s| == 0 then []
    else
      var rest := FilterPositive(scores, s[1..]);
      assert forall x :: x in s[1..] ==> x in s;
      if scores[s[0]] > 0.0 then [s[0]] + rest else rest
  }

  /** Filtering keeps the ranking order. */
  lemma {:induction false} FilterPositiveRanked(scores: seq<real>, s: seq<nat>)
    requires RankedBy(scores, s)
    ensures RankedBy(scores, FilterPositive(scores, s))
  {
    if |s| > 0 {
      FilterPositiveRanked(scores, s[1..]);
      var rest := FilterPositive(scores, s[1..]);
      if scores[s[0]] > 0.0 {
        forall y | y in rest ensures Before(scores, s[0], y) {
          var k :| 0 <= k < |s[1..]| && s[1..][k] == y;
          assert s[k + 1] == y;
        }
        assert forall q :: 0 <= q < |rest| ==> rest[q] in rest;
      }
    }
  }

  /** Filtering keeps the indices distinct. */
  lemma {:induction false} FilterPositiveDistinct(scores: seq<real>, s: seq<nat>)
    requires InRange(scores, s) && Distinct(s)
    ensures Distinct(FilterPositive(scores, s))
  {
    if |s| > 0 {
      FilterPositiveDistinct(scores, s[1..]);
      var rest := FilterPositive(scores, s[1..]);
      if scores[s[0]] > 0.0 {
        forall y | y in rest ensures y != s[0] {
          var k :| 0 <= k < |s[1..]| && s[1..][k] == y;
          assert s[k + 1] == y;
        }
        assert forall q :: 0 <= q < |rest| ==> rest[q] in rest;
      }
    }
  }

  /** Insert one index into a ranked list at its place. */
  function Insert(scores: seq<real>, x: nat, s: seq<nat>): (r: seq<nat>)
    requires x < |scores| && RankedBy(scores, s) && x !in s
    ensures |r| == |s| + 1
    ensures forall y :: y in r <==> y == x || y in s
    ensures RankedBy(scores, r)
  {
    if |s| == 0 then [x]
    else if Before(scores, x, s[0]) then
      assert forall k :: 0 <= k < |s| ==> Before(scores, x, s[k]);
      [x] + s
    else
      assert x != s[0] by { assert s[0] in s; }
      assert forall k :: 0 <= k < |s[1..]| ==> s[1..][k] == s[k + 1];
      var rest := Insert(scores, x, s[1..]);
      forall y | y in rest ensures Before(scores, s[0], y) {
        if y != x {
          var k :| 0 <= k < |s[1..]| && s[1..][k] == y;
        }
      }
      assert forall q :: 0 <= q < |rest| ==> rest[q] in rest;
      [s[0]] + rest
  }

  /** Sort distinct indices into ranking order by repeated insertion. */
  function SortRanked(scores: seq<real>, s: seq<nat>): (r: seq<nat>)
    requires InRange(scores, s) && Distinct(s)
    ensures RankedBy(scores, r)
    ensures forall y :: y in r <==> y in s
  {
    if |s| == 0 then []
    else
      var init, last := s[..|s| - 1], s[|s| - 1];
      assert s == init + [last];
      assert last !in init by {
        forall k | 0 <= k < |init| ensures init[k] != last {
          assert init[k] == s[k];
        }
      }
      Insert(scores, last, SortRanked(scores, init))
  }

  /** The ranking `rank_idx` promises: every index with a strictly positive
      score exactly once, by descending score, equal scores by ascending index. */
  function Ranking(scores: seq<real>): (r: seq<nat>)
    ensures RankedBy(scores, r)
    ensures forall i: nat :: i in r <==> i < |scores| && scores[i] > 0.0
  {
    var positives := FilterPositive(scores, Range(|scores|));
    FilterPositiveDistinct(scores, Range(|scores|));
    assert forall i: nat :: i < |scores| ==> i in Range(|scores|) by {
      forall i: nat | i < |scores| ensures i in Range(|scores|) {
        assert Range(|scores|)[i] == i;
      }
    }
    SortRanked(scores, positives)
  }

  /** Nothing is ranked exactly when no score is positive. */
  lemma RankingEmpty(scores: seq<real>)
    ensures Ranking(scores) == [] <==> forall i :: 0 <= i < |scores| ==> scores[i] <= 0.0
  {
    var r := Ranking(scores);
    if r != [] {
      assert r[0] in r;
    }
    if exists i :: 0 <= i < |scores| && scores[i] > 0.0 {
      var i :| 0 <= i < |scores| && scores[i] > 0.0;
      assert i in r;
    }
  }

  /** Two ranked lists with the same members are equal: the ranking order is
      total, so the ranking is unique. */
  lemma {:induction false} RankedUnique(scores: seq<real>, s1: seq<nat>, s2: seq<nat>)
    requires RankedBy(scores, s1) && RankedBy(scores, s2)
    requires forall x :: x in s1 <==> x in s2
    ensures s1 == s2
    decreases |s1|
  {
    if |s1| == 0 {
    } else {
      assert s1[0] in s1;
      assert s2[0] in s2;
      assert s1[0] == s2[0];
      forall x ensures x in s1[1..] <==> x in s2[1..] {
        if x in s1[1..] {
          var p :| 0 <= p < |s1[1..]| && s1[1..][p] == x;
          assert Before(scores, s1[0], s1[p + 1]);
          assert x in s2;
        }
        if x in s2[1..] {
          var p :| 0 <= p < |s2[1..]| && s2[1..][p] == x;
          assert Before(scores, s2[0], s2[p + 1]);
          assert x in s1;
        }
      }
      RankedUnique(scores, s1[1..], s2[1..]);
      assert s1 == [s1[0]] + s1[1..] && s2 == [s2[0]] + s2[1..];
    }
  }

  /** The unit test: scores [1, 3, 2, 6, 5, 0, 0, 0] rank as [3, 4, 1, 2, 0]. */
  lemma RankingExample()
    ensures Ranking([1.0, 3.0, 2.0, 6.0, 5.0, 0.0, 0.0, 0.0]) == [3, 4, 1, 2, 0]
  {
    var scores := [1.0, 3.0, 2.0, 6.0, 5.0, 0.0, 0.0, 0.0];
    var expected: seq<nat> := [3, 4, 1, 2, 0];
    ExampleRanked(scores, expected);
    var r := Ranking(scores);
    forall i: nat ensures i in r <==> i in expected {
      ExampleMember(scores, expected, i);
    }
    RankedUnique(scores, r, expected);
  }

  lemma ExampleRanked(scores: seq<real>, expected: seq<nat>)
    requires scores == [1.0, 3.0, 2.0, 6.0, 5.0, 0.0, 0.0, 0.0]
    requires expected == [3, 4, 1, 2, 0]
    ensures RankedBy(scores, expected)
  {
  }

  lemma ExampleMember(scores: seq<real>, expected: seq<nat>, i: nat)
    requires scores == [1.0, 3.0, 2.0, 6.0, 5.0, 0.0, 0.0, 0.0]
    requires expected == [3, 4, 1, 2, 0]
    ensures i < |scores| && scores[i] > 0.0 <==> i in expected
  {
  }

  /** A permutation of 0 .. n - 1 holds exactly the indices below n. */
  lemma PermutationOfRange(a: seq<nat>, n: nat)
    requires multiset(a) == multiset(Range(n))
    ensures forall x: nat :: x in a <==> x < n
  {
    forall x: nat ensures x in a <==> x < n {
      assert x in multiset(a) <==> x in multiset(Range(n));
      if x < n {
        assert Range(n)[x] == x;
      }
      if x in Range(n) {
        var k :| 0 <= k < n && Range(n)[k] == x;
      }
    }
  }

  /** Mid-pass state of the sort: the moving index `x` sits at `j`, every
      other entry is a smaller index, and all pairs are in ranking order
      except those with the moving entry before its own place. */
  ghost predicate Sifting(scores: seq<real>, s: seq<nat>, j: nat, x: nat)
  {
    && j < |s| && s[j] == x
    && InRange(scores, s)
    && (forall k :: 0 <= k < |s| && k != j ==> s[k] < x)
    && (forall p, q :: 0 <= p < q < |s| && p != j && q != j ==> Before(scores, s[p], s[q]))
    && (forall q :: j < q < |s| ==> Before(scores, s[j], s[q]))
  }

  /** Swapping the moving entry with a lower-scored predecessor keeps the state. */
  lemma SiftStep(scores: seq<real>, s: seq<nat>, j: nat, x: nat)
    requires Sifting(scores, s, j, x)
    requires 0 < j && scores[s[j - 1]] < scores[s[j]]
    ensures Sifting(scores, s[j - 1 := x][j := s[j - 1]], j - 1, x)
  {
    var t := s[j - 1 := x][j := s[j - 1]];
    forall q | j - 1 < q < |t| ensures Before(scores, t[j - 1], t[q]) {
      if q > j {
        assert Before(scores, s[j - 1], s[q]);
      }
    }
  }

  /** Once the predecessor scores at least as high, the state is ranked. */
  lemma SiftDone(scores: seq<real>, s: seq<nat>, j: nat, x: nat)
    requires Sifting(scores, s, j, x)
    requires j == 0 || scores[s[j - 1]] >= scores[s[j]]
    ensures RankedBy(scores, s)
  {
    forall p, q | 0 <= p < q < |s| ensures Before(scores, s[p], s[q]) {
      if q == j {
        assert Before(scores, s[p], s[j - 1]) || p == j - 1;
      }
    }
  }

  /** Exchange two entries of the array; its contents stay a permutation. */
  method Swap(a: array<nat>, p: nat, q: nat)
    modifies a
    requires p < a.Length && q < a.Length
    ensures a[..] == old(a[..])[p := old(a[q])][q := old(a[p])]
    ensures multiset(a[..]) == multiset(old(a[..]))
  {
    a[p], a[q] := a[q], a[p];
  }

  /** One pass of the stable in-place sort: the entry at `i`, larger than
      every index before it, moves up past each entry with a strictly lower
      score, so the prefix through `i` is ranked. */
  method SiftUp(scores: seq<real>, indices: array<nat>, i: nat)
    modifies indices
    requires i < indices.Length && indices[i] < |scores|
    requires forall k :: 0 <= k < i ==> indices[k] < indices[i]
    requires RankedBy(scores, indices[..i])
    ensures RankedBy(scores, indices[..i + 1])
    ensures forall k :: 0 <= k <= i ==> indices[k] <= old(indices[i])
    ensures indices[i + 1..] == old(indices[i + 1..])
    ensures multiset(indices[..]) == multiset(old(indices[..]))
  {
    ghost var x := indices[i];
    var j := i;
    assert Sifting(scores, indices[..i + 1], j, x);
    while j > 0 && scores[indices[j - 1]] < scores[indices[j]]
      invariant 0 <= j <= i
      invariant Sifting(scores, indices[..i + 1], j, x)
      invariant indices[i + 1..] == old(indices[i + 1..])
      invariant multiset(indices[..]) == multiset(old(indices[..]))
    {
      ghost var s := indices[..i + 1];
      SiftStep(scores, s, j, x);
      Swap(indices, j - 1, j);
      assert indices[..i + 1] == s[j - 1 := x][j := s[j - 1]];
      j := j - 1;
    }
    SiftDone(scores, indices[..i + 1], j, x);
    forall k | 0 <= k <= i ensures indices[k] <= x {
      assert indices[k] == indices[..i + 1][k];
    }
  }

  /** `rank_idx`: the indices 0 .. n - 1 sorted in place by descending score
      (a stable sort, so ties keep index order), then filtered to the
      strictly positive scores. */
  method RankIdx(scores: seq<real>) returns (ranked: seq<nat>)
    ensures ranked == Ranking(scores)
  {
    var n := |scores|;
    var indices := new nat[n](k => k);
    assert indices[..] == Range(n);
    for i := 0 to n
      invariant forall k :: i <= k < n ==> indices[k] == k
      invariant forall k :: 0 <= k < i ==> indices[k] < i
      invariant RankedBy(scores, indices[..i])
      invariant multiset(indices[..]) == multiset(Range(n))
    {
      SiftUp(scores, indices, i);
      forall k | i + 1 <= k < n ensures indices[k] == k {
        assert indices[k] == indices[i + 1..][k - i - 1];
      }
    }
    assert indices[..n] == indices[..];
    PermutationOfRange(indices[..], n);
    ranked := FilterPositive(scores, indices[..]);
    FilterPositiveRanked(scores, indices[..]);
    RankedUnique(scores, ranked, Ranking(scores));
  }

  // ---------------------------------------------------------------------------
  // Scoring a query
  // ---------------------------------------------------------------------------

  /** The similarity of the query with every document row. */
  function Similarities(query: seq<real>, rows: seq<seq<real>>, sqrt: real -> real): (sims: seq<real>)
    requires SqrtPositive(sqrt)
    ensures |sims| == |rows|
    ensures forall i :: 0 <= i < |rows| ==> sims[i] == Cosine(query, rows[i], sqrt)
  {
    seq(|rows|, i requires 0 <= i < |rows| => Cosine(query, rows[i], sqrt))
  }

  /** `score_query` without the printing: the (path, similarity) lines it
      reports, which are the first min(top_n, |ranking|) entries of the
      ranking, in ranked order; every reported score is positive and the
      scores never increase down the list. */
  method ScoreQuery(testVec: seq<real>, tfIdf: seq<seq<real>>, pathList: seq<string>, topN: nat,
                    sqrt: real -> real)
    returns (report: seq<(string, real)>)
    requires SqrtPositive(sqrt)
    requires |tfIdf| <= |pathList|
    ensures var sims := Similarities(testVec, tfIdf, sqrt);
      var ranking := Ranking(sims);
      && |report| == (if |ranking| < topN then |ranking| else topN)
      && forall k :: 0 <= k < |report| ==> report[k] == (pathList[ranking[k]], sims[ranking[k]])
    ensures forall k :: 0 <= k < |report| ==> report[k].1 > 0.0
    ensures forall p, q :: 0 <= p < q < |report| ==> report[p].1 >= report[q].1
  {
    var cosSim := Similarities(testVec, tfIdf, sqrt);
    var rankingIdx := RankIdx(cosSim);
    var top := if |rankingIdx| < topN then |rankingIdx| else topN;
    report := TopLines(pathList, cosSim, rankingIdx, top);
    RankingScores(cosSim);
  }

  /** The loop of `score_query`: one (path, score) line for each of the
      first `top` ranked indices, in ranked order. */
  method TopLines(pathList: seq<string>, scores: seq<real>, ranking: seq<nat>, top: nat)
    returns (report: seq<(string, real)>)
    requires top <= |ranking|
    requires |scores| <= |pathList| && InRange(scores, ranking)
    ensures |report| == top
    ensures forall k :: 0 <= k < top ==> report[k] == (pathList[ranking[k]], scores[ranking[k]])
  {
    report := [];
    for k := 0 to top
      invariant |report| == k
      invariant forall m :: 0 <= m < k ==> report[m] == (pathList[ranking[m]], scores[ranking[m]])
    {
      var i := ranking[k];
      report := report + [(pathList[i], scores[i])];
    }
  }

  /** Down the ranking every score is positive and no score is higher than
      the one before it. */
  lemma RankingScores(scores: seq<real>)
    ensures var r := Ranking(scores);
      && (forall k :: 0 <= k < |r| ==> scores[r[k]] > 0.0)
      && (forall p, q :: 0 <= p < q < |r| ==> scores[r[p]] >= scores[r[q]])
  {
    var r := Ranking(scores);
    forall k | 0 <= k < |r| ensures scores[r[k]] > 0.0 {
      assert r[k] in r;
    }
    forall p, q | 0 <= p < q < |r| ensures scores[r[p]] >= scores[r[q]] {
      assert Before(scores, r[p], r[q]);
    }
  }
}
