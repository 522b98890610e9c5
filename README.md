# sesquioxide TF-IDF engine in Dafny

This project models the indexing and ranking engine of sesquioxide, a small
document search tool, and proves properties of the model. The engine works in
five steps:

- It tokenises text: split on single spaces, then drop empty pieces and stop words.
- It counts the vocabulary of a tokenised corpus.
- It builds the term-count (TF) matrix, the per-word weights (IDF) and their product (TF-IDF).
- It turns a query into a vector over the same vocabulary.
- It ranks documents by cosine similarity and reports the best `top_n`.

Modules, one per source file:

- `Wrappers` (`wrappers.dfy`): the `Result` type used for the error paths.
- `TextProcess` (`text_process.dfy`): `tokenise` and `get_all_words` (src/text_process/actions.rs).
- `Calculations` (`calculations.dfy`): dot product, magnitude, cosine similarity, the TF, IDF and TF-IDF builders, `rank_idx` and the selection in `score_query` (src/calculations.rs).
- `Model` (`model.dfy`): the `Model` record and `Model::new` (src/model.rs).
- `Loading` (`loading.dfy`): `process_input` (src/loading.rs).

Modelling choices:

- `f64` becomes `real`.
- The square root and the natural logarithm become parameters of type `real -> real`. Predicates state what a proof needs of them:
  - `SqrtPositive`: positive on positive arguments.
  - `IsSqrt`: the real square root.
  - `IsLnLike`: `ln 1 = 0` and strictly increasing.
- The stop-word list becomes a parameter `set<string>`.
- The `HashMap<String, i32>` vocabulary becomes a `Vocabulary`:
  - The distinct words in one fixed order, the order of first appearance.
  - A map from each word to its count.
  - The Rust code relies on repeated iteration of one `HashMap` giving the same order (src/calculations.rs:32, src/calculations.rs:47, src/loading.rs:93). The model makes that order explicit and uses it for every matrix column and every query position.
- Imperative code stays imperative:
  - `get_all_words`, `tf_calculation`, `tf_idf_calculation`, `process_input` and the report loop of `score_query` are methods with loops.
  - `rank_idx` sorts an `array` of indices in place.
  - Each method is proved equal to a specification function, or its result is characterised cell by cell.
- `Model::new` is a method, because the builders it composes are methods.

## Model

| member | source | states |
|---|---|---|
| TextProcess.Split | src/text_process/actions.rs:7-8 | splitting on ' ' always yields at least one piece, and no piece contains a space |
| TextProcess.JoinSplit | src/text_process/actions.rs:7-8 | splitting loses nothing: gluing the pieces back with single spaces gives the original text |
| TextProcess.SplitJoin | src/text_process/actions.rs:7-8 | splitting is the inverse of joining space-free pieces with single spaces |
| TextProcess.KeepTokens | src/text_process/actions.rs:9-11 | the filter keeps a piece exactly when it occurs in the input, is non-empty and is not a stop word, and it never lengthens the input |
| TextProcess.KeepTokensAppend | src/text_process/actions.rs:9-11 | the filter keeps the input order: filtering a concatenation concatenates the filtered parts |
| TextProcess.Tokenise | src/text_process/actions.rs:6-18 | the error "No words found." is returned exactly when no piece survives the filter; otherwise the result is the surviving pieces in order, non-empty, and every token is non-empty, has no space and is not a stop word |
| TextProcess.TokeniseExample | src/text_process/actions.rs:68-75 | "this is some text" tokenises to ["text"] when "this", "is" and "some" are stop words and "text" is not |
| TextProcess.TokeniseEmpty | src/text_process/actions.rs:77-83 | the empty text gives the error "No words found." |
| TextProcess.FlattenHas | src/text_process/actions.rs:52-54 | a token occurs in the flattened corpus exactly when some document holds it |
| TextProcess.TallyAllCounts | src/text_process/actions.rs:55-58 | counting tokens one by one yields distinct words, exactly the tokens seen, each mapped to its number of occurrences |
| TextProcess.VocabularyOfSpec | src/text_process/actions.rs:49-62 | the vocabulary's words are exactly the tokens found in some document; each count is the token's number of occurrences across all documents, at least 1; an empty corpus gives an empty vocabulary |
| TextProcess.CountsSumToTokens | src/text_process/actions.rs:55-58 | the counts add up to the total number of tokens in the corpus |
| TextProcess.GetAllWords | src/text_process/actions.rs:49-62 | the in-place counting loop (find or insert a zero entry, then add one) returns exactly the vocabulary described by VocabularyOfSpec |
| Calculations.DotSymmetric | src/calculations.rs:5-7 | the dot product does not depend on the order of its arguments |
| Calculations.DotZippedPrefix | src/calculations.rs:5-7 | only the zipped common prefix counts: entries past the shorter vector's length are ignored |
| Calculations.Dot | src/calculations.rs:5-7 | the dot product is the sum of pairwise products over the zipped prefix; a zero vector on either side gives 0 |
| Calculations.DotIsSumOfProducts | src/calculations.rs:5-7 | for equally long vectors the dot product is the sum of the pairwise products |
| Calculations.SumPositive | src/calculations.rs:6 | a sum with no negative entry and one positive entry is positive, so such a dot product is positive |
| Calculations.DotExample | src/calculations.rs:110-117 | [1, 2, 3] with itself has dot product 14 |
| Calculations.SumOfSquaresIsSelfDot | src/calculations.rs:10-12 | the sum under the magnitude's square root is the dot product of the vector with itself |
| Calculations.SumOfSquaresPositive | src/calculations.rs:10-12 | the sum under the square root is positive exactly when the vector is not zero |
| Calculations.Magnitude | src/calculations.rs:10-12 | the magnitude is the square-root parameter applied to the sum of squares; with the real square root it is the non-negative root of the vector's dot product with itself, and it is positive for a non-zero vector |
| Calculations.NonZeroDotNonZeroVectors | src/calculations.rs:18-23 | a non-zero dot product needs a non-zero entry in each vector, so the division branch never sees a zero vector |
| Calculations.MagnitudesPositive | src/calculations.rs:21-23 | on the division branch the product of the two magnitudes is positive, so the division is defined |
| Calculations.Cosine | src/calculations.rs:15-25 | the similarity is 0 exactly when the dot product is 0 and positive exactly when the dot product is positive |
| Calculations.CosineSymmetric | src/calculations.rs:15-25 | the similarity does not depend on the order of its arguments |
| Calculations.CosineWithZero | src/calculations.rs:15-19 | the similarity with a zero vector is 0, on either side, without any magnitude |
| Calculations.CosineSelf | src/calculations.rs:127-133 | with the real square root, a non-zero vector has similarity exactly 1 with itself |
| Calculations.CosineOrthogonalExample | src/calculations.rs:135-141 | the orthogonal pair [4, 2, 3] and [2, -4, 0] has similarity 0 |
| Calculations.CountOf | src/calculations.rs:33-35 | the fold that adds one per equal token yields the token's multiplicity in the document |
| Calculations.TfCalculation | src/calculations.rs:28-40 | the matrix has one row per document and one column per vocabulary word, and cell (i, j) is the number of occurrences of word j in document i |
| Calculations.CountRowSum | src/calculations.rs:143-184 | a row of counts over a word list sums to the listed words' multiplicities in the document |
| Calculations.IdfCalculation | src/calculations.rs:43-50 | there is one weight per vocabulary word, in vocabulary order, and weight j depends only on the number of documents N and one plus word j's count: ln(N / (1 + count)) |
| Calculations.IdfSign | src/calculations.rs:43-50 | for a logarithm, a weight is positive exactly when 1 + count < N and zero exactly when 1 + count = N; a word occurring N or more times gets a negative weight |
| Calculations.TfIdfCalculation | src/calculations.rs:53-64 | the result is as tall as the counts and as wide as their first row; cell (i, j) is tf[i][j] * idf[j] for j below the number of weights, and every later column is 0 |
| Calculations.TfIdfExample | src/calculations.rs:222-230 | the row [1, 1, 1] with the single weight 1 gives [[1, 0, 0]] |
| Calculations.FilterPositive | src/calculations.rs:76-80 | the filter keeps exactly the listed indices whose score is strictly positive, and never lengthens the list |
| Calculations.FilterPositiveRanked | src/calculations.rs:76-80 | filtering a list in ranking order leaves it in ranking order |
| Calculations.FilterPositiveDistinct | src/calculations.rs:76-80 | filtering a list without repeats leaves it without repeats |
| Calculations.SortRanked | src/calculations.rs:70-74 | sorting distinct indices yields the same indices in ranking order: descending score, equal scores by ascending index |
| Calculations.Ranking | src/calculations.rs:67-81 | the ranking lists every index with a strictly positive score and no other, in ranking order, each once |
| Calculations.RankedUnique | src/calculations.rs:70-74 | two lists in ranking order with the same members are equal, so the stable descending order fixes the result |
| Calculations.RankingEmpty | src/calculations.rs:76-80 | nothing is ranked exactly when no score is positive |
| Calculations.RankingScores | src/calculations.rs:67-81 | down the ranking every score is positive and no score exceeds the one before it |
| Calculations.RankingExample | src/calculations.rs:232-239 | the scores [1, 3, 2, 6, 5, 0, 0, 0] rank as [3, 4, 1, 2, 0] |
| Calculations.PermutationOfRange | src/calculations.rs:68 | an array holding a permutation of 0 .. n - 1 contains exactly the indices below n |
| Calculations.SiftStep | src/calculations.rs:70-74 | swapping the moving index with a lower-scored predecessor keeps all other pairs in ranking order |
| Calculations.SiftDone | src/calculations.rs:70-74 | once the predecessor scores at least as high, the whole prefix is in ranking order |
| Calculations.Swap | src/calculations.rs:70-74 | exchanging two array entries changes only those two and keeps the contents a permutation |
| Calculations.SiftUp | src/calculations.rs:70-74 | one pass of the stable in-place sort puts the prefix through i in ranking order and only permutes that prefix |
| Calculations.RankIdx | src/calculations.rs:67-81 | sorting the indices in place and then filtering gives exactly Ranking(scores) |
| Calculations.Similarities | src/calculations.rs:84-88 | there is one similarity per document row, and entry i is the cosine similarity of the query with row i |
| Calculations.TopLines | src/calculations.rs:92-101 | the report holds one (path, score) line for each of the first `top` ranked indices, in ranked order |
| Calculations.ScoreQuery | src/calculations.rs:83-104 | the report holds the first min(top_n, size of the ranking) ranked documents in ranked order, each with its path and similarity; every reported score is positive and no score exceeds the one above it |
| Loading.QueryVector | src/loading.rs:89 | the query vector has one entry per weight |
| Loading.ProcessInput | src/loading.rs:80-100 | the error "Empty query" is returned exactly for an empty query; otherwise entry c is the weight of the c-th vocabulary word if the query holds that word, and 0 otherwise |
| Loading.QueryVectorBySet | src/loading.rs:93-97 | presence is binary: two queries holding the same words give the same vector, whatever the repeats or order |
| Loading.OutOfVocabularyIsZero | src/loading.rs:93-97 | a query sharing no word with the vocabulary gives the zero vector |
| Loading.OutOfVocabularyRanksNothing | src/loading.rs:93-97 | such a query has similarity 0 with every document, so nothing is ranked |
| Loading.OwnDocumentRanked | src/loading.rs:93-97 | a document used as its own query is ranked whenever one of its words has a non-zero weight |
| Loading.ProcessInputExample | src/loading.rs:167-190 | a query of three whole sentences matches no single vocabulary word, so with one weight the vector is [0] |
| Loading.ProcessInputEmptyExample | src/loading.rs:192-210 | an empty query is rejected with "Empty query" |
| Model.New | src/model.rs:13-28 | the model holds the corpus's vocabulary; counts, weights and products share that word order; tf has one row per document and one column per word; idf has one entry per word; every cell satisfies tf_idf[i][j] = tf[i][j] * idf[j] with no padding |
| Model.WeightsAgree | src/model.rs:14-18 | over the corpus's own vocabulary, weight j uses word j's number of occurrences in the whole corpus |
| Model.TfRowSums | src/model.rs:14-16 | every TF row sums to its document's length, because each token is counted under exactly one vocabulary word |
| Model.TfRowSumsExample | src/calculations.rs:143-184 | the three-document test corpus has TF row sums [4, 4, 2] |
| Model.IdfPositive | src/model.rs:18 | a model weight is positive exactly when one plus the word's occurrences is below the number of documents, and zero exactly when they are equal |
| Model.TfIdfZero | src/model.rs:20 | a TF-IDF cell is zero exactly when the document lacks the word or the word's weight is zero |

## Left out

- Reading files is not modelled, because it is I/O: `walk_directory`, `load_paths`, `load_corpus` and `extract_contents` (src/loading.rs:7-77).
- `clean_up_text` is not modelled, because it is substitution through a regular-expression library the model cannot see.
- The interactive loop in src/main.rs is not modelled, because it reads stdin, exits the process and prints.
- The printing and two-decimal rounding in `score_query` are display only. ScoreQuery returns the (path, score) lines that would be printed.
- Floating point is modelled as exact reals, because `f64` rounding is not part of the model. As a result:
  - The bit-exact test values are not stated: the magnitude 3.7416573867739413 and the IDF sum 2.4327906486489868.
  - The NaN panic of `partial_cmp(...).expect` cannot occur over reals.
- `sqrt` and `ln` are parameters, not computed. Properties that need them require `SqrtPositive`, `IsSqrt` or `IsLnLike`.
- The stop-word list is a parameter, because its module is not part of this model.
- The `HashMap` hashing and iteration order is not modelled. The model uses one explicit word order, first appearance, which every builder and the query vector share.
- The `i32` word counters are unbounded integers. Overflow after 2^31 - 1 occurrences is not modelled.
- Model.New: requires a non-empty corpus, because `tf_idf_calculation` reads `tf_vals[0]` (src/calculations.rs:55) and panics on an empty corpus. The only caller of `Model::new` is `main` (src/main.rs:43). Before that call, `load_corpus` returns the error "No words extracted from files." for an empty corpus (src/loading.rs:57-58), and `main` exits on that error (src/main.rs:34-40).
- TfIdfCalculation: zero-pads columns beyond the number of weights, as the code does (src/calculations.rs:55-61). When the first count row or any other row is shorter than the weights, the code panics at `tf_idf[c1][c2] = doc[c2] * word` (src/calculations.rs:59); the requires excludes exactly those inputs.
- IdfCalculation: requires non-negative counts. The code accepts any `i32`, and a count of -1 would divide by zero. Counts from `get_all_words` are at least 1.
- ScoreQuery: requires at least as many paths as documents. This is stronger than the code, which only reads the paths of the reported documents. In the program, corpus index i and path index i stop matching once `load_corpus` skips a file that fails to extract (src/loading.rs:51-55); from then on `score_query` prints another file's path for a document (src/calculations.rs:100). The model pairs document i with path i, as the code does.
- RankIdx: Rust's `sort_by` (a stable merge sort) is replaced by an in-place insertion sort. Both are stable. RankIdx is proved equal to Ranking, and RankedUnique shows the stable order admits only one result.
- The `get_all_words` unit test, which expects an exact map for the three-document corpus, is not stated as a concrete lemma. VocabularyOfSpec states the same keys and counts for every corpus.
- Model.TfRowSumsExample: uses the corpus's own vocabulary rather than the test's hand-built map. The two have the same eight words.
- The bound of the cosine similarity to [-1, 1] (Cauchy-Schwarz) is not proved.
