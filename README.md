# BM25 paragraph ranking, modelled in Dafny

This project models the ranking engine of the `cs410-final` browser extension. The extension's content script treats each paragraph of a page as a document. It scores every paragraph against the user's query with BM25, picks the best paragraph and scrolls to it. The model covers the ranking itself, in four modules:

- `Tokenizer` (`tokenizer.dfy`): `text.split(" ")`, which splits on the single space character only, and an ASCII `toLowerCase`.
- `CorpusStats` (`corpus_stats.dfy`): the collection statistics. These are the number of documents N (`NumberOfDocs`, which is `|docs|`), document length, average length, the case-insensitive term count, the document frequency n, and the smoothed IDF `ln((N - n + 0.5)/(n + 0.5) + 1)`.
- `Scorer` (`scorer.dfy`): the per-term BM25 score and the per-query sum.
- `Selector` (`selector.dfy`): the score table, and the arg-max fold with its first-maximum-wins tie-break.

A document is its `textContent`, a `string`, and the collection is a `seq<string>`. Arithmetic is exact, over `real`: the average length is the rational sum / N. `Math.log` is a parameter `ln: real -> real`. When a lemma needs the logarithm to be positive, it requires `forall x :: x > 1.0 ==> ln(x) > 0.0`. `CorpusStats.IdfDecreasing` also requires it to be strictly increasing; "## Left out" lists both assumptions. Where the source loops (`getAverageDocumentLength`, `countTermInDoc`, `getInverseDocumentFrequency`, `scoreDoc`, `scoreDocs`), the model is a method with loop invariants. Each method is proved equal to a recursive specification function, and the properties are proved about those functions. The straight-line `scoreQueryTerm` is the function `Scorer.TermScore`. The `reduce` of `getBestDoc` is the recursive `Selector.BestIndex`.

Behaviours the model keeps as the code has them:

- **Tie-break.** The code keeps the accumulator unless a later score is strictly greater (`content.js:158`), so of equal maxima the lowest index wins. The doc-comment at `content.js:148` speaks of recency; the model follows the code.
- **Length normalisation.** It uses the number of documents N, not the document's own length (`content.js:101-102`). As a result a term's score depends on the document only through the term's count (`Scorer.TermScoreIgnoresDocumentLength`).
- **Empty and spaced-out text.** `"".split(" ")` is `[""]`, and consecutive, leading or trailing spaces produce empty tokens. So the empty query is the single term `""`, which matches every empty token of a document: `""` occurs once among the tokens of "a  b" (`Selector.EmptyQueryMatchesEmptyToken`). The empty query scores 0 against every document without an empty token (`Selector.EmptyQueryScoresZero`). Take 0 <= b <= 1, k > 0 and a logarithm positive above 1. Then it scores strictly above 0 against every document that has an empty token (`Selector.EmptyQueryScoresPositive`). So an empty query does not score 0 for every passage.
- **Empty collection.** The `reduce` with no initial value fails on an empty list. `Selector.Rank` returns `Err(EmptyCollection)` in that case, and otherwise `Ok(i)` with the index of the chosen paragraph.

## Model

| member | source | states |
|---|---|---|
| Tokenizer.Split | cs410-chrome-extension/content.js:61 | `split(" ")` returns exactly one more token than there are spaces (so at least one token, `[""]` for the empty text), and no token contains a space |
| Tokenizer.JoinSplit | cs410-chrome-extension/content.js:61 | joining the tokens with single spaces gives back the original text, so splitting loses and invents nothing |
| Tokenizer.SplitJoin | cs410-chrome-extension/content.js:122 | splitting the space-join of space-free tokens gives back exactly those tokens, including empty ones |
| Tokenizer.SplitSpaceFree | cs410-chrome-extension/content.js:122 | a text without a space is a single token, itself |
| Tokenizer.SplitAtSpace | cs410-chrome-extension/content.js:122 | splitting `a + " " + b` gives the tokens of `a` followed by the tokens of `b` |
| Tokenizer.Lower | cs410-chrome-extension/content.js:64-65 | lower-casing keeps the length and leaves no ASCII upper-case letter |
| Tokenizer.LowerIdempotent | cs410-chrome-extension/content.js:64-65 | lower-casing an already lower-cased text changes nothing |
| CorpusStats.NumberOfDocs | cs410-chrome-extension/content.js:28-30 | N is the number of documents in the collection |
| CorpusStats.DocumentLength | cs410-chrome-extension/content.js:37-39 | every document has length at least 1, namely its number of spaces plus one |
| CorpusStats.TotalLengthAtLeastCount | cs410-chrome-extension/content.js:47-50 | the summed lengths are at least N |
| CorpusStats.AverageLength | cs410-chrome-extension/content.js:46-52 | for N >= 1 the average length is at least 1, so `D/averageDocumentLength` is defined |
| CorpusStats.AverageDocumentLength | cs410-chrome-extension/content.js:46-52 | the loop returns the sum of all N document lengths, accumulated in document order, divided by N, and the result is >= 1 |
| CorpusStats.TermCount | cs410-chrome-extension/content.js:62-69 | specification of the counting loop: the number of tokens equal to the term after both are lower-cased, accumulated in token order |
| CorpusStats.TermCountAtMostTokens | cs410-chrome-extension/content.js:60-71 | a term's count in a token list is at most the number of tokens |
| CorpusStats.TermCountZeroIff | cs410-chrome-extension/content.js:60-71 | the count is 0 exactly when no token equals the term after both are lower-cased |
| CorpusStats.TermCountCaseInsensitive | cs410-chrome-extension/content.js:64-66 | two terms with the same lower-case form have the same count in every token list |
| CorpusStats.TermCountOfLowered | cs410-chrome-extension/content.js:64-66 | a term and its lower-cased form count the same |
| CorpusStats.CountTermInDoc | cs410-chrome-extension/content.js:60-71 | the counting loop returns the case-insensitive count of the term among the document's tokens; it lies between 0 and the document length, and is 0 exactly when no token matches |
| CorpusStats.DocFreq | cs410-chrome-extension/content.js:82-87 | specification of the n loop: the number of documents whose count of the term is > 0, accumulated in document order |
| CorpusStats.DocFreqIsContainingCount | cs410-chrome-extension/content.js:82-87 | n is the size of the set of positions of documents whose count of the term is > 0 |
| CorpusStats.DocFreqAtMostDocs | cs410-chrome-extension/content.js:81-87 | 0 <= n <= N |
| CorpusStats.DocFreqExtremes | cs410-chrome-extension/content.js:82-87 | n = 0 exactly when no document contains the term, and n = N exactly when every document does |
| CorpusStats.IdfArgumentAboveOne | cs410-chrome-extension/content.js:88 | with n <= N the argument `(N - n + 0.5)/(n + 0.5) + 1` of the logarithm exceeds 1 |
| CorpusStats.IdfArgumentDecreasing | cs410-chrome-extension/content.js:88 | a larger n gives a strictly smaller argument of the logarithm |
| CorpusStats.IdfDecreasing | cs410-chrome-extension/content.js:81-88 | with an increasing logarithm, a term found in fewer documents gets a strictly larger IDF |
| CorpusStats.Idf | cs410-chrome-extension/content.js:81-88 | `ln((N - n + 0.5)/(n + 0.5) + 1)` with N the number of documents and n the document frequency |
| CorpusStats.IdfPositive | cs410-chrome-extension/content.js:81-88 | with a logarithm positive above 1 every IDF is strictly positive |
| CorpusStats.InverseDocumentFrequency | cs410-chrome-extension/content.js:79-89 | the loop computes the logarithm of the smoothed ratio for n = the number of documents containing the term; the result is positive when the logarithm is positive above 1 |
| Scorer.TermScore | cs410-chrome-extension/content.js:97-108 | scoreQueryTerm: `idf * count*(k+1) / (count + k*(1 - b + b*(N/avgdl)))`, with the IDF, count and average length of the collection; its properties are the TermScore lemmas below |
| Scorer.BExpressionPositive | cs410-chrome-extension/content.js:102 | `1 - b + b*(D/avgdl)` is positive for 0 <= b <= 1, D >= 1 and avgdl > 0 |
| Scorer.FractionIncreasing | cs410-chrome-extension/content.js:103-105 | for k > 0 and a positive normalisation the denominators are positive, and `count*(k+1)/(count + k*b_expression)` is non-negative and strictly increasing in the count |
| Scorer.WeightedFractionIncreasing | cs410-chrome-extension/content.js:103-106 | multiplying by a positive IDF keeps the fraction non-negative and strictly increasing |
| Scorer.LengthNormPositive | cs410-chrome-extension/content.js:100-102 | the length normalisation of a non-empty collection is positive for 0 <= b <= 1 |
| Scorer.StandardHyperparametersDefined | cs410-chrome-extension/content.js:102-105 | for 0 <= b <= 1 and k > 0 the denominator is positive, so every term score is a number |
| Scorer.TermScoreZeroWhenAbsent | cs410-chrome-extension/content.js:103-106 | a term that does not occur in the document scores exactly 0 whenever the denominator is non-zero |
| Scorer.TermScorePositiveWhenPresent | cs410-chrome-extension/content.js:97-107 | a term that occurs in the document scores strictly more than 0 (0 <= b <= 1, k > 0, logarithm positive above 1) |
| Scorer.TermScorePositiveForPositiveIdf | cs410-chrome-extension/content.js:103-106 | the same, given a positive IDF |
| Scorer.TermScoreIncreasing | cs410-chrome-extension/content.js:97-107 | with 0 <= b <= 1, k > 0, a non-empty collection and a logarithm positive above 1, a document with a higher count of the term gets a strictly higher term score |
| Scorer.TermScoreIncreasingForPositiveIdf | cs410-chrome-extension/content.js:103-106 | the same, given a positive IDF |
| Scorer.TermScoreIgnoresDocumentLength | cs410-chrome-extension/content.js:99-106 | two documents with the same count of the term get the same term score, whatever their lengths, because the normalisation uses N |
| Scorer.DocScore | cs410-chrome-extension/content.js:120-127 | specification of scoreDoc: the sum of the term scores over `query.split(" ")`, in order, duplicates included |
| Scorer.QueryScoreAppend | cs410-chrome-extension/content.js:122-125 | the score of a concatenated token list is the sum of the two lists' scores |
| Scorer.DocScoreOfJoinedQueries | cs410-chrome-extension/content.js:120-127 | the score of `q1 + " " + q2` is the score of `q1` plus the score of `q2`, so a repeated query term is counted once per occurrence |
| Scorer.QueryScoreZeroWhenNoMatch | cs410-chrome-extension/content.js:120-127 | a document containing none of the query tokens scores exactly 0 |
| Scorer.QueryScoreIncreasing | cs410-chrome-extension/content.js:120-127 | with 0 <= b <= 1, k > 0, a non-empty collection and a logarithm positive above 1, a document with a higher count of every token of a non-empty token list scores strictly higher; in particular one containing every query term beats one containing none |
| Scorer.ScoreDoc | cs410-chrome-extension/content.js:120-127 | the loop returns the sum of the term scores over `query.split(" ")`, in order and with duplicates |
| Selector.StandardHyperparametersRankDefined | cs410-chrome-extension/content.js:138-145 | for 0 <= b <= 1 and k > 0 every document's score is defined for every query |
| Selector.ScoreDocs | cs410-chrome-extension/content.js:138-145 | the map has exactly the keys 0..N-1, and entry i is the score of document i |
| Selector.FirstMaxUnique | cs410-chrome-extension/content.js:158 | a sequence of scores has at most one first maximum |
| Selector.BestIndex | cs410-chrome-extension/content.js:158 | the fold that replaces the accumulator only on a strictly greater score yields a valid index whose score is at least every score and strictly above every earlier score |
| Selector.Rank | cs410-chrome-extension/content.js:156-159 | specification of getBestDoc: `Err(EmptyCollection)` for an empty collection, otherwise the fold over the score table |
| Selector.GetBestDoc | cs410-chrome-extension/content.js:156-159 | scoring all documents and folding the table's entries gives `Rank`: `Err(EmptyCollection)` for an empty collection, otherwise the first arg-max |
| Selector.RankFailsIffEmpty | cs410-chrome-extension/content.js:157-158 | ranking fails exactly when the collection is empty |
| Selector.RankIsFirstMax | cs410-chrome-extension/content.js:156-159 | for a non-empty collection the chosen index is valid, its score is at least every document's score, and every earlier document scores strictly less |
| Selector.RankIsOnlyFirstMax | cs410-chrome-extension/content.js:158 | conversely, any first maximum of the scores is the index ranking returns |
| Selector.RankTieBreak | cs410-chrome-extension/content.js:158 | of two identical documents the later one is never returned |
| Selector.RankAllEqual | cs410-chrome-extension/content.js:158 | when all documents score the same, index 0 is returned |
| Selector.RankSingle | cs410-chrome-extension/content.js:156-159 | a one-document collection always ranks to index 0 |
| Selector.EmptyQueryMatchesEmptyToken | cs410-chrome-extension/content.js:122 | the empty query splits into `[""]`, and `""` occurs once in the tokens `["a", "", "b"]` of "a  b" |
| Selector.EmptyQueryScoresZero | cs410-chrome-extension/content.js:120-127 | the empty query scores 0 against a document none of whose tokens is empty |
| Selector.EmptyQueryScoresPositive | cs410-chrome-extension/content.js:120-127 | with 0 <= b <= 1, k > 0 and a logarithm positive above 1, the empty query scores strictly above 0 against a document that has an empty token |
| Selector.DocScoreSingleTerm | cs410-chrome-extension/content.js:120-127 | a query without spaces scores exactly its one term's score |
| Selector.SingleTermRanksByCount | cs410-chrome-extension/content.js:97-159 | for a one-term query with 0 <= b <= 1, k > 0 and a logarithm positive above 1, ranking returns the first document with the highest count of the term |

## Left out

- The message listener (`content.js:13-21`) is browser I/O and is not modelled. It resets colours, calls `scrollIntoView` and `console.log`, and walks an undefined `docs` variable.
- The DOM queries (`content.js:8-9`) are not modelled: documents are given as their text. The constants `B_HYPERPARAM = .75` and `K1_HYPERPARAM = 1.2` (`content.js:10-11`) become the parameters `b` and `k`.
- `popup.js` is not part of this model: it holds only button wiring and cross-tab messaging.
- Floating point is replaced by exact reals: rounding, Infinity and NaN are not modelled. Any zero denominator `count + k*b_expression` is excluded by the precondition `TermScoreDefined`, rather than modelled as NaN or Infinity and JavaScript's comparisons against those values. `StandardHyperparametersDefined` shows that the precondition always holds for a non-empty collection with 0 <= b <= 1 and k > 0, the source's constants included.
- `Math.log` is the parameter `ln`. Only two of its properties are assumed, each only by the lemmas that need it. Several lemmas assume it is positive above 1. `CorpusStats.IdfDecreasing` also assumes it is strictly increasing on the positive reals.
- `toLowerCase` is modelled for ASCII letters only, with no Unicode case mapping.
- `getBestDoc` returns the element `docs[maxDocIndex]`; the model returns the index `maxDocIndex`. The empty-collection failure is a `Result` value instead of a thrown `TypeError`.
- `scoreQueryTerm` is straight-line code and is modelled as the function `Scorer.TermScore`. The statistics it recomputes on each call (IDF, count, average length) are the corresponding specification functions, which the loop methods are proved to compute.
- The source's undeclared variables (`queryTerms`, `scoreMap`, `score`, `maxDocIndex`) are implicit globals. The model has no global state: each is a local value.
- The three-passage example `["the cat sat", "the cat sat on the mat", "dogs bark"]` with the query "cat" is not proved on those literal strings. It is an instance of `Selector.SingleTermRanksByCount`: the counts of "cat" are 1, 1 and 0, so index 0 is chosen.
