/**
 * The BM25 scorer: the score of one query term against one document, and
 * the score of a whole query, the sum of its terms' scores.
 *
 * The length normalisation is `1 - b + b * (N / avgdl)` with N the number of
 * documents, not the document's own length, exactly as the source writes it;
 * TermScoreIgnoresDocumentLength states the consequence.
 */
module Scorer {
  import opened Tokenizer
  import opened CorpusStats

  /** `b_expression`: 1 - b + b * (D / avgdl), D the number of documents. */
  function BExpression(b: real, D: nat, avg: real): real
    requires avg > 0.0
  {
    1.0 - b + (b * (D as real / avg))
  }

  /** `denominator`: count + k * b_expression. */
  function Denominator(count: real, k: real, bExpression: real): real
  {
    count + (k * bExpression)
  }

  /** `fraction`: count * (k + 1) / denominator, the term-frequency saturation. */
  function Fraction(count: real, k: real, bExpression: real): real
    requires Denominator(count, k, bExpression) != 0.0
  {
    (count * (k + 1.0)) / Denominator(count, k, bExpression)
  }

  /** For 0 <= b <= 1 the normalisation is positive. */
  lemma BExpressionPositive(b: real, D: nat, avg: real)
    requires 0.0 <= b <= 1.0 && D >= 1 && avg > 0.0
    ensures BExpression(b, D, avg) > 0.0
  {
    var ratio := D as real / avg;
    assert ratio * avg == D as real;
    assert ratio > 0.0;
    if b == 1.0 {
      assert BExpression(b, D, avg) == ratio;
    } else {
      assert b * ratio >= 0.0;
    }
  }

  /** With k > 0 and a positive normalisation, the fraction is non-negative and strictly increasing in the count. */
  lemma FractionIncreasing(c1: real, c2: real, k: real, bExpression: real)
    requires 0.0 <= c1 < c2 && k > 0.0 && bExpression > 0.0
    ensures Denominator(c1, k, bExpression) > 0.0 && Denominator(c2, k, bExpression) > 0.0
    ensures 0.0 <= Fraction(c1, k, bExpression) < Fraction(c2, k, bExpression)
  {
    var kb := k * bExpression;
    ProductPositive(k, bExpression);
    var e1, e2 := c1 + kb, c2 + kb;
    var x1, x2 := c1 * (k + 1.0), c2 * (k + 1.0);
    CrossDifference(c1, c2, k, kb);
    ProductPositive(k + 1.0, kb);
    ProductPositive((k + 1.0) * kb, c2 - c1);
    QuotientLess(x2, e2, x1, e1);
    QuotientNonNegative(x1, e1);
  }

  /** The polynomial identity behind FractionIncreasing's cross-multiplication. */
  lemma CrossDifference(c1: real, c2: real, k: real, kb: real)
    ensures (c2 * (k + 1.0)) * (c1 + kb) - (c1 * (k + 1.0)) * (c2 + kb) == (k + 1.0) * kb * (c2 - c1)
  {
  }

  /** The score of one term from its IDF and count: idf * fraction. */
  function Weighted(idf: real, count: real, k: real, bExpression: real): real
    requires Denominator(count, k, bExpression) != 0.0
  {
    idf * Fraction(count, k, bExpression)
  }

  /** Scaling by a positive IDF keeps the order of the fractions. */
  lemma WeightedFractionIncreasing(idf: real, c1: real, c2: real, k: real, bExpression: real)
    requires idf > 0.0 && 0.0 <= c1 < c2 && k > 0.0 && bExpression > 0.0
    ensures Denominator(c1, k, bExpression) > 0.0 && Denominator(c2, k, bExpression) > 0.0
    ensures 0.0 <= Weighted(idf, c1, k, bExpression) < Weighted(idf, c2, k, bExpression)
  {
    FractionIncreasing(c1, c2, k, bExpression);
    ProductLess(idf, Fraction(c1, k, bExpression), Fraction(c2, k, bExpression));
    if Fraction(c1, k, bExpression) > 0.0 {
      ProductPositive(idf, Fraction(c1, k, bExpression));
    }
  }

  /** The length normalisation of the collection. */
  function LengthNorm(docs: seq<string>, b: real): real
    requires |docs| >= 1
  {
    BExpression(b, NumberOfDocs(docs), AverageLength(docs))
  }

  /** The term score is a real number: the collection is non-empty and the denominator is not 0. */
  predicate TermScoreDefined(term: string, doc: string, docs: seq<string>, b: real, k: real)
  {
    |docs| >= 1 && Denominator(TermCount(term, Split(doc)) as real, k, LengthNorm(docs, b)) != 0.0
  }

  /**
   * scoreQueryTerm: idf * count * (k + 1) / (count + k * b_expression), with
   * every statistic computed from the whole collection.
   */
  function TermScore(term: string, doc: string, docs: seq<string>, b: real, k: real, ln: real -> real): real
    requires TermScoreDefined(term, doc, docs, b, k)
  {
    Weighted(Idf(term, docs, ln), TermCount(term, Split(doc)) as real, k, LengthNorm(docs, b))
  }

  /** For 0 <= b <= 1 the length normalisation is positive. */
  lemma LengthNormPositive(docs: seq<string>, b: real)
    requires |docs| >= 1
    requires 0.0 <= b <= 1.0
    ensures LengthNorm(docs, b) > 0.0
  {
    BExpressionPositive(b, NumberOfDocs(docs), AverageLength(docs));
  }

  /** For 0 <= b <= 1 and k > 0 every term score is defined, whatever the count. */
  lemma StandardHyperparametersDefined(term: string, doc: string, docs: seq<string>, b: real, k: real)
    requires |docs| >= 1
    requires 0.0 <= b <= 1.0 && k > 0.0
    ensures TermScoreDefined(term, doc, docs, b, k)
    ensures Denominator(TermCount(term, Split(doc)) as real, k, LengthNorm(docs, b)) > 0.0
  {
    LengthNormPositive(docs, b);
    ProductPositive(k, LengthNorm(docs, b));
  }

  /** A term absent from the document contributes exactly 0. */
  lemma TermScoreZeroWhenAbsent(term: string, doc: string, docs: seq<string>, b: real, k: real, ln: real -> real)
    requires TermScoreDefined(term, doc, docs, b, k)
    requires !Contains(term, doc)
    ensures TermScore(term, doc, docs, b, k, ln) == 0.0
  {
    var count := TermCount(term, Split(doc)) as real;
    assert count == 0.0;
    assert Fraction(count, k, LengthNorm(docs, b)) == 0.0;
  }

  /** A term present in the document contributes a positive score. */
  lemma TermScorePositiveWhenPresent(term: string, doc: string, docs: seq<string>, b: real, k: real, ln: real -> real)
    requires |docs| >= 1
    requires 0.0 <= b <= 1.0 && k > 0.0
    requires forall x :: x > 1.0 ==> ln(x) > 0.0
    requires Contains(term, doc)
    ensures TermScoreDefined(term, doc, docs, b, k)
    ensures TermScore(term, doc, docs, b, k, ln) > 0.0
  {
    IdfPositive(term, docs, ln);
    TermScorePositiveForPositiveIdf(term, doc, docs, b, k, ln);
  }

  lemma TermScorePositiveForPositiveIdf(term: string, doc: string, docs: seq<string>, b: real, k: real, ln: real -> real)
    requires |docs| >= 1
    requires 0.0 <= b <= 1.0 && k > 0.0
    requires Idf(term, docs, ln) > 0.0
    requires Contains(term, doc)
    ensures TermScoreDefined(term, doc, docs, b, k)
    ensures TermScore(term, doc, docs, b, k, ln) > 0.0
  {
    LengthNormPositive(docs, b);
    WeightedFractionIncreasing(Idf(term, docs, ln), 0.0, TermCount(term, Split(doc)) as real, k, LengthNorm(docs, b));
  }

  /**
   * More occurrences of a term give a strictly higher score (0 <= b <= 1,
   * k > 0): the fraction count * (k + 1) / (count + k * b_expression) is
   * increasing in the count.
   */
  lemma TermScoreIncreasing(term: string, d1: string, d2: string, docs: seq<string>, b: real, k: real, ln: real -> real)
    requires |docs| >= 1
    requires 0.0 <= b <= 1.0 && k > 0.0
    requires forall x :: x > 1.0 ==> ln(x) > 0.0
    requires TermCount(term, Split(d1)) < TermCount(term, Split(d2))
    ensures TermScoreDefined(term, d1, docs, b, k) && TermScoreDefined(term, d2, docs, b, k)
    ensures TermScore(term, d1, docs, b, k, ln) < TermScore(term, d2, docs, b, k, ln)
  {
    IdfPositive(term, docs, ln);
    TermScoreIncreasingForPositiveIdf(term, d1, d2, docs, b, k, ln);
  }

  lemma TermScoreIncreasingForPositiveIdf(term: string, d1: string, d2: string, docs: seq<string>, b: real, k: real, ln: real -> real)
    requires |docs| >= 1
    requires 0.0 <= b <= 1.0 && k > 0.0
    requires Idf(term, docs, ln) > 0.0
    requires TermCount(term, Split(d1)) < TermCount(term, Split(d2))
    ensures TermScoreDefined(term, d1, docs, b, k) && TermScoreDefined(term, d2, docs, b, k)
    ensures TermScore(term, d1, docs, b, k, ln) < TermScore(term, d2, docs, b, k, ln)
  {
    LengthNormPositive(docs, b);
    WeightedFractionIncreasing(Idf(term, docs, ln), TermCount(term, Split(d1)) as real,
                               TermCount(term, Split(d2)) as real, k, LengthNorm(docs, b));
  }

  /**
   * The score depends on the document only through the term's count: two
   * documents of any lengths with the same count score the same, because the
   * normalisation uses N rather than the document's length.
   */
  lemma TermScoreIgnoresDocumentLength(term: string, d1: string, d2: string, docs: seq<string>, b: real, k: real, ln: real -> real)
    requires TermScoreDefined(term, d1, docs, b, k)
    requires TermCount(term, Split(d1)) == TermCount(term, Split(d2))
    ensures TermScoreDefined(term, d2, docs, b, k)
    ensures TermScore(term, d1, docs, b, k, ln) == TermScore(term, d2, docs, b, k, ln)
  {
  }

  /** Every query token's score is defined against this document. */
  predicate QueryDefined(tokens: seq<string>, doc: string, docs: seq<string>, b: real, k: real)
  {
    forall i :: 0 <= i < |tokens| ==> TermScoreDefined(tokens[i], doc, docs, b, k)
  }

  /** Sum of the term scores of the query tokens, in order, duplicates included. */
  function QueryScore(tokens: seq<string>, doc: string, docs: seq<string>, b: real, k: real, ln: real -> real): real
    requires QueryDefined(tokens, doc, docs, b, k)
  {
    if |tokens| == 0 then 0.0
    else
      var last := |tokens| - 1;
      QueryScore(tokens[..last], doc, docs, b, k, ln) + TermScore(tokens[last], doc, docs, b, k, ln)
  }

  /** The BM25 score of a document for a query string. */
  function DocScore(query: string, doc: string, docs: seq<string>, b: real, k: real, ln: real -> real): real
    requires QueryDefined(Split(query), doc, docs, b, k)
  {
    QueryScore(Split(query), doc, docs, b, k, ln)
  }

  /** The score of a concatenation of token lists is the sum of their scores. */
  lemma {:induction false} QueryScoreAppend(t1: seq<string>, t2: seq<string>, doc: string, docs: seq<string>, b: real, k: real, ln: real -> real)
    requires QueryDefined(t1 + t2, doc, docs, b, k)
    ensures QueryDefined(t1, doc, docs, b, k) && QueryDefined(t2, doc, docs, b, k)
    ensures QueryScore(t1 + t2, doc, docs, b, k, ln) == QueryScore(t1, doc, docs, b, k, ln) + QueryScore(t2, doc, docs, b, k, ln)
    decreases |t2|
  {
    assert forall i :: 0 <= i < |t1| ==> (t1 + t2)[i] == t1[i];
    assert forall i :: 0 <= i < |t2| ==> (t1 + t2)[|t1| + i] == t2[i];
    if |t2| > 0 {
      var last := |t2| - 1;
      assert (t1 + t2)[..|t1 + t2| - 1] == t1 + t2[..last];
      QueryScoreAppend(t1, t2[..last], doc, docs, b, k, ln);
    } else {
      assert t1 + t2 == t1;
    }
  }

  /**
   * Joining two queries with a space adds their scores, so a query term
   * repeated in the query is scored once per occurrence.
   */
  lemma DocScoreOfJoinedQueries(q1: string, q2: string, doc: string, docs: seq<string>, b: real, k: real, ln: real -> real)
    requires QueryDefined(Split(q1 + " " + q2), doc, docs, b, k)
    ensures QueryDefined(Split(q1), doc, docs, b, k) && QueryDefined(Split(q2), doc, docs, b, k)
    ensures DocScore(q1 + " " + q2, doc, docs, b, k, ln) == DocScore(q1, doc, docs, b, k, ln) + DocScore(q2, doc, docs, b, k, ln)
  {
    SplitAtSpace(q1, q2);
    QueryScoreAppend(Split(q1), Split(q2), doc, docs, b, k, ln);
  }

  /** A document containing none of the query tokens scores exactly 0. */
  lemma {:induction false} QueryScoreZeroWhenNoMatch(tokens: seq<string>, doc: string, docs: seq<string>, b: real, k: real, ln: real -> real)
    requires QueryDefined(tokens, doc, docs, b, k)
    requires forall i :: 0 <= i < |tokens| ==> !Contains(tokens[i], doc)
    ensures QueryScore(tokens, doc, docs, b, k, ln) == 0.0
  {
    if |tokens| > 0 {
      var last := |tokens| - 1;
      assert forall i :: 0 <= i < last ==> tokens[..last][i] == tokens[i];
      QueryScoreZeroWhenNoMatch(tokens[..last], doc, docs, b, k, ln);
      TermScoreZeroWhenAbsent(tokens[last], doc, docs, b, k, ln);
    }
  }

  /**
   * A document in which every query token occurs more often than in another
   * document scores strictly higher (0 <= b <= 1, k > 0); in particular one
   * containing every query token beats one containing none.
   */
  lemma {:induction false} QueryScoreIncreasing(tokens: seq<string>, d1: string, d2: string, docs: seq<string>, b: real, k: real, ln: real -> real)
    requires |tokens| >= 1 && |docs| >= 1
    requires 0.0 <= b <= 1.0 && k > 0.0
    requires forall x :: x > 1.0 ==> ln(x) > 0.0
    requires forall i :: 0 <= i < |tokens| ==> TermCount(tokens[i], Split(d1)) < TermCount(tokens[i], Split(d2))
    ensures QueryDefined(tokens, d1, docs, b, k) && QueryDefined(tokens, d2, docs, b, k)
    ensures QueryScore(tokens, d1, docs, b, k, ln) < QueryScore(tokens, d2, docs, b, k, ln)
  {
    var last := |tokens| - 1;
    var init := tokens[..last];
    assert forall i :: 0 <= i < last ==> init[i] == tokens[i];
    forall i | 0 <= i < |tokens|
      ensures TermScoreDefined(tokens[i], d1, docs, b, k) && TermScoreDefined(tokens[i], d2, docs, b, k)
    {
      StandardHyperparametersDefined(tokens[i], d1, docs, b, k);
      StandardHyperparametersDefined(tokens[i], d2, docs, b, k);
    }
    TermScoreIncreasing(tokens[last], d1, d2, docs, b, k, ln);
    if last > 0 {
      QueryScoreIncreasing(init, d1, d2, docs, b, k, ln);
    }
  }

  /** scoreDoc: the loop adding up the term scores of `query.split(" ")`. */
  method ScoreDoc(query: string, doc: string, docs: seq<string>, b: real, k: real, ln: real -> real)
    returns (score: real)
    requires QueryDefined(Split(query), doc, docs, b, k)
    ensures score == DocScore(query, doc, docs, b, k, ln)
  {
    score := 0.0;
    var queryTerms := Split(query);
    var i := 0;
    while i < |queryTerms|
      invariant 0 <= i <= |queryTerms|
      invariant QueryDefined(queryTerms[..i], doc, docs, b, k)
      invariant score == QueryScore(queryTerms[..i], doc, docs, b, k, ln)
    {
      assert queryTerms[..i + 1][..i] == queryTerms[..i];
      var s := TermScore(queryTerms[i], doc, docs, b, k, ln);
      score := score + s;
      i := i + 1;
    }
    assert queryTerms[..i] == queryTerms;
  }
}
