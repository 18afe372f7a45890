/**
 * The selector: the table of document scores and the choice of the best
 * document, a left fold over the table's entries in index order that
 * replaces the current best only on a strictly greater score. Ties
 * therefore go to the lowest index.
 */
module Selector {
  import opened Tokenizer
  import opened CorpusStats
  import opened Scorer

  datatype Error = EmptyCollection

  datatype Result<T> = Ok(value: T) | Err(error: Error)

  /** Every document of the collection has a defined score for the query. */
  predicate RankDefined(query: string, docs: seq<string>, b: real, k: real)
  {
    forall i :: 0 <= i < |docs| ==> QueryDefined(Split(query), docs[i], docs, b, k)
  }

  /** With 0 <= b <= 1 and k > 0 every score of every document is defined. */
  lemma StandardHyperparametersRankDefined(query: string, docs: seq<string>, b: real, k: real)
    requires 0.0 <= b <= 1.0 && k > 0.0
    ensures RankDefined(query, docs, b, k)
  {
    var tokens := Split(query);
    forall i, j | 0 <= i < |docs| && 0 <= j < |tokens|
      ensures TermScoreDefined(tokens[j], docs[i], docs, b, k)
    {
      StandardHyperparametersDefined(tokens[j], docs[i], docs, b, k);
    }
  }

  /** The scores of the documents, in index order: the entries of the score table. */
  function Scores(query: string, docs: seq<string>, b: real, k: real, ln: real -> real): seq<real>
    requires RankDefined(query, docs, b, k)
  {
    seq(|docs|, i requires 0 <= i < |docs| => DocScore(query, docs[i], docs, b, k, ln))
  }

  /** scoreDocs: the loop filling the map from document index to score. */
  method ScoreDocs(query: string, docs: seq<string>, b: real, k: real, ln: real -> real)
    returns (scoreMap: map<nat, real>)
    requires RankDefined(query, docs, b, k)
    ensures forall i: nat :: i in scoreMap <==> i < |docs|
    ensures forall i :: 0 <= i < |docs| ==> scoreMap[i] == DocScore(query, docs[i], docs, b, k, ln)
  {
    scoreMap := map[];
    var i := 0;
    while i < |docs|
      invariant 0 <= i <= |docs|
      invariant forall j: nat :: j in scoreMap <==> j < i
      invariant forall j :: 0 <= j < i ==> scoreMap[j] == DocScore(query, docs[j], docs, b, k, ln)
    {
      var score := ScoreDoc(query, docs[i], docs, b, k, ln);
      scoreMap := scoreMap[i := score];
      i := i + 1;
    }
  }

  /** Position `j` holds the first maximum of `scores`. */
  predicate IsFirstMax(scores: seq<real>, j: nat)
  {
    j < |scores| &&
    (forall i :: 0 <= i < |scores| ==> scores[i] <= scores[j]) &&
    (forall i :: 0 <= i < j ==> scores[i] < scores[j])
  }

  /** There is at most one first maximum. */
  lemma FirstMaxUnique(scores: seq<real>, i: nat, j: nat)
    requires IsFirstMax(scores, i) && IsFirstMax(scores, j)
    ensures i == j
  {
    assert scores[i] == scores[j];
  }

  /**
   * The `reduce` over the entries (i, scores[i]) in index order: the
   * accumulator, kept as its index, is replaced by the next entry only when
   * that entry's score is strictly greater.
   */
  function BestIndex(scores: seq<real>): (j: nat)
    requires |scores| >= 1
    ensures IsFirstMax(scores, j)
  {
    if |scores| == 1 then 0
    else
      var last := |scores| - 1;
      var init := scores[..last];
      var a := BestIndex(init);
      assert forall i :: 0 <= i < last ==> init[i] == scores[i];
      if scores[last] > scores[a] then last else a
  }

  /** The index of the best document, or the error for an empty collection. */
  function Rank(query: string, docs: seq<string>, b: real, k: real, ln: real -> real): Result<nat>
    requires RankDefined(query, docs, b, k)
  {
    if |docs| == 0 then Err(EmptyCollection) else Ok(BestIndex(Scores(query, docs, b, k, ln)))
  }

  /** getBestDoc: score every document, then fold the entries of the table. */
  method GetBestDoc(query: string, docs: seq<string>, b: real, k: real, ln: real -> real)
    returns (r: Result<nat>)
    requires RankDefined(query, docs, b, k)
    ensures r == Rank(query, docs, b, k, ln)
  {
    var scoreMap := ScoreDocs(query, docs, b, k, ln);
    var entries := seq(|docs|, i requires 0 <= i < |docs| => scoreMap[i]);
    assert entries == Scores(query, docs, b, k, ln);
    if |entries| == 0 {
      r := Err(EmptyCollection);
    } else {
      r := Ok(BestIndex(entries));
    }
  }

  /** The collection is empty exactly when ranking fails. */
  lemma RankFailsIffEmpty(query: string, docs: seq<string>, b: real, k: real, ln: real -> real)
    requires RankDefined(query, docs, b, k)
    ensures Rank(query, docs, b, k, ln) == Err(EmptyCollection) <==> |docs| == 0
    ensures Rank(query, docs, b, k, ln).Ok? <==> |docs| >= 1
  {
  }

  /**
   * A non-empty collection ranks to a valid index whose score is at least
   * every document's score and strictly above every earlier document's score.
   */
  lemma RankIsFirstMax(query: string, docs: seq<string>, b: real, k: real, ln: real -> real)
    requires RankDefined(query, docs, b, k)
    requires |docs| >= 1
    ensures Rank(query, docs, b, k, ln).Ok?
    ensures var j := Rank(query, docs, b, k, ln).value;
      j < |docs| &&
      (forall i :: 0 <= i < |docs| ==> DocScore(query, docs[i], docs, b, k, ln) <= DocScore(query, docs[j], docs, b, k, ln)) &&
      (forall i :: 0 <= i < j ==> DocScore(query, docs[i], docs, b, k, ln) < DocScore(query, docs[j], docs, b, k, ln))
  {
    var scores := Scores(query, docs, b, k, ln);
    var j := BestIndex(scores);
    forall i | 0 <= i < |docs|
      ensures DocScore(query, docs[i], docs, b, k, ln) <= DocScore(query, docs[j], docs, b, k, ln)
    {
      assert scores[i] <= scores[j];
    }
    forall i | 0 <= i < j
      ensures DocScore(query, docs[i], docs, b, k, ln) < DocScore(query, docs[j], docs, b, k, ln)
    {
      assert scores[i] < scores[j];
    }
  }

  /** Conversely, the first maximum of the scores is the only index Rank can return. */
  lemma RankIsOnlyFirstMax(query: string, docs: seq<string>, b: real, k: real, ln: real -> real, j: nat)
    requires RankDefined(query, docs, b, k)
    requires j < |docs|
    requires forall i :: 0 <= i < |docs| ==> DocScore(query, docs[i], docs, b, k, ln) <= DocScore(query, docs[j], docs, b, k, ln)
    requires forall i :: 0 <= i < j ==> DocScore(query, docs[i], docs, b, k, ln) < DocScore(query, docs[j], docs, b, k, ln)
    ensures Rank(query, docs, b, k, ln) == Ok(j)
  {
    var scores := Scores(query, docs, b, k, ln);
    assert IsFirstMax(scores, j);
    FirstMaxUnique(scores, j, BestIndex(scores));
  }

  /** Of two identical documents the later one is never chosen. */
  lemma RankTieBreak(query: string, docs: seq<string>, b: real, k: real, ln: real -> real, i: nat, j: nat)
    requires RankDefined(query, docs, b, k)
    requires i < j < |docs|
    requires docs[i] == docs[j]
    ensures Rank(query, docs, b, k, ln) != Ok(j)
  {
    var scores := Scores(query, docs, b, k, ln);
    assert scores[i] == scores[j];
  }

  /** When every document scores the same, the first document is chosen. */
  lemma RankAllEqual(query: string, docs: seq<string>, b: real, k: real, ln: real -> real)
    requires RankDefined(query, docs, b, k)
    requires |docs| >= 1
    requires forall i :: 0 <= i < |docs| ==> DocScore(query, docs[i], docs, b, k, ln) == DocScore(query, docs[0], docs, b, k, ln)
    ensures Rank(query, docs, b, k, ln) == Ok(0)
  {
    RankIsOnlyFirstMax(query, docs, b, k, ln, 0);
  }

  /** A single document is always chosen. */
  lemma RankSingle(query: string, docs: seq<string>, b: real, k: real, ln: real -> real)
    requires RankDefined(query, docs, b, k)
    requires |docs| == 1
    ensures Rank(query, docs, b, k, ln) == Ok(0)
  {
    RankAllEqual(query, docs, b, k, ln);
  }

  /**
   * The empty query is the single token "", which matches the empty tokens a
   * document gets from consecutive, leading or trailing spaces.
   */
  lemma EmptyQueryMatchesEmptyToken()
    ensures Split("") == [""]
    ensures Split("a  b") == ["a", "", "b"]
    ensures TermCount("", Split("a  b")) == 1
    ensures Contains("", "a  b")
  {
    SplitSpaceFree("a");
    SplitSpaceFree("b");
    assert "" + " " + "b" == " b";
    SplitAtSpace("", "b");
    assert "a" + " " + " b" == "a  b";
    SplitAtSpace("a", " b");
    var t := ["a", "", "b"];
    assert t[..2] == ["a", ""] && t[..2][..1] == ["a"] && t[..2][..1][..0] == [];
    assert |Lower("a")| == 1 && |Lower("b")| == 1;
    assert TermCount("", t[..2][..1]) == 0;
    assert TermCount("", t[..2]) == 1;
    assert TermCount("", t) == 1;
    assert Lower("") == "";
  }

  /** The empty query scores 0 against a document with no empty token. */
  lemma EmptyQueryScoresZero(doc: string, docs: seq<string>, b: real, k: real, ln: real -> real)
    requires QueryDefined(Split(""), doc, docs, b, k)
    requires forall i :: 0 <= i < |Split(doc)| ==> Split(doc)[i] != ""
    ensures DocScore("", doc, docs, b, k, ln) == 0.0
  {
    forall i | 0 <= i < |Split(doc)|
      ensures !Matches("", Split(doc)[i])
    {
      assert |Lower(Split(doc)[i])| > 0;
    }
    TermCountZeroIff("", Split(doc));
    assert Split("") == [""];
    QueryScoreZeroWhenNoMatch(Split(""), doc, docs, b, k, ln);
  }

  /**
   * Conversely, with 0 <= b <= 1, k > 0 and a logarithm positive above 1, the
   * empty query scores above 0 against a document that has an empty token.
   */
  lemma EmptyQueryScoresPositive(doc: string, docs: seq<string>, b: real, k: real, ln: real -> real)
    requires |docs| >= 1
    requires 0.0 <= b <= 1.0 && k > 0.0
    requires forall x :: x > 1.0 ==> ln(x) > 0.0
    requires exists i :: 0 <= i < |Split(doc)| && Split(doc)[i] == ""
    ensures QueryDefined(Split(""), doc, docs, b, k)
    ensures DocScore("", doc, docs, b, k, ln) > 0.0
  {
    var i :| 0 <= i < |Split(doc)| && Split(doc)[i] == "";
    assert Matches("", Split(doc)[i]);
    TermCountZeroIff("", Split(doc));
    TermScorePositiveWhenPresent("", doc, docs, b, k, ln);
    SplitSpaceFree("");
    DocScoreSingleTerm("", doc, docs, b, k, ln);
  }

  /** A query without spaces is one term, and its score is that term's score. */
  lemma DocScoreSingleTerm(q: string, doc: string, docs: seq<string>, b: real, k: real, ln: real -> real)
    requires ' ' !in q
    requires QueryDefined(Split(q), doc, docs, b, k)
    ensures TermScoreDefined(q, doc, docs, b, k)
    ensures DocScore(q, doc, docs, b, k, ln) == TermScore(q, doc, docs, b, k, ln)
  {
    SplitSpaceFree(q);
    var tokens := Split(q);
    assert tokens[0] == q;
    assert TermScoreDefined(tokens[0], doc, docs, b, k);
    assert QueryScore(tokens[..0], doc, docs, b, k, ln) == 0.0;
    assert QueryScore(tokens, doc, docs, b, k, ln) == QueryScore(tokens[..0], doc, docs, b, k, ln) + TermScore(q, doc, docs, b, k, ln);
  }

  /**
   * For a one-term query the ranking follows the term's count: the first
   * document with the highest count is chosen (0 <= b <= 1, k > 0). With
   * the passages "the cat sat", "the cat sat on the mat" and "dogs bark" and
   * the query "cat" the counts are 1, 1 and 0, so passage 0 is chosen.
   */
  lemma SingleTermRanksByCount(q: string, docs: seq<string>, b: real, k: real, ln: real -> real, j: nat)
    requires ' ' !in q
    requires 0.0 <= b <= 1.0 && k > 0.0
    requires forall x :: x > 1.0 ==> ln(x) > 0.0
    requires j < |docs|
    requires forall i :: 0 <= i < |docs| ==> TermCount(q, Split(docs[i])) <= TermCount(q, Split(docs[j]))
    requires forall i :: 0 <= i < j ==> TermCount(q, Split(docs[i])) < TermCount(q, Split(docs[j]))
    ensures RankDefined(q, docs, b, k)
    ensures Rank(q, docs, b, k, ln) == Ok(j)
  {
    StandardHyperparametersRankDefined(q, docs, b, k);
    DocScoreSingleTerm(q, docs[j], docs, b, k, ln);
    forall i | 0 <= i < |docs|
      ensures DocScore(q, docs[i], docs, b, k, ln) <= DocScore(q, docs[j], docs, b, k, ln)
      ensures i < j ==> DocScore(q, docs[i], docs, b, k, ln) < DocScore(q, docs[j], docs, b, k, ln)
    {
      DocScoreSingleTerm(q, docs[i], docs, b, k, ln);
      if TermCount(q, Split(docs[i])) < TermCount(q, Split(docs[j])) {
        TermScoreIncreasing(q, docs[i], docs[j], docs, b, k, ln);
      } else {
        TermScoreIgnoresDocumentLength(q, docs[i], docs[j], docs, b, k, ln);
      }
    }
    RankIsOnlyFirstMax(q, docs, b, k, ln, j);
  }
}
