/**
 * Corpus statistics of the ranking engine: the number of documents, the
 * token count of one document, the average token count, how often a term
 * occurs in a document and in how many documents it occurs, and the
 * smoothed inverse document frequency built from them.
 *
 * A document is the text of one paragraph; the collection is the ordered
 * sequence of those texts.
 */
module CorpusStats {
  import opened Tokenizer

  /** getNumberOfDocs: the number of documents in the collection. */
  function NumberOfDocs(docs: seq<string>): nat
  {
    |docs|
  }

  /** getDocumentLength: the number of tokens of `doc.split(" ")`. */
  function DocumentLength(doc: string): (len: nat)
    ensures len >= 1
    ensures len == SpaceCount(doc) + 1
  {
    |Split(doc)|
  }

  /** Sum of the document lengths, accumulated in document order. */
  function TotalLength(docs: seq<string>): nat
  {
    if |docs| == 0 then 0
    else TotalLength(docs[..|docs| - 1]) + DocumentLength(docs[|docs| - 1])
  }

  /** Every document has at least one token, so the total is at least N. */
  lemma {:induction false} TotalLengthAtLeastCount(docs: seq<string>)
    ensures TotalLength(docs) >= |docs|
  {
    if |docs| > 0 {
      TotalLengthAtLeastCount(docs[..|docs| - 1]);
    }
  }

  /** The average document length, the exact rational sum / N. */
  function AverageLength(docs: seq<string>): (avg: real)
    requires |docs| >= 1
    ensures avg >= 1.0
  {
    TotalLengthAtLeastCount(docs);
    AtLeastOneQuotient(TotalLength(docs), |docs|);
    TotalLength(docs) as real / |docs| as real
  }

  lemma AtLeastOneQuotient(t: nat, n: nat)
    requires 1 <= n <= t
    ensures t as real / n as real >= 1.0
  {
    assert t as real / n as real * n as real == t as real;
  }

  /** getAverageDocumentLength: the loop summing the document lengths. */
  method AverageDocumentLength(docs: seq<string>) returns (avg: real)
    requires |docs| >= 1
    ensures avg == AverageLength(docs)
    ensures avg >= 1.0
  {
    var sum := 0;
    var i := 0;
    while i < |docs|
      invariant 0 <= i <= |docs|
      invariant sum == TotalLength(docs[..i])
    {
      assert docs[..i + 1][..i] == docs[..i];
      sum := sum + DocumentLength(docs[i]);
      i := i + 1;
    }
    assert docs[..i] == docs;
    assert sum == TotalLength(docs);
    avg := sum as real / |docs| as real;
  }

  /** The comparison of the source: both sides lower-cased, then `===`. */
  predicate Matches(term: string, token: string)
  {
    Lower(term) == Lower(token)
  }

  /** Number of tokens that match `term` case-insensitively. */
  function TermCount(term: string, tokens: seq<string>): nat
  {
    if |tokens| == 0 then 0
    else TermCount(term, tokens[..|tokens| - 1]) + (if Matches(term, tokens[|tokens| - 1]) then 1 else 0)
  }

  /** A term occurs at most once per token. */
  lemma {:induction false} TermCountAtMostTokens(term: string, tokens: seq<string>)
    ensures TermCount(term, tokens) <= |tokens|
  {
    if |tokens| > 0 {
      TermCountAtMostTokens(term, tokens[..|tokens| - 1]);
    }
  }

  /** The count is zero exactly when no token matches the term. */
  lemma {:induction false} TermCountZeroIff(term: string, tokens: seq<string>)
    ensures TermCount(term, tokens) == 0 <==> forall i :: 0 <= i < |tokens| ==> !Matches(term, tokens[i])
  {
    if |tokens| > 0 {
      var init := tokens[..|tokens| - 1];
      TermCountZeroIff(term, init);
      assert forall i :: 0 <= i < |init| ==> init[i] == tokens[i];
    }
  }

  /** Terms that agree after lower-casing have the same count. */
  lemma {:induction false} TermCountCaseInsensitive(t1: string, t2: string, tokens: seq<string>)
    requires Lower(t1) == Lower(t2)
    ensures TermCount(t1, tokens) == TermCount(t2, tokens)
  {
    if |tokens| > 0 {
      TermCountCaseInsensitive(t1, t2, tokens[..|tokens| - 1]);
    }
  }

  /** In particular a term counts the same as its lower-cased form. */
  lemma TermCountOfLowered(term: string, tokens: seq<string>)
    ensures TermCount(Lower(term), tokens) == TermCount(term, tokens)
  {
    LowerIdempotent(term);
    TermCountCaseInsensitive(Lower(term), term, tokens);
  }

  /** countTermInDoc: the counting loop over the tokens of the document. */
  method CountTermInDoc(term: string, doc: string) returns (count: nat)
    ensures count == TermCount(term, Split(doc))
    ensures count <= DocumentLength(doc)
    ensures count == 0 <==> forall i :: 0 <= i < |Split(doc)| ==> !Matches(term, Split(doc)[i])
  {
    var terms := Split(doc);
    count := 0;
    var i := 0;
    while i < |terms|
      invariant 0 <= i <= |terms|
      invariant count == TermCount(term, terms[..i])
    {
      assert terms[..i + 1][..i] == terms[..i];
      var q1 := Lower(term);
      var d1 := Lower(terms[i]);
      if q1 == d1 {
        count := count + 1;
      }
      i := i + 1;
    }
    assert terms[..i] == terms;
    TermCountAtMostTokens(term, terms);
    TermCountZeroIff(term, terms);
  }

  /** The document contains the term at least once. */
  predicate Contains(term: string, doc: string)
  {
    TermCount(term, Split(doc)) > 0
  }

  /** Document frequency n: the number of documents that contain the term. */
  function DocFreq(term: string, docs: seq<string>): nat
  {
    if |docs| == 0 then 0
    else DocFreq(term, docs[..|docs| - 1]) + (if Contains(term, docs[|docs| - 1]) then 1 else 0)
  }

  /** Positions of the documents that contain the term. */
  function ContainingDocs(term: string, docs: seq<string>): set<nat>
  {
    set i: nat | i < |docs| && Contains(term, docs[i])
  }

  /** n is the size of the set of documents containing the term. */
  lemma {:induction false} DocFreqIsContainingCount(term: string, docs: seq<string>)
    ensures DocFreq(term, docs) == |ContainingDocs(term, docs)|
  {
    if |docs| == 0 {
      assert ContainingDocs(term, docs) == {};
    } else {
      var m := |docs| - 1;
      DocFreqIsContainingCount(term, docs[..m]);
      ContainingDocsOfInit(term, docs);
    }
  }

  /** The containing positions of a collection: those of its prefix, and possibly the last one. */
  lemma ContainingDocsOfInit(term: string, docs: seq<string>)
    requires |docs| > 0
    ensures var m := |docs| - 1;
      m !in ContainingDocs(term, docs[..m]) &&
      ContainingDocs(term, docs) == ContainingDocs(term, docs[..m]) + (if Contains(term, docs[m]) then {m} else {})
  {
    var m := |docs| - 1;
    var init := docs[..m];
    forall i | 0 <= i < m
      ensures init[i] == docs[i]
    {
    }
  }

  /** 0 <= n <= N. */
  lemma {:induction false} DocFreqAtMostDocs(term: string, docs: seq<string>)
    ensures DocFreq(term, docs) <= NumberOfDocs(docs)
  {
    if |docs| > 0 {
      DocFreqAtMostDocs(term, docs[..|docs| - 1]);
    }
  }

  /** n == 0 exactly when no document contains the term, n == N exactly when all do. */
  lemma {:induction false} DocFreqExtremes(term: string, docs: seq<string>)
    ensures DocFreq(term, docs) == 0 <==> forall i :: 0 <= i < |docs| ==> !Contains(term, docs[i])
    ensures DocFreq(term, docs) == |docs| <==> forall i :: 0 <= i < |docs| ==> Contains(term, docs[i])
  {
    if |docs| > 0 {
      var init := docs[..|docs| - 1];
      DocFreqExtremes(term, init);
      DocFreqAtMostDocs(term, init);
      assert forall i :: 0 <= i < |init| ==> init[i] == docs[i];
    }
  }

  /** The argument of the logarithm in the smoothed IDF: (N - n + 0.5) / (n + 0.5) + 1. */
  function IdfArgument(N: nat, n: nat): real
  {
    (N as real - n as real + 0.5) / (n as real + 0.5) + 1.0
  }

  /** With n <= N the argument exceeds 1, so a logarithm of it is positive. */
  lemma IdfArgumentAboveOne(N: nat, n: nat)
    requires n <= N
    ensures IdfArgument(N, n) > 1.0
  {
    var q := (N as real - n as real + 0.5) / (n as real + 0.5);
    assert q * (n as real + 0.5) == N as real - n as real + 0.5;
  }

  /** A term found in more documents gets a smaller argument: rare terms weigh more. */
  lemma IdfArgumentDecreasing(N: nat, n1: nat, n2: nat)
    requires n1 < n2
    ensures IdfArgument(N, n1) > IdfArgument(N, n2)
  {
    var c := N as real + 1.0;
    var x1, d1 := N as real - n1 as real + 0.5, n1 as real + 0.5;
    var x2, d2 := N as real - n2 as real + 0.5, n2 as real + 0.5;
    assert x1 * d2 - x2 * d1 == c * (d2 - d1);
    QuotientLess(x1, d1, x2, d2);
  }

  /**
   * With an increasing logarithm, a term found in fewer documents gets a
   * strictly larger IDF.
   */
  lemma IdfDecreasing(t1: string, t2: string, docs: seq<string>, ln: real -> real)
    requires forall x, y :: 0.0 < x < y ==> ln(x) < ln(y)
    requires DocFreq(t1, docs) < DocFreq(t2, docs)
    ensures Idf(t1, docs, ln) > Idf(t2, docs, ln)
  {
    DocFreqAtMostDocs(t2, docs);
    IdfArgumentAboveOne(|docs|, DocFreq(t2, docs));
    IdfArgumentDecreasing(|docs|, DocFreq(t1, docs), DocFreq(t2, docs));
  }

  /** Comparing quotients with positive denominators by cross-multiplying. */
  lemma QuotientLess(x1: real, d1: real, x2: real, d2: real)
    requires d1 > 0.0 && d2 > 0.0
    requires x1 * d2 > x2 * d1
    ensures x1 / d1 > x2 / d2
  {
    var q1, q2 := x1 / d1, x2 / d2;
    assert q1 * d1 == x1;
    assert q2 * d2 == x2;
    assert q1 * d1 * d2 > q2 * d2 * d1;
    assert (q1 - q2) * (d1 * d2) > 0.0;
  }

  lemma ProductPositive(x: real, y: real)
    requires x > 0.0 && y > 0.0
    ensures x * y > 0.0
  {
  }

  lemma ProductLess(x: real, y1: real, y2: real)
    requires x > 0.0 && y1 < y2
    ensures x * y1 < x * y2
  {
    ProductPositive(x, y2 - y1);
    assert x * y2 - x * y1 == x * (y2 - y1);
  }

  lemma QuotientNonNegative(x: real, d: real)
    requires x >= 0.0 && d > 0.0
    ensures x / d >= 0.0
  {
    var q := x / d;
    assert q * d == x;
  }

  /**
   * The IDF of a term: `ln` stands for Math.log, which the model takes as a
   * parameter.
   */
  function Idf(term: string, docs: seq<string>, ln: real -> real): real
  {
    ln(IdfArgument(NumberOfDocs(docs), DocFreq(term, docs)))
  }

  /** With a logarithm that is positive above 1, every IDF is positive. */
  lemma IdfPositive(term: string, docs: seq<string>, ln: real -> real)
    requires forall x :: x > 1.0 ==> ln(x) > 0.0
    ensures Idf(term, docs, ln) > 0.0
  {
    DocFreqAtMostDocs(term, docs);
    IdfArgumentAboveOne(|docs|, DocFreq(term, docs));
  }

  /** getInverseDocumentFrequency: the loop computing n, then the logarithm. */
  method InverseDocumentFrequency(term: string, docs: seq<string>, ln: real -> real) returns (idf: real)
    ensures idf == Idf(term, docs, ln)
    ensures idf == ln(IdfArgument(NumberOfDocs(docs), |ContainingDocs(term, docs)|))
    ensures (forall x :: x > 1.0 ==> ln(x) > 0.0) ==> idf > 0.0
  {
    var N := NumberOfDocs(docs);
    var n := 0;
    var i := 0;
    while i < |docs|
      invariant 0 <= i <= |docs|
      invariant n == DocFreq(term, docs[..i])
    {
      assert docs[..i + 1][..i] == docs[..i];
      var c := CountTermInDoc(term, docs[i]);
      if c > 0 {
        n := n + 1;
      }
      i := i + 1;
    }
    assert docs[..i] == docs;
    DocFreqIsContainingCount(term, docs);
    idf := ln(IdfArgument(N, n));
    if forall x :: x > 1.0 ==> ln(x) > 0.0 {
      IdfPositive(term, docs, ln);
    }
  }
}
