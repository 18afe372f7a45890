/**
 * The tokenizer of the ranking engine: JavaScript's `text.split(" ")`, which
 * splits on the single space character only, and an ASCII model of
 * `toLowerCase`, used when terms are compared.
 */
module Tokenizer {

  /** Number of space characters in `s`. */
  function SpaceCount(s: string): nat
  {
    if |s| == 0 then 0 else (if s[0] == ' ' then 1 else 0) + SpaceCount(s[1..])
  }

  /**
   * `s.split(" ")`: the maximal space-free pieces between the spaces of `s`.
   * Consecutive spaces, a leading or a trailing space give empty tokens, and
   * the empty string gives the single token "".
   */
  function Split(s: string): (r: seq<string>)
    ensures |r| == SpaceCount(s) + 1
    ensures forall i :: 0 <= i < |r| ==> ' ' !in r[i]
    decreases |s|
  {
    if |s| == 0 then [""]
    else
      var rest := Split(s[1..]);
      if s[0] == ' ' then [""] + rest
      else [[s[0]] + rest[0]] + rest[1..]
  }

  /** `tokens.join(" ")`: the inverse of Split. */
  function Join(tokens: seq<string>): string
  {
    if |tokens| == 0 then ""
    else if |tokens| == 1 then tokens[0]
    else tokens[0] + " " + Join(tokens[1..])
  }

  /** Joining the tokens of a split with single spaces gives back the text. */
  lemma {:induction false} JoinSplit(s: string)
    ensures Join(Split(s)) == s
    decreases |s|
  {
    if |s| > 0 {
      var rest := Split(s[1..]);
      JoinSplit(s[1..]);
      if s[0] == ' ' {
        assert Split(s) == [""] + rest;
        assert s == "" + " " + s[1..];
      } else {
        var r := Split(s);
        assert r == [[s[0]] + rest[0]] + rest[1..];
        if |rest| == 1 {
          assert rest == [rest[0]];
          assert s == [s[0]] + s[1..];
        } else {
          assert rest[1..][1..] == rest[2..];
          assert r[1..] == rest[1..];
          assert Join(rest) == rest[0] + " " + Join(rest[1..]);
          assert s == [s[0]] + s[1..];
        }
      }
    }
  }

  /** A space-free text is a single token. */
  lemma {:induction false} SplitSpaceFree(s: string)
    requires ' ' !in s
    ensures Split(s) == [s]
    decreases |s|
  {
    if |s| > 0 {
      assert s[0] in s;
      assert forall c :: c in s[1..] ==> c in s;
      SplitSpaceFree(s[1..]);
      assert s == [s[0]] + s[1..];
    }
  }

  /** One step of Split on a text that starts with a space. */
  lemma SplitConsSpace(t: string)
    ensures Split([' '] + t) == [""] + Split(t)
  {
    assert ([' '] + t)[1..] == t;
  }

  /** One step of Split on a text that starts with another character. */
  lemma SplitConsOther(c: char, t: string)
    requires c != ' '
    ensures Split([c] + t) == [[c] + Split(t)[0]] + Split(t)[1..]
  {
    assert ([c] + t)[1..] == t;
  }

  /** Splitting at a space splits the two sides independently. */
  lemma {:induction false} SplitAtSpace(a: string, b: string)
    ensures Split(a + " " + b) == Split(a) + Split(b)
    decreases |a|
  {
    if |a| == 0 {
      assert a + " " + b == [' '] + b;
      SplitConsSpace(b);
    } else {
      var c, t := a[0], a[1..];
      assert a == [c] + t;
      assert a + " " + b == [c] + (t + " " + b);
      SplitAtSpace(t, b);
      if c == ' ' {
        SplitAtSpaceAfterSpace(t, b);
      } else {
        SplitAtSpaceAfterOther(c, t, b);
      }
    }
  }

  lemma SplitAtSpaceAfterSpace(t: string, b: string)
    requires Split(t + " " + b) == Split(t) + Split(b)
    ensures Split([' '] + (t + " " + b)) == Split([' '] + t) + Split(b)
  {
    SplitConsSpace(t + " " + b);
    SplitConsSpace(t);
    PrependAssociates("", Split(t), Split(b));
  }

  lemma PrependAssociates(x: string, ra: seq<string>, rb: seq<string>)
    ensures [x] + (ra + rb) == ([x] + ra) + rb
  {
  }

  lemma SplitAtSpaceAfterOther(c: char, t: string, b: string)
    requires c != ' '
    requires Split(t + " " + b) == Split(t) + Split(b)
    ensures Split([c] + (t + " " + b)) == Split([c] + t) + Split(b)
  {
    SplitConsOther(c, t + " " + b);
    SplitConsOther(c, t);
    GlueFirstOfAppend(c, Split(t), Split(b));
  }

  /** Prefixing the first token commutes with appending further tokens. */
  lemma GlueFirstOfAppend(c: char, ra: seq<string>, rb: seq<string>)
    requires |ra| >= 1
    ensures [[c] + (ra + rb)[0]] + (ra + rb)[1..] == ([[c] + ra[0]] + ra[1..]) + rb
  {
    assert (ra + rb)[0] == ra[0];
    assert (ra + rb)[1..] == ra[1..] + rb;
  }

  /** Splitting the join of space-free tokens gives back the tokens. */
  lemma {:induction false} SplitJoin(tokens: seq<string>)
    requires |tokens| >= 1
    requires forall i :: 0 <= i < |tokens| ==> ' ' !in tokens[i]
    ensures Split(Join(tokens)) == tokens
    decreases |tokens|
  {
    SplitSpaceFree(tokens[0]);
    if |tokens| > 1 {
      SplitJoin(tokens[1..]);
      SplitAtSpace(tokens[0], Join(tokens[1..]));
      assert tokens == [tokens[0]] + tokens[1..];
    }
  }

  /** ASCII model of `toLowerCase` on one character. */
  function LowerChar(c: char): char
  {
    if 'A' <= c <= 'Z' then (c as int - 'A' as int + 'a' as int) as char else c
  }

  /** ASCII model of `String.prototype.toLowerCase`. */
  function Lower(s: string): (r: string)
    ensures |r| == |s|
    ensures forall i :: 0 <= i < |r| ==> !('A' <= r[i] <= 'Z')
  {
    seq(|s|, i requires 0 <= i < |s| => LowerChar(s[i]))
  }

  /** Lower-casing twice is lower-casing once. */
  lemma LowerIdempotent(s: string)
    ensures Lower(Lower(s)) == Lower(s)
  {
    var l := Lower(s);
    assert forall i :: 0 <= i < |l| ==> LowerChar(l[i]) == l[i];
  }
}
