/**
  The retrieval tokeniser: the set of maximal runs of the class
  [a-z0-9ăâîșţț-] in the lower-cased text, and the overlap score of a
  fragment against a query's token set.
*/
module Tokenize {
  import opened Text

  /** a-z, 0-9, the Romanian letters ă â î ș ţ ț, and the hyphen. */
  predicate IsTokenChar(c: char)
  {
    var n := c as int;
    ('a' <= c <= 'z') || IsDigit(c) || c == '-'
    || n == 0x103 || n == 0xE2 || n == 0xEE || n == 0x219 || n == 0x163 || n == 0x21B
  }

  /** End of the run of token characters that starts at i. */
  function RunEnd(s: string, i: nat): (e: nat)
    requires i <= |s|
    ensures i <= e <= |s|
    ensures forall k :: i <= k < e ==> IsTokenChar(s[k])
    ensures e < |s| ==> !IsTokenChar(s[e])
    decreases |s| - i
  {
    if i == |s| || !IsTokenChar(s[i]) then i else RunEnd(s, i + 1)
  }

  /** A scan position: no run of token characters continues across it from the left. */
  predicate AtBoundary(s: string, i: nat)
    requires i <= |s|
  {
    i == 0 || i == |s| || !IsTokenChar(s[i - 1]) || !IsTokenChar(s[i])
  }

  /** re.findall of the class+ pattern from position i on: the maximal runs, left to right. */
  function TokenListFrom(s: string, i: nat): seq<string>
    requires i <= |s|
    decreases |s| - i
  {
    if i == |s| then []
    else if !IsTokenChar(s[i]) then TokenListFrom(s, i + 1)
    else
      var e := RunEnd(s, i);
      [s[i..e]] + TokenListFrom(s, e)
  }

  function TokenList(s: string): seq<string>
  {
    TokenListFrom(s, 0)
  }

  /** s[i..j] is a maximal run of token characters. */
  predicate IsTokenAt(s: string, i: int, j: int)
  {
    0 <= i < j <= |s|
    && (forall k :: i <= k < j ==> IsTokenChar(s[k]))
    && (i == 0 || !IsTokenChar(s[i - 1]))
    && (j == |s| || !IsTokenChar(s[j]))
  }

  /** The run the scan finds at a boundary is maximal. */
  lemma RunAtBoundary(s: string, i: nat)
    requires i < |s| && AtBoundary(s, i) && IsTokenChar(s[i])
    ensures IsTokenAt(s, i, RunEnd(s, i))
  {
  }

  /** Every token listed from i on is a maximal run at or after i. */
  lemma {:induction false} TokenListFromSound(s: string, i: nat, t: string)
    requires i <= |s| && AtBoundary(s, i)
    requires t in TokenListFrom(s, i)
    ensures exists a, b :: i <= a && IsTokenAt(s, a, b) && s[a..b] == t
    decreases |s| - i
  {
    if !IsTokenChar(s[i]) {
      TokenListFromSound(s, i + 1, t);
      var a, b :| i + 1 <= a && IsTokenAt(s, a, b) && s[a..b] == t;
      assert i <= a;
    } else {
      var e := RunEnd(s, i);
      assert TokenListFrom(s, i) == [s[i..e]] + TokenListFrom(s, e);
      if t == s[i..e] {
        RunAtBoundary(s, i);
      } else {
        TokenListFromSound(s, e, t);
        var a, b :| e <= a && IsTokenAt(s, a, b) && s[a..b] == t;
        assert i <= a;
      }
    }
  }

  /** A maximal run at or after a boundary i is listed from i on. */
  lemma {:induction false} TokenListFromComplete(s: string, i: nat, a: int, b: int)
    requires i <= |s| && AtBoundary(s, i)
    requires IsTokenAt(s, a, b) && i <= a
    ensures s[a..b] in TokenListFrom(s, i)
    decreases |s| - i
  {
    if !IsTokenChar(s[i]) {
      TokenListFromComplete(s, i + 1, a, b);
    } else {
      var e := RunEnd(s, i);
      assert TokenListFrom(s, i) == [s[i..e]] + TokenListFrom(s, e);
      if a == i {
        RunEndOfRun(s, a, b);
      } else {
        RunStartsPastEnd(s, i, a, b);
        TokenListFromComplete(s, e, a, b);
      }
    }
  }

  /** The scan finds the whole run. */
  lemma RunEndOfRun(s: string, a: int, b: int)
    requires IsTokenAt(s, a, b)
    ensures RunEnd(s, a) == b
  {
  }

  /** Another maximal run starts after the end of the run found at i. */
  lemma RunStartsPastEnd(s: string, i: nat, a: int, b: int)
    requires i < |s| && IsTokenChar(s[i]) && IsTokenAt(s, a, b) && i < a
    ensures RunEnd(s, i) <= a
  {
  }

  /** The scanner lists exactly the maximal runs of token characters. */
  lemma TokenListExactly(s: string, t: string)
    ensures t in TokenList(s) <==> exists i, j :: IsTokenAt(s, i, j) && s[i..j] == t
  {
    if t in TokenList(s) {
      TokenListFromSound(s, 0, t);
    }
    if exists i, j :: IsTokenAt(s, i, j) && s[i..j] == t {
      var i, j :| IsTokenAt(s, i, j) && s[i..j] == t;
      TokenListFromComplete(s, 0, i, j);
    }
  }

  /**
    The token set of a text: a string is a token exactly when it is a
    maximal run of token characters of the lower-cased text.
  */
  function Tokens(text: string): (r: set<string>)
    ensures forall t :: t in r <==> exists i, j :: IsTokenAt(Lower(text), i, j) && Lower(text)[i..j] == t
  {
    var low := Lower(text);
    var r := set t | t in TokenList(low);
    assert forall t :: t in r <==> exists i, j :: IsTokenAt(low, i, j) && low[i..j] == t by {
      forall t ensures t in r <==> exists i, j :: IsTokenAt(low, i, j) && low[i..j] == t {
        TokenListExactly(low, t);
      }
    }
    r
  }

  /** A text with a token is not empty. */
  lemma TokensOfEmpty(text: string)
    requires Tokens(text) != {}
    ensures |text| > 0
  {
    var t :| t in Tokens(text);
  }

  /** The overlap score: the number of query tokens the fragment also holds. */
  function Score(query: set<string>, fragment: string): (n: nat)
    ensures n <= |query|
  {
    SubsetCard(query * Tokens(fragment), query);
    |query * Tokens(fragment)|
  }

  lemma {:induction false} SubsetCard<T>(a: set<T>, b: set<T>)
    requires a <= b
    ensures |a| <= |b|
    decreases |b|
  {
    if a != {} {
      var x :| x in a;
      SubsetCard(a - {x}, b - {x});
    }
  }

  /** Adding tokens to a query never lowers a fragment's score. */
  lemma ScoreMonotone(q1: set<string>, q2: set<string>, fragment: string)
    requires q1 <= q2
    ensures Score(q1, fragment) <= Score(q2, fragment)
  {
    SubsetCard(q1 * Tokens(fragment), q2 * Tokens(fragment));
  }

  /** A fragment that scores is one that holds a query token. */
  lemma ScorePositive(query: set<string>, fragment: string)
    ensures Score(query, fragment) > 0 <==> exists t :: t in query && t in Tokens(fragment)
  {
    if exists t :: t in query && t in Tokens(fragment) {
      var t :| t in query && t in Tokens(fragment);
      assert t in query * Tokens(fragment);
    }
  }

  /** A new query token the fragment holds raises the score by exactly one. */
  lemma ScoreAddToken(query: set<string>, t: string, fragment: string)
    requires t !in query && t in Tokens(fragment)
    ensures Score(query + {t}, fragment) == Score(query, fragment) + 1
  {
    assert (query + {t}) * Tokens(fragment) == query * Tokens(fragment) + {t};
  }
}
