/**
  The bounded min-heap of (score, fragment) pairs: every candidate is pushed,
  and whenever the pool holds more than top_k entries its least entry, in
  Python's tuple order, is popped. The heap is a sequence here; the order of
  its elements is not the heap array's, but its contents are the same, since
  the least entry of a pool is unique.
*/
module TopK {

  /** A scored fragment, compared as the tuple (score, fragment). */
  datatype Entry = Entry(score: nat, fragment: string)

  // ---------------------------------------------------------------- the order

  /** Python's str < : lexicographic by code point, a proper prefix first. */
  predicate LexLess(a: string, b: string)
    decreases |a|
  {
    if |a| == 0 then |b| > 0
    else if |b| == 0 then false
    else if a[0] != b[0] then a[0] < b[0]
    else LexLess(a[1..], b[1..])
  }

  lemma {:induction false} LexLessIrreflexive(a: string)
    ensures !LexLess(a, a)
    decreases |a|
  {
    if |a| > 0 {
      LexLessIrreflexive(a[1..]);
    }
  }

  lemma {:induction false} LexLessTransitive(a: string, b: string, c: string)
    requires LexLess(a, b) && LexLess(b, c)
    ensures LexLess(a, c)
    decreases |a|
  {
    if |a| > 0 && a[0] == b[0] && b[0] == c[0] {
      LexLessTransitive(a[1..], b[1..], c[1..]);
    }
  }

  lemma {:induction false} LexLessTotal(a: string, b: string)
    ensures a == b || LexLess(a, b) || LexLess(b, a)
    decreases |a|
  {
    if |a| > 0 && |b| > 0 && a[0] == b[0] {
      LexLessTotal(a[1..], b[1..]);
      if a[1..] == b[1..] {
        assert a == [a[0]] + a[1..] && b == [b[0]] + b[1..];
      }
    }
  }

  lemma {:induction false} LexLessAsymmetric(a: string, b: string)
    requires LexLess(a, b)
    ensures !LexLess(b, a)
    decreases |a|
  {
    if |a| > 0 && a[0] == b[0] {
      LexLessAsymmetric(a[1..], b[1..]);
    }
  }

  /** Python's tuple <= on (score, fragment). */
  predicate EntryLe(a: Entry, b: Entry)
  {
    a.score < b.score || (a.score == b.score && !LexLess(b.fragment, a.fragment))
  }

  lemma EntryLeTotal(a: Entry, b: Entry)
    ensures EntryLe(a, b) || EntryLe(b, a)
  {
    if LexLess(a.fragment, b.fragment) {
      LexLessAsymmetric(a.fragment, b.fragment);
    }
  }

  lemma EntryLeTransitive(a: Entry, b: Entry, c: Entry)
    requires EntryLe(a, b) && EntryLe(b, c)
    ensures EntryLe(a, c)
  {
    if a.score == b.score == c.score && LexLess(c.fragment, a.fragment) {
      LexLessTotal(b.fragment, a.fragment);
      if b.fragment == a.fragment {
      } else if LexLess(b.fragment, a.fragment) {
      } else {
        LexLessTransitive(c.fragment, a.fragment, b.fragment);
      }
    }
  }

  /** Two entries each at most the other are the same tuple, so the least entry of a pool is unique. */
  lemma EntryLeAntisymmetric(a: Entry, b: Entry)
    requires EntryLe(a, b) && EntryLe(b, a)
    ensures a == b
  {
    LexLessTotal(a.fragment, b.fragment);
  }

  // ---------------------------------------------------------------- the pool

  /** Position of a least entry. */
  function MinIndex(p: seq<Entry>): (m: nat)
    requires |p| > 0
    ensures m < |p|
    ensures forall k :: 0 <= k < |p| ==> EntryLe(p[m], p[k])
    decreases |p|
  {
    if |p| == 1 then
      LexLessIrreflexive(p[0].fragment);
      0
    else
      var m := MinIndex(p[1..]);
      EntryLeTotal(p[0], p[1..][m]);
      if EntryLe(p[0], p[1..][m]) then
        LexLessIrreflexive(p[0].fragment);
        forall k | 1 <= k < |p| ensures EntryLe(p[0], p[k]) {
          EntryLeTransitive(p[0], p[1..][m], p[1..][k - 1]);
        }
        0
      else
        LexLessIrreflexive(p[m + 1].fragment);
        assert EntryLe(p[m + 1], p[0]);
        m + 1
  }

  function RemoveAt(p: seq<Entry>, m: nat): (r: seq<Entry>)
    requires m < |p|
    ensures |r| == |p| - 1
    ensures multiset(r) == multiset(p) - multiset{p[m]}
    ensures forall x :: x in r ==> x in p
  {
    assert p == p[..m] + [p[m]] + p[m + 1..];
    p[..m] + p[m + 1..]
  }

  /** Popping the least entry: what leaves is at most everything that stays. */
  lemma PopMinimum(q: seq<Entry>)
    requires |q| > 0
    ensures var r := RemoveAt(q, MinIndex(q));
            forall x, y :: x in multiset(q) - multiset(r) && y in r ==> EntryLe(x, y)
  {
    var m := MinIndex(q);
    var r := RemoveAt(q, m);
    assert multiset(q) - multiset(r) == multiset{q[m]};
  }

  /**
    heappush, then heappop when the pool has grown past top_k: the new entry
    goes in, and when the pool overflows exactly one entry leaves, one at most
    every entry that stays.
  */
  function Push(pool: seq<Entry>, e: Entry, topK: int): (r: seq<Entry>)
    ensures |pool| + 1 <= topK ==> r == pool + [e]
    ensures |pool| + 1 > topK ==> |r| == |pool| && multiset(r) <= multiset(pool + [e])
    ensures forall x, y :: x in multiset(pool + [e]) - multiset(r) && y in r ==> EntryLe(x, y)
  {
    var q := pool + [e];
    if |q| > topK then
      PopMinimum(q);
      RemoveAt(q, MinIndex(q))
    else q
  }

  /** The pool after pushing every entry of es in turn: it keeps the top entries. */
  function Pool(es: seq<Entry>, topK: int): (r: seq<Entry>)
    ensures KeepsTop(es, r, topK)
    decreases |es|
  {
    if |es| == 0 then []
    else
      var p := Pool(es[..|es| - 1], topK);
      PushLastKeepsTop(es, p, topK);
      Push(p, es[|es| - 1], topK)
  }

  function Bound(n: nat, topK: int): nat
  {
    if topK <= 0 then 0 else if n <= topK then n else topK
  }

  /**
    What the bounded heap keeps: entries of es, as many as there are up to
    top_k, and every entry it let go is at most every entry it kept.
  */
  predicate KeepsTop(es: seq<Entry>, pool: seq<Entry>, topK: int)
  {
    multiset(pool) <= multiset(es)
    && |pool| == Bound(|es|, topK)
    && forall x, y :: x in multiset(es) - multiset(pool) && y in pool ==> EntryLe(x, y)
  }

  lemma SubMultisetSameSize<T>(a: multiset<T>, b: multiset<T>)
    requires a <= b && |a| == |b|
    ensures a == b
  {
    assert b == a + (b - a);
  }

  /** One push keeps the property. */
  lemma PushKeepsTop(es: seq<Entry>, pool: seq<Entry>, e: Entry, topK: int)
    requires KeepsTop(es, pool, topK)
    ensures KeepsTop(es + [e], Push(pool, e, topK), topK)
  {
    var q := pool + [e];
    assert multiset(es + [e]) == multiset(es) + multiset{e};
    assert multiset(q) == multiset(pool) + multiset{e};
    if |q| <= topK {
      assert |pool| == |es|;
      SubMultisetSameSize(multiset(pool), multiset(es));
      assert multiset(es + [e]) - multiset(q) == multiset{};
    } else {
      PushEvictKeepsTop(es, pool, e, topK);
    }
  }

  /** Pushing the last entry of es onto a pool that keeps the top of the others. */
  lemma PushLastKeepsTop(es: seq<Entry>, pool: seq<Entry>, topK: int)
    requires |es| > 0 && KeepsTop(es[..|es| - 1], pool, topK)
    ensures KeepsTop(es, Push(pool, es[|es| - 1], topK), topK)
  {
    var init, last := es[..|es| - 1], es[|es| - 1];
    PushKeepsTop(init, pool, last, topK);
    SplitLast(es);
    KeepsTopOfEqual(init + [last], es, Push(pool, last, topK), topK);
  }

  lemma SplitLast(s: seq<Entry>)
    requires |s| > 0
    ensures s[..|s| - 1] + [s[|s| - 1]] == s
  {
  }

  lemma KeepsTopOfEqual(a: seq<Entry>, b: seq<Entry>, pool: seq<Entry>, topK: int)
    requires a == b && KeepsTop(a, pool, topK)
    ensures KeepsTop(b, pool, topK)
  {
  }

  lemma PushEvictKeepsTop(es: seq<Entry>, pool: seq<Entry>, e: Entry, topK: int)
    requires KeepsTop(es, pool, topK) && |pool| + 1 > topK
    ensures KeepsTop(es + [e], Push(pool, e, topK), topK)
  {
    var q := pool + [e];
    var m := MinIndex(q);
    var r := RemoveAt(q, m);
    assert Push(pool, e, topK) == r;
    assert multiset(es + [e]) == multiset(es) + multiset{e};
    assert multiset(q) == multiset(pool) + multiset{e};
    assert multiset(r) <= multiset(es + [e]);
    EvictionOrder(es, pool, e, m);
  }

  lemma EvictionOrder(es: seq<Entry>, pool: seq<Entry>, e: Entry, m: nat)
    requires forall a, b :: a in multiset(es) - multiset(pool) && b in pool ==> EntryLe(a, b)
    requires multiset(pool) <= multiset(es)
    requires m < |pool + [e]| && forall k :: 0 <= k < |pool + [e]| ==> EntryLe((pool + [e])[m], (pool + [e])[k])
    ensures var r := RemoveAt(pool + [e], m);
            forall x, y :: x in multiset(es + [e]) - multiset(r) && y in r ==> EntryLe(x, y)
  {
    var r := RemoveAt(pool + [e], m);
    forall x, y | x in multiset(es + [e]) - multiset(r) && y in r ensures EntryLe(x, y) {
      EvictedBelowKept(es, pool, e, m, x, y);
    }
  }

  /** An entry no longer in the pool after the pop is at most every entry still in it. */
  lemma EvictedBelowKept(es: seq<Entry>, pool: seq<Entry>, e: Entry, m: nat, x: Entry, y: Entry)
    requires forall a, b :: a in multiset(es) - multiset(pool) && b in pool ==> EntryLe(a, b)
    requires multiset(pool) <= multiset(es)
    requires m < |pool + [e]| && forall k :: 0 <= k < |pool + [e]| ==> EntryLe((pool + [e])[m], (pool + [e])[k])
    requires x in multiset(es + [e]) - multiset(RemoveAt(pool + [e], m)) && y in RemoveAt(pool + [e], m)
    ensures EntryLe(x, y)
  {
    var q := pool + [e];
    var r := RemoveAt(q, m);
    assert multiset(es + [e]) == multiset(es) + multiset{e};
    assert multiset(q) == multiset(pool) + multiset{e};
    assert y in q;
    var ky :| 0 <= ky < |q| && q[ky] == y;
    assert EntryLe(q[m], y);
    if x != q[m] {
      assert multiset(r)[x] == multiset(q)[x];
      assert multiset(es)[x] > multiset(pool)[x];
      assert x in multiset(es) - multiset(pool);
      if y !in pool {
        assert y == e && m < |pool|;
        assert q[m] in pool;
        EntryLeTransitive(x, q[m], y);
      }
    }
  }

  /** When at most top_k entries arrive, all of them are kept. */
  lemma PoolKeepsAllWhenFew(es: seq<Entry>, topK: int)
    requires |es| <= topK
    ensures multiset(Pool(es, topK)) == multiset(es)
  {
    SubMultisetSameSize(multiset(Pool(es, topK)), multiset(es));
  }

  // ---------------------------------------------------------------- the final order

  predicate NonIncreasing(s: seq<Entry>)
  {
    forall i, j :: 0 <= i < j < |s| ==> s[i].score >= s[j].score
  }

  lemma NonIncreasingTail(s: seq<Entry>)
    requires |s| > 0 && NonIncreasing(s)
    ensures NonIncreasing(s[1..])
  {
    forall i, j | 0 <= i < j < |s| - 1 ensures s[1..][i].score >= s[1..][j].score {
      assert s[1..][i] == s[i + 1] && s[1..][j] == s[j + 1];
    }
  }

  lemma NonIncreasingCons(x: Entry, t: seq<Entry>)
    requires NonIncreasing(t) && (|t| > 0 ==> x.score >= t[0].score)
    ensures NonIncreasing([x] + t)
  {
    var r := [x] + t;
    forall i, j | 0 <= i < j < |r| ensures r[i].score >= r[j].score {
      assert r[j] == t[j - 1];
      if i > 0 {
        assert r[i] == t[i - 1];
      }
    }
  }

  function Insert(e: Entry, s: seq<Entry>): (r: seq<Entry>)
    requires NonIncreasing(s)
    ensures NonIncreasing(r)
    ensures multiset(r) == multiset(s) + multiset{e}
    ensures |r| > 0 && (r[0] == e || (|s| > 0 && r[0] == s[0]))
    decreases |s|
  {
    if |s| == 0 || e.score >= s[0].score then
      NonIncreasingCons(e, s);
      [e] + s
    else
      NonIncreasingTail(s);
      var rest := Insert(e, s[1..]);
      assert s == [s[0]] + s[1..];
      NonIncreasingCons(s[0], rest);
      [s[0]] + rest
  }

  /** sorted(pool, key=lambda t: -t[0]): the pool by descending score. */
  function SortDesc(p: seq<Entry>): (r: seq<Entry>)
    ensures NonIncreasing(r)
    ensures multiset(r) == multiset(p)
    decreases |p|
  {
    if |p| == 0 then []
    else
      assert p == [p[0]] + p[1..];
      Insert(p[0], SortDesc(p[1..]))
  }
}
