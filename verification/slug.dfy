/**
  The document identifier derived from a PDF's file stem: every maximal run of
  characters outside [a-zA-Z0-9._-] becomes a single '_', and underscores are
  then stripped from both ends.
*/
module Slug {
  import opened Text

  predicate IsSlugChar(c: char)
  {
    ('a' <= c <= 'z') || ('A' <= c <= 'Z') || IsDigit(c) || c == '.' || c == '_' || c == '-'
  }

  predicate IsSlugText(s: string)
  {
    forall k :: 0 <= k < |s| ==> IsSlugChar(s[k])
  }

  /** A finished slug: slug characters only, and no '_' at either end. */
  predicate IsSlug(s: string)
  {
    IsSlugText(s) && (s == [] || (s[0] != '_' && s[|s| - 1] != '_'))
  }

  /** Length of the leading run of characters outside the slug class. */
  function ForeignRun(s: string): (n: nat)
    ensures n <= |s|
    ensures forall k :: 0 <= k < n ==> !IsSlugChar(s[k])
    ensures n < |s| ==> IsSlugChar(s[n])
    decreases |s|
  {
    if |s| == 0 || IsSlugChar(s[0]) then 0 else 1 + ForeignRun(s[1..])
  }

  /** The substitution step: each maximal run of foreign characters becomes "_". */
  function ReplaceForeign(s: string): (r: string)
    ensures IsSlugText(r)
    ensures |r| <= |s|
    ensures IsSlugText(s) ==> r == s
    decreases |s|
  {
    if |s| == 0 then []
    else if IsSlugChar(s[0]) then
      assert IsSlugText(s) ==> IsSlugText(s[1..]);
      [s[0]] + ReplaceForeign(s[1..])
    else
      var n := ForeignRun(s);
      "_" + ReplaceForeign(s[n..])
  }

  function TrailingUnderscores(s: string): (n: nat)
    ensures n <= |s|
    ensures forall k :: |s| - n <= k < |s| ==> s[k] == '_'
    ensures n < |s| ==> s[|s| - n - 1] != '_'
    decreases |s|
  {
    if |s| == 0 || s[|s| - 1] != '_' then 0 else 1 + TrailingUnderscores(s[..|s| - 1])
  }

  /** str.strip("_"). */
  function StripUnderscores(s: string): (r: string)
    ensures r == [] || (r[0] != '_' && r[|r| - 1] != '_')
    ensures CharRun(s, '_') + |r| <= |s|
    ensures r == s[CharRun(s, '_')..CharRun(s, '_') + |r|]
    ensures forall k :: CharRun(s, '_') + |r| <= k < |s| ==> s[k] == '_'
  {
    var t := s[CharRun(s, '_')..];
    t[..|t| - TrailingUnderscores(t)]
  }

  lemma {:induction false} ForeignRunAppend(a: string, b: string)
    requires ForeignRun(a) < |a|
    ensures ForeignRun(a + b) == ForeignRun(a)
    decreases |a|
  {
    if !IsSlugChar(a[0]) {
      assert (a + b)[1..] == a[1..] + b;
      ForeignRunAppend(a[1..], b);
    }
  }

  lemma {:induction false} ForeignRunOfRun(f: string, b: string)
    requires forall k :: 0 <= k < |f| ==> !IsSlugChar(f[k])
    requires |b| == 0 || IsSlugChar(b[0])
    ensures ForeignRun(f + b) == |f|
    decreases |f|
  {
    if |f| == 0 {
      assert f + b == b;
    } else {
      assert (f + b)[0] == f[0] && (f + b)[1..] == f[1..] + b;
      ForeignRunOfRun(f[1..], b);
    }
  }

  /** Cutting after a slug character cuts the substitution there too. */
  lemma {:induction false} ReplaceForeignAppend(a: string, b: string)
    requires |a| == 0 || IsSlugChar(a[|a| - 1])
    ensures ReplaceForeign(a + b) == ReplaceForeign(a) + ReplaceForeign(b)
    decreases |a|
  {
    if |a| == 0 {
      assert a + b == b;
    } else if IsSlugChar(a[0]) {
      ReplaceForeignAppend(a[1..], b);
      AppendAfterSlugChar(a, b);
    } else {
      var n := ForeignRun(a);
      ReplaceForeignAppend(a[n..], b);
      AppendAfterForeignRun(a, b);
    }
  }

  /** The step of ReplaceForeignAppend for a leading slug character. */
  lemma AppendAfterSlugChar(a: string, b: string)
    requires |a| > 0 && IsSlugChar(a[0])
    requires ReplaceForeign(a[1..] + b) == ReplaceForeign(a[1..]) + ReplaceForeign(b)
    ensures ReplaceForeign(a + b) == ReplaceForeign(a) + ReplaceForeign(b)
  {
    var ab := a + b;
    assert ab[0] == a[0];
    assert ab[1..] == a[1..] + b;
    SlugHead(ab);
    SlugHead(a);
    Glue([a[0]], ReplaceForeign(ab), ReplaceForeign(ab[1..]), ReplaceForeign(a), ReplaceForeign(a[1..]), ReplaceForeign(b));
  }

  lemma SlugHead(s: string)
    requires |s| > 0 && IsSlugChar(s[0])
    ensures ReplaceForeign(s) == [s[0]] + ReplaceForeign(s[1..])
  {
  }

  /** The step of ReplaceForeignAppend for a leading foreign run. */
  lemma AppendAfterForeignRun(a: string, b: string)
    requires |a| > 0 && !IsSlugChar(a[0]) && IsSlugChar(a[|a| - 1])
    requires ForeignRun(a) <= |a|
    requires ReplaceForeign(a[ForeignRun(a)..] + b) == ReplaceForeign(a[ForeignRun(a)..]) + ReplaceForeign(b)
    ensures ReplaceForeign(a + b) == ReplaceForeign(a) + ReplaceForeign(b)
  {
    var n := ForeignRun(a);
    var ab := a + b;
    ForeignRunAppend(a, b);
    assert ab[0] == a[0];
    assert ab[n..] == a[n..] + b;
    ForeignHead(ab);
    ForeignHead(a);
    Glue("_", ReplaceForeign(ab), ReplaceForeign(ab[n..]), ReplaceForeign(a), ReplaceForeign(a[n..]), ReplaceForeign(b));
  }

  lemma ForeignHead(s: string)
    requires |s| > 0 && !IsSlugChar(s[0])
    ensures ReplaceForeign(s) == "_" + ReplaceForeign(s[ForeignRun(s)..])
  {
  }

  /** A maximal run of foreign characters becomes exactly one "_". */
  lemma ForeignRunBecomesUnderscore(f: string, b: string)
    requires |f| > 0 && forall k :: 0 <= k < |f| ==> !IsSlugChar(f[k])
    requires |b| == 0 || IsSlugChar(b[0])
    ensures ReplaceForeign(f + b) == "_" + ReplaceForeign(b)
  {
    ForeignRunOfRun(f, b);
    assert (f + b)[0] == f[0];
    assert (f + b)[|f|..] == b;
  }

  /**
    The substitution read as a rewrite: a maximal foreign run f between the
    texts a and b is replaced by one "_", and a and b are rewritten on their own.
  */
  lemma ReplaceForeignSplit(a: string, f: string, b: string)
    requires |a| == 0 || IsSlugChar(a[|a| - 1])
    requires |f| > 0 && forall k :: 0 <= k < |f| ==> !IsSlugChar(f[k])
    requires |b| == 0 || IsSlugChar(b[0])
    ensures ReplaceForeign(a + f + b) == ReplaceForeign(a) + "_" + ReplaceForeign(b)
  {
    var fb := f + b;
    Associate(a, f, b);
    ReplaceForeignAppend(a, fb);
    ForeignRunBecomesUnderscore(f, b);
    Associate(ReplaceForeign(a), "_", ReplaceForeign(b));
  }

  lemma SlugTextSlice(t: string, x: nat, y: nat)
    requires IsSlugText(t) && x <= y <= |t|
    ensures IsSlugText(t[x..y])
  {
    forall k | 0 <= k < y - x ensures IsSlugChar(t[x..y][k]) {
      assert t[x..y][k] == t[x + k];
    }
  }

  function Slugify(stem: string): (r: string)
    ensures IsSlug(r)
    ensures |r| <= |stem|
  {
    var t := ReplaceForeign(stem);
    var r := StripUnderscores(t);
    SlugTextSlice(t, CharRun(t, '_'), CharRun(t, '_') + |r|);
    r
  }

  /** A finished slug is left unchanged, and only a finished slug is. */
  lemma SlugifyFixedPoints(s: string)
    ensures Slugify(s) == s <==> IsSlug(s)
  {
    if IsSlug(s) {
      assert ReplaceForeign(s) == s;
      assert CharRun(s, '_') == 0;
      var t := s[0..];
      assert t == s;
      assert TrailingUnderscores(t) == 0;
    }
  }

  lemma SlugifyIdempotent(stem: string)
    ensures Slugify(Slugify(stem)) == Slugify(stem)
  {
    SlugifyFixedPoints(Slugify(stem));
  }

  /** Distinct stems can share a slug, so their page files share names. */
  lemma SlugsCanCollide(x: string, y: string)
    requires x == "a b" && y == "a_b"
    ensures x != y && Slugify(x) == Slugify(y) == y
  {
    assert x[1] != y[1];
    SpaceBecomesUnderscore(x, y);
    assert IsSlug(y);
    assert ReplaceForeign(y) == y;
    SlugifyFixedPoints(y);
  }

  lemma SpaceBecomesUnderscore(x: string, y: string)
    requires x == "a b" && y == "a_b"
    ensures ReplaceForeign(x) == y
  {
    var b := x[1..];
    assert b == " b" && !IsSlugChar(b[0]);
    assert ForeignRun(b) == 1;
    assert b[1..] == "b";
    assert ReplaceForeign(b) == "_b";
  }

}
