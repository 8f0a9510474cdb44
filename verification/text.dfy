/**
  Character classes and the handful of Python str operations that the cleaning
  and retrieval code is built from: whitespace, digits, regex word characters,
  lower-casing, strip(), and splitting/joining on a separator.
*/
module Text {

  /** Python's str.isspace(): the characters str.strip() removes and the regex class \s matches. */
  predicate IsSpace(c: char)
  {
    var n := c as int;
    (9 <= n <= 13) || (28 <= n <= 32) || n == 0x85 || n == 0xA0 || n == 0x1680
    || (0x2000 <= n <= 0x200A) || n == 0x2028 || n == 0x2029 || n == 0x202F
    || n == 0x205F || n == 0x3000
  }

  /** The regex class \d, restricted to the ASCII digits. */
  predicate IsDigit(c: char)
  {
    '0' <= c <= '9'
  }

  /** A string of decimal digits (the empty string included). */
  predicate IsDigits(s: string)
  {
    forall k :: 0 <= k < |s| ==> IsDigit(s[k])
  }

  /**
    The regex class \w: ASCII letters, digits and '_', plus the letters of the
    Latin-1 Supplement and Latin Extended-A/B blocks (which hold the Romanian
    and Hungarian letters of the catalogs).
  */
  predicate IsWordChar(c: char)
  {
    var n := c as int;
    ('a' <= c <= 'z') || ('A' <= c <= 'Z') || IsDigit(c) || c == '_'
    || n == 0xAA || n == 0xB5 || n == 0xBA
    || (0xC0 <= n <= 0xD6) || (0xD8 <= n <= 0xF6) || (0xF8 <= n <= 0x24F)
  }

  /** The capitals the model lower-cases: ASCII, Latin-1, and the Romanian Ă, Ş, Ţ, Ș, Ț. */
  predicate IsCapital(c: char)
  {
    var n := c as int;
    ('A' <= c <= 'Z') || (0xC0 <= n <= 0xDE && n != 0xD7)
    || n == 0x102 || n == 0x15E || n == 0x162 || n == 0x218 || n == 0x21A
  }

  /** str.lower() on one character. */
  function LowerChar(c: char): (r: char)
    ensures 'A' <= c <= 'Z' ==> 'a' <= r <= 'z' && r as int - 'a' as int == c as int - 'A' as int
    ensures r == c <==> !IsCapital(c)
    ensures !IsCapital(r)
  {
    var n := c as int;
    if ('A' <= c <= 'Z') || (0xC0 <= n <= 0xDE && n != 0xD7) then (n + 32) as char
    else if n == 0x102 || n == 0x15E || n == 0x162 || n == 0x218 || n == 0x21A then (n + 1) as char
    else c
  }

  /** str.lower(), character by character. */
  function Lower(s: string): (r: string)
    ensures |r| == |s|
    ensures forall i :: 0 <= i < |s| && 'A' <= s[i] <= 'Z' ==>
              'a' <= r[i] <= 'z' && r[i] as int - 'a' as int == s[i] as int - 'A' as int
    ensures forall i :: 0 <= i < |s| ==> (r[i] == s[i] <==> !IsCapital(s[i]))
    ensures forall i :: 0 <= i < |r| ==> !IsCapital(r[i])
  {
    seq(|s|, i requires 0 <= i < |s| => LowerChar(s[i]))
  }

  /** Lower-casing twice is lower-casing once. */
  lemma LowerIdempotent(s: string)
    ensures Lower(Lower(s)) == Lower(s)
  {
    var l := Lower(s);
    forall i | 0 <= i < |l| ensures Lower(l)[i] == l[i] {
      assert !IsCapital(l[i]);
    }
  }

  predicate AllSpace(s: string)
  {
    forall k :: 0 <= k < |s| ==> IsSpace(s[k])
  }

  /** Number of leading whitespace characters. */
  function StripStart(s: string): (i: nat)
    ensures i <= |s|
    ensures forall k :: 0 <= k < i ==> IsSpace(s[k])
    ensures i < |s| ==> !IsSpace(s[i])
    decreases |s|
  {
    if |s| == 0 || !IsSpace(s[0]) then 0 else 1 + StripStart(s[1..])
  }

  /** Number of trailing whitespace characters. */
  function TrailingSpaces(s: string): (n: nat)
    ensures n <= |s|
    ensures forall k :: |s| - n <= k < |s| ==> IsSpace(s[k])
    ensures n < |s| ==> !IsSpace(s[|s| - n - 1])
    decreases |s|
  {
    if |s| == 0 || !IsSpace(s[|s| - 1]) then 0 else 1 + TrailingSpaces(s[..|s| - 1])
  }

  function StripLeft(s: string): string
  {
    s[StripStart(s)..]
  }

  function StripRight(s: string): string
  {
    s[..|s| - TrailingSpaces(s)]
  }

  /** No whitespace at either end. */
  predicate IsStripped(s: string)
  {
    s == [] || (!IsSpace(s[0]) && !IsSpace(s[|s| - 1]))
  }

  /** str.strip(): the input without its leading and trailing whitespace. */
  function Strip(s: string): (r: string)
    ensures IsStripped(r)
    ensures StripStart(s) + |r| <= |s| && r == s[StripStart(s)..StripStart(s) + |r|]
    ensures forall k :: StripStart(s) + |r| <= k < |s| ==> IsSpace(s[k])
  {
    StripRight(StripLeft(s))
  }

  /** A string with no whitespace at either end is its own strip(). */
  lemma StripOfStripped(s: string)
    requires IsStripped(s)
    ensures Strip(s) == s
  {
    assert StripStart(s) == 0;
    assert TrailingSpaces(s) == 0;
  }

  lemma StripIdempotent(s: string)
    ensures Strip(Strip(s)) == Strip(s)
  {
    StripOfStripped(Strip(s));
  }

  lemma StripKeepsChars(s: string)
    ensures forall c :: c in Strip(s) ==> c in s
  {
    var r := Strip(s);
    var k := StripStart(s);
    assert forall i :: 0 <= i < |r| ==> r[i] == s[k + i];
  }

  lemma StripLeftNewline(x: string)
    ensures StripLeft("\n" + x) == StripLeft(x)
  {
    assert ("\n" + x)[1..] == x;
  }

  lemma StripRightNewline(x: string)
    ensures StripRight(x + "\n") == StripRight(x)
  {
    assert (x + "\n")[..|x|] == x;
  }

  /** Index of the first occurrence of c, or |s| when there is none. */
  function IndexOf(s: string, c: char): (i: nat)
    ensures i <= |s|
    ensures forall k :: 0 <= k < i ==> s[k] != c
    ensures i < |s| ==> s[i] == c
    ensures i == |s| <==> c !in s
    decreases |s|
  {
    if |s| == 0 || s[0] == c then 0 else 1 + IndexOf(s[1..], c)
  }

  /** Length of the run of c at the start of s. */
  function CharRun(s: string, c: char): (n: nat)
    ensures n <= |s|
    ensures forall k :: 0 <= k < n ==> s[k] == c
    ensures n < |s| ==> s[n] != c
    decreases |s|
  {
    if |s| == 0 || s[0] != c then 0 else 1 + CharRun(s[1..], c)
  }

  /** s with every character of cs deleted; the other characters stay, in order. */
  function Without(s: string, cs: set<char>): (r: string)
    ensures |r| <= |s|
    decreases |s|
  {
    if |s| == 0 then [] else (if s[0] in cs then [] else [s[0]]) + Without(s[1..], cs)
  }

  lemma {:induction false} WithoutAppend(a: string, b: string, cs: set<char>)
    ensures Without(a + b, cs) == Without(a, cs) + Without(b, cs)
    decreases |a|
  {
    if |a| == 0 {
      assert a + b == b;
    } else {
      var h := if a[0] in cs then [] else [a[0]];
      var ab := a + b;
      assert ab[0] == a[0] && ab[1..] == a[1..] + b;
      assert Without(ab, cs) == h + Without(ab[1..], cs);
      WithoutAppend(a[1..], b, cs);
      assert Without(a, cs) == h + Without(a[1..], cs);
    }
  }

  /** Deleting distributes over concatenation, so equal parts give equal wholes. */
  lemma WithoutConcat(p: string, x: string, q: string, y: string, cs: set<char>)
    requires Without(p, cs) == Without(q, cs) && Without(x, cs) == Without(y, cs)
    ensures Without(p + x, cs) == Without(q + y, cs)
  {
    WithoutAppend(p, x, cs);
    WithoutAppend(q, y, cs);
  }

  lemma {:induction false} WithoutAll(s: string, cs: set<char>)
    requires forall k :: 0 <= k < |s| ==> s[k] in cs
    ensures Without(s, cs) == []
    decreases |s|
  {
    if |s| > 0 {
      WithoutAll(s[1..], cs);
    }
  }

  lemma {:induction false} WithoutNone(s: string, cs: set<char>)
    requires forall k :: 0 <= k < |s| ==> s[k] !in cs
    ensures Without(s, cs) == s
    decreases |s|
  {
    if |s| > 0 {
      WithoutNone(s[1..], cs);
    }
  }

  /** sep.join(parts). */
  function Join(parts: seq<string>, sep: string): string
    decreases |parts|
  {
    if |parts| == 0 then []
    else if |parts| == 1 then parts[0]
    else parts[0] + sep + Join(parts[1..], sep)
  }

  lemma JoinCons(p: string, parts: seq<string>, sep: string)
    requires |parts| > 0
    ensures Join([p] + parts, sep) == p + sep + Join(parts, sep)
  {
    assert ([p] + parts)[1..] == parts;
  }

  lemma {:induction false} JoinSnoc(parts: seq<string>, p: string, sep: string)
    requires |parts| > 0
    ensures Join(parts + [p], sep) == Join(parts, sep) + sep + p
    decreases |parts|
  {
    if |parts| == 1 {
      assert parts + [p] == [parts[0]] + [p];
      JoinCons(parts[0], [p], sep);
    } else {
      assert parts + [p] == [parts[0]] + (parts[1..] + [p]);
      JoinCons(parts[0], parts[1..] + [p], sep);
      JoinSnoc(parts[1..], p, sep);
      JoinCons(parts[0], parts[1..], sep);
      assert [parts[0]] + parts[1..] == parts;
    }
  }

  /** A join of parts the first of which is non-empty is itself non-empty. */
  lemma JoinNonEmpty(parts: seq<string>, sep: string)
    requires |parts| > 0 && |parts[0]| > 0
    ensures |Join(parts, sep)| > 0
  {
  }

  /**
    s.split("\n"): the pieces between the line feeds. The pieces hold no line
    feed, and joining them back with line feeds gives s again.
  */
  function Lines(s: string): (r: seq<string>)
    ensures |r| >= 1
    ensures forall k :: 0 <= k < |r| ==> '\n' !in r[k]
    ensures Join(r, "\n") == s
    decreases |s|
  {
    var i := IndexOf(s, '\n');
    if i == |s| then
      assert '\n' !in s by {
        forall k | 0 <= k < |s| ensures s[k] != '\n' { }
      }
      [s]
    else
      var rest := Lines(s[i + 1..]);
      assert '\n' !in s[..i] by {
        forall k | 0 <= k < i ensures s[..i][k] != '\n' { }
      }
      JoinCons(s[..i], rest, "\n");
      assert s == s[..i] + "\n" + s[i + 1..];
      [s[..i]] + rest
  }

  /** Splitting a join of line-feed-free pieces gives the pieces back. */
  lemma {:induction false} LinesOfJoin(parts: seq<string>)
    requires |parts| >= 1
    requires forall k :: 0 <= k < |parts| ==> '\n' !in parts[k]
    ensures Lines(Join(parts, "\n")) == parts
    decreases |parts|
  {
    if |parts| == 1 {
    } else {
      var p := parts[0];
      var s := Join(parts, "\n");
      assert s == p + "\n" + Join(parts[1..], "\n");
      var i := IndexOf(s, '\n');
      assert s[|p|] == '\n';
      assert i == |p|;
      assert s[..i] == p;
      assert s[i + 1..] == Join(parts[1..], "\n");
      LinesOfJoin(parts[1..]);
      assert [p] + parts[1..] == parts;
    }
  }

  // ---------------------------------------------------------------- per-line maps and filters

  /** [ln.strip() for ln in lines]. */
  function StripEach(lines: seq<string>): (r: seq<string>)
    ensures |r| == |lines|
    ensures forall i :: 0 <= i < |r| ==> r[i] == Strip(lines[i])
  {
    seq(|lines|, i requires 0 <= i < |lines| => Strip(lines[i]))
  }

  /** The lines that drop rejects are removed; the others stay, in their order. */
  function KeepLines(lines: seq<string>, drop: string -> bool): (r: seq<string>)
    ensures |r| <= |lines|
    decreases |lines|
  {
    if |lines| == 0 then []
    else if drop(lines[0]) then KeepLines(lines[1..], drop)
    else [lines[0]] + KeepLines(lines[1..], drop)
  }

  /** The filter keeps exactly the lines it does not reject. */
  lemma {:induction false} KeepLinesExactly(lines: seq<string>, drop: string -> bool, x: string)
    ensures x in KeepLines(lines, drop) <==> x in lines && !drop(x)
    decreases |lines|
  {
    if |lines| > 0 {
      KeepLinesExactly(lines[1..], drop, x);
      assert lines == [lines[0]] + lines[1..];
    }
  }

  /** Filtering distributes over concatenation, so the kept lines stay in their order. */
  lemma {:induction false} KeepLinesAppend(a: seq<string>, b: seq<string>, drop: string -> bool)
    ensures KeepLines(a + b, drop) == KeepLines(a, drop) + KeepLines(b, drop)
    decreases |a|
  {
    if |a| > 0 {
      assert (a + b)[0] == a[0];
      assert (a + b)[1..] == a[1..] + b;
      KeepLinesAppend(a[1..], b, drop);
    } else {
      assert a + b == b;
    }
  }

  /** Stripped lines are their own strip. */
  lemma StripEachOfStripped(lines: seq<string>)
    requires forall i :: 0 <= i < |lines| ==> IsStripped(lines[i])
    ensures StripEach(lines) == lines
  {
    forall i | 0 <= i < |lines| ensures Strip(lines[i]) == lines[i] {
      StripOfStripped(lines[i]);
    }
  }

  /** A filter that rejects none of the lines keeps all of them. */
  lemma {:induction false} KeepAllLines(lines: seq<string>, drop: string -> bool)
    requires forall i :: 0 <= i < |lines| ==> !drop(lines[i])
    ensures KeepLines(lines, drop) == lines
    decreases |lines|
  {
    if |lines| > 0 {
      assert forall i :: 0 <= i < |lines| - 1 ==> lines[1..][i] == lines[i + 1];
      KeepAllLines(lines[1..], drop);
      assert lines == [lines[0]] + lines[1..];
    }
  }

  // ---------------------------------------------------------------- concatenation of blocks

  /** The blocks one after the other. */
  function Flatten<T>(blocks: seq<seq<T>>): (r: seq<T>)
    ensures |r| == Offset(blocks, |blocks|)
    decreases |blocks|
  {
    if |blocks| == 0 then [] else blocks[0] + Flatten(blocks[1..])
  }

  /** The total length of the blocks before block d. */
  function Offset<T>(blocks: seq<seq<T>>, d: nat): nat
    requires d <= |blocks|
    decreases d
  {
    if d == 0 then 0 else |blocks[0]| + Offset(blocks[1..], d - 1)
  }

  /** Block d lies in the concatenation right after the blocks before it. */
  lemma {:induction false} FlattenBlock<T>(blocks: seq<seq<T>>, d: nat)
    requires d < |blocks|
    ensures var lo := Offset(blocks, d);
            lo + |blocks[d]| <= |Flatten(blocks)| && Flatten(blocks)[lo..lo + |blocks[d]|] == blocks[d]
    decreases d
  {
    var first, rest := blocks[0], Flatten(blocks[1..]);
    assert Flatten(blocks) == first + rest;
    if d > 0 {
      FlattenBlock(blocks[1..], d - 1);
      var lo := Offset(blocks[1..], d - 1);
      assert (first + rest)[|first| + lo..|first| + lo + |blocks[d]|] == rest[lo..lo + |blocks[d]|];
    }
  }

  /** Every block lies in the concatenation right after the blocks before it. */
  lemma FlattenBlocks<T>(blocks: seq<seq<T>>)
    ensures forall d :: 0 <= d < |blocks| ==>
              var lo := Offset(blocks, d);
              lo + |blocks[d]| <= |Flatten(blocks)| && Flatten(blocks)[lo..lo + |blocks[d]|] == blocks[d]
  {
    forall d | 0 <= d < |blocks|
      ensures var lo := Offset(blocks, d);
              lo + |blocks[d]| <= |Flatten(blocks)| && Flatten(blocks)[lo..lo + |blocks[d]|] == blocks[d]
    {
      FlattenBlock(blocks, d);
    }
  }

  lemma Associate(x: string, y: string, z: string)
    ensures x + y + z == x + (y + z)
  {
  }

  /** Both sides start with the same head; the rest of the whole splits as the rest of the left part plus the right part. */
  lemma Glue(head: string, whole: string, tail: string, left: string, leftTail: string, right: string)
    requires whole == head + tail && tail == leftTail + right && left == head + leftTail
    ensures whole == left + right
  {
    Associate(head, leftTail, right);
  }
}
