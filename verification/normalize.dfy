/**
  The page-text cleaner (_norm_text). After Unicode normalisation, which the
  model does not cover (its input is taken to be NFKC-normalised already), it
  runs five rewriting passes and then strips the ends:
    1. NBSP becomes a space;
    2. "(\w)-\n(\w)" becomes the two word characters, scanning left to right
       without overlapping matches;
    3. every run of spaces and tabs becomes one space;
    4. "\r\n" becomes "\n", again without overlapping matches;
    5. every run of three or more line feeds becomes exactly two.
*/
module Normalize {
  import opened Text

  const NBSP: char := '\U{A0}'

  /** a at position i, immediately followed by b. */
  predicate PairAt(s: string, i: int, a: char, b: char)
    requires 0 <= i < |s| - 1
  {
    s[i] == a && s[i + 1] == b
  }

  /** No position where a is immediately followed by b. */
  predicate NoPair(s: string, a: char, b: char)
  {
    forall i :: 0 <= i < |s| - 1 ==> !PairAt(s, i, a, b)
  }

  /** Three line feeds in a row from position i. */
  predicate Run3At(s: string, i: int)
    requires 0 <= i < |s| - 2
  {
    s[i] == '\n' && s[i + 1] == '\n' && s[i + 2] == '\n'
  }

  /** No run of three or more line feeds. */
  predicate NoNewlineRun3(s: string)
  {
    forall i :: 0 <= i < |s| - 2 ==> !Run3At(s, i)
  }

  predicate IsBlank(c: char)
  {
    c == ' ' || c == '\t'
  }

  /** Nothing but spaces and tabs. */
  predicate AllBlank(f: string)
  {
    forall k :: 0 <= k < |f| ==> IsBlank(f[k])
  }

  /** Joining two strings without the pair creates one only across the seam. */
  lemma NoPairAppend(h: string, r: string, a: char, b: char)
    requires NoPair(h, a, b) && NoPair(r, a, b)
    requires |h| > 0 && |r| > 0 ==> !(h[|h| - 1] == a && r[0] == b)
    ensures NoPair(h + r, a, b)
  {
    var t := h + r;
    forall i | 0 <= i < |t| - 1 ensures !PairAt(t, i, a, b) {
      if i + 1 < |h| {
        assert t[i] == h[i] && t[i + 1] == h[i + 1];
        assert !PairAt(h, i, a, b);
      } else if i >= |h| {
        assert t[i] == r[i - |h|] && t[i + 1] == r[i - |h| + 1];
        assert !PairAt(r, i - |h|, a, b);
      } else {
        assert t[i] == h[|h| - 1] && t[i + 1] == r[0];
      }
    }
  }

  lemma NoPairSlice(s: string, x: nat, y: nat, a: char, b: char)
    requires NoPair(s, a, b) && x <= y <= |s|
    ensures NoPair(s[x..y], a, b)
  {
    var r := s[x..y];
    forall i | 0 <= i < |r| - 1 ensures !PairAt(r, i, a, b) {
      assert r[i] == s[x + i] && r[i + 1] == s[x + i + 1];
      assert !PairAt(s, x + i, a, b);
    }
  }

  /** Every run of three that crosses the seam holds both seam characters. */
  lemma NoRun3Append(h: string, r: string)
    requires NoNewlineRun3(h) && NoNewlineRun3(r)
    requires |h| > 0 && |r| > 0 ==> h[|h| - 1] != '\n' || r[0] != '\n'
    ensures NoNewlineRun3(h + r)
  {
    var t := h + r;
    forall i | 0 <= i < |t| - 2 ensures !Run3At(t, i) {
      if i + 2 < |h| {
        assert t[i] == h[i] && t[i + 1] == h[i + 1] && t[i + 2] == h[i + 2];
        assert !Run3At(h, i);
      } else if i >= |h| {
        var j := i - |h|;
        assert t[i] == r[j] && t[i + 1] == r[j + 1] && t[i + 2] == r[j + 2];
        assert !Run3At(r, j);
      } else if i + 1 == |h| {
        assert t[i] == h[|h| - 1] && t[i + 1] == r[0];
      } else {
        assert t[i + 1] == h[|h| - 1] && t[i + 2] == r[0];
      }
    }
  }

  lemma NoNewlineRun3Slice(s: string, x: nat, y: nat)
    requires NoNewlineRun3(s) && x <= y <= |s|
    ensures NoNewlineRun3(s[x..y])
  {
    var r := s[x..y];
    forall i | 0 <= i < |r| - 2 ensures !Run3At(r, i) {
      var j := x + i;
      assert r[i] == s[j] && r[i + 1] == s[j + 1] && r[i + 2] == s[j + 2];
      assert !Run3At(s, j);
    }
  }

  // ---------------------------------------------------------------- pass 1

  function ReplaceNbsp(s: string): (r: string)
    ensures |r| == |s|
    ensures NBSP !in r
    ensures forall i :: 0 <= i < |s| ==> r[i] == (if s[i] == NBSP then ' ' else s[i])
  {
    seq(|s|, i requires 0 <= i < |s| => if s[i] == NBSP then ' ' else s[i])
  }

  // ---------------------------------------------------------------- pass 2

  predicate HyphenBreakAt(s: string)
  {
    |s| >= 4 && IsWordChar(s[0]) && s[1] == '-' && s[2] == '\n' && IsWordChar(s[3])
  }

  function Dehyphen(s: string): (r: string)
    ensures |s| > 0 ==> |r| > 0 && r[0] == s[0]
    ensures forall c :: c in r ==> c in s
    decreases |s|
  {
    if |s| < 4 then s
    else if HyphenBreakAt(s) then [s[0], s[3]] + Dehyphen(s[4..])
    else [s[0]] + Dehyphen(s[1..])
  }

  // ---------------------------------------------------------------- pass 3

  function BlankRun(s: string): (n: nat)
    ensures n <= |s|
    ensures forall k :: 0 <= k < n ==> IsBlank(s[k])
    ensures n < |s| ==> !IsBlank(s[n])
    decreases |s|
  {
    if |s| == 0 || !IsBlank(s[0]) then 0 else 1 + BlankRun(s[1..])
  }

  function CollapseBlanks(s: string): (r: string)
    ensures |s| > 0 ==> |r| > 0 && r[0] == (if IsBlank(s[0]) then ' ' else s[0])
    ensures forall c :: c in r ==> c == ' ' || (c in s && !IsBlank(c))
    ensures NoPair(r, ' ', ' ')
    decreases |s|
  {
    if |s| == 0 then []
    else if IsBlank(s[0]) then
      var n := BlankRun(s);
      var rest := CollapseBlanks(s[n..]);
      NoPairAppend([' '], rest, ' ', ' ');
      [' '] + rest
    else
      var rest := CollapseBlanks(s[1..]);
      NoPairAppend([s[0]], rest, ' ', ' ');
      [s[0]] + rest
  }

  // ---------------------------------------------------------------- pass 4

  predicate CrlfAt(s: string)
  {
    |s| >= 2 && s[0] == '\r' && s[1] == '\n'
  }

  function CrlfToLf(s: string): (r: string)
    ensures |s| > 0 ==> |r| > 0 && r[0] == (if CrlfAt(s) then '\n' else s[0])
    ensures forall c :: c in r ==> c in s
    decreases |s|
  {
    if |s| < 2 then s
    else if CrlfAt(s) then ['\n'] + CrlfToLf(s[2..])
    else [s[0]] + CrlfToLf(s[1..])
  }

  // ---------------------------------------------------------------- pass 5

  function CapNewlines(s: string): (r: string)
    ensures |s| > 0 ==> |r| > 0 && r[0] == s[0]
    ensures forall c :: c in r ==> c in s
    ensures NoNewlineRun3(r)
    decreases |s|
  {
    if |s| == 0 then []
    else if s[0] == '\n' then
      var n := CharRun(s, '\n');
      var head := if n >= 3 then "\n\n" else s[..n];
      var rest := CapNewlines(s[n..]);
      assert forall c :: c in head ==> c in s;
      NoRun3Append(head, rest);
      head + rest
    else
      var rest := CapNewlines(s[1..]);
      NoRun3Append([s[0]], rest);
      [s[0]] + rest
  }

  // ---------------------------------------------------------------- the cleaner

  /**
    The cleaned text holds no NBSP, no tab, no two spaces in a row, no run of
    three or more line feeds, and no whitespace at either end.
  */
  function NormText(s: string): (r: string)
    ensures NBSP !in r && '\t' !in r
    ensures NoPair(r, ' ', ' ')
    ensures NoNewlineRun3(r)
    ensures IsStripped(r)
  {
    PassesClean(s);
    Strip(CapNewlines(CrlfToLf(CollapseBlanks(Dehyphen(ReplaceNbsp(s))))))
  }

  // ---------------------------------------------------------------- what each pass keeps

  /**
    Rejoining only deletes "-\n" breaks: with hyphens and line feeds deleted
    from both, the output and the input are the same text.
  */
  lemma {:induction false} DehyphenKeepsText(s: string)
    ensures Without(Dehyphen(s), {'-', '\n'}) == Without(s, {'-', '\n'})
    decreases |s|
  {
    if |s| >= 4 {
      if HyphenBreakAt(s) {
        DehyphenKeepsText(s[4..]);
        DehyphenBreakCase(s);
      } else {
        DehyphenKeepsText(s[1..]);
        DehyphenPlainCase(s);
      }
    }
  }

  lemma DehyphenBreakCase(s: string)
    requires HyphenBreakAt(s)
    requires Without(Dehyphen(s[4..]), {'-', '\n'}) == Without(s[4..], {'-', '\n'})
    ensures Without(Dehyphen(s), {'-', '\n'}) == Without(s, {'-', '\n'})
  {
    var cs := {'-', '\n'};
    var pair := [s[0], s[3]];
    BreakText(s);
    WithoutConcat(pair, Dehyphen(s[4..]), s[..4], s[4..], cs);
    assert s[..4] + s[4..] == s;
  }

  lemma DehyphenPlainCase(s: string)
    requires |s| >= 4 && !HyphenBreakAt(s)
    requires Without(Dehyphen(s[1..]), {'-', '\n'}) == Without(s[1..], {'-', '\n'})
    ensures Without(Dehyphen(s), {'-', '\n'}) == Without(s, {'-', '\n'})
  {
    WithoutAppend([s[0]], Dehyphen(s[1..]), {'-', '\n'});
  }

  lemma BreakText(s: string)
    requires HyphenBreakAt(s)
    ensures Without(s[..4], {'-', '\n'}) == [s[0], s[3]]
    ensures Without([s[0], s[3]], {'-', '\n'}) == [s[0], s[3]]
  {
    var cs := {'-', '\n'};
    var a, b := s[0], s[3];
    assert a !in cs && b !in cs;
    assert s[..4] == [a] + ['-', '\n'] + [b];
    WithoutAppend([a] + ['-', '\n'], [b], cs);
    WithoutAppend([a], ['-', '\n'], cs);
    WithoutAll(['-', '\n'], cs);
    WithoutNone([a, b], cs);
  }

  /**
    Collapsing only rewrites blank runs: with spaces and tabs deleted from
    both, the output and the input are the same text.
  */
  lemma {:induction false} CollapseBlanksKeepsText(s: string)
    ensures Without(CollapseBlanks(s), {' ', '\t'}) == Without(s, {' ', '\t'})
    decreases |s|
  {
    var cs := {' ', '\t'};
    if |s| > 0 {
      if IsBlank(s[0]) {
        var n := BlankRun(s);
        CollapseBlanksKeepsText(s[n..]);
        assert s == s[..n] + s[n..];
        WithoutAppend(s[..n], s[n..], cs);
        WithoutAll(s[..n], cs);
        WithoutAppend([' '], CollapseBlanks(s[n..]), cs);
      } else {
        CollapseBlanksKeepsText(s[1..]);
        WithoutAppend([s[0]], CollapseBlanks(s[1..]), cs);
      }
    }
  }

  /**
    The line-end pass only deletes carriage returns: with them deleted from
    both, the output and the input are the same text.
  */
  lemma {:induction false} CrlfToLfKeepsText(s: string)
    ensures Without(CrlfToLf(s), {'\r'}) == Without(s, {'\r'})
    decreases |s|
  {
    var cs := {'\r'};
    if |s| >= 2 {
      if CrlfAt(s) {
        CrlfToLfKeepsText(s[2..]);
        assert s == s[..2] + s[2..];
        WithoutAppend(s[..2], s[2..], cs);
        assert Without(s[..2], cs) == ['\n'] by {
          assert s[..2] == ['\r', '\n'];
        }
        WithoutAppend(['\n'], CrlfToLf(s[2..]), cs);
      } else {
        CrlfToLfKeepsText(s[1..]);
        WithoutAppend([s[0]], CrlfToLf(s[1..]), cs);
      }
    }
  }

  /**
    Capping only shortens line-feed runs: with line feeds deleted from both,
    the output and the input are the same text.
  */
  lemma {:induction false} CapNewlinesKeepsText(s: string)
    ensures Without(CapNewlines(s), {'\n'}) == Without(s, {'\n'})
    decreases |s|
  {
    var cs := {'\n'};
    if |s| > 0 {
      if s[0] == '\n' {
        var n := CharRun(s, '\n');
        var head := if n >= 3 then "\n\n" else s[..n];
        CapNewlinesKeepsText(s[n..]);
        assert s == s[..n] + s[n..];
        WithoutAppend(s[..n], s[n..], cs);
        WithoutAll(s[..n], cs);
        WithoutAll(head, cs);
        WithoutAppend(head, CapNewlines(s[n..]), cs);
      } else {
        CapNewlinesKeepsText(s[1..]);
        WithoutAppend([s[0]], CapNewlines(s[1..]), cs);
      }
    }
  }

  // ---------------------------------------------------------------- what survives each pass

  lemma {:induction false} CrlfToLfKeepsPair(s: string, a: char, b: char)
    requires b != '\n'
    requires NoPair(s, a, b)
    ensures NoPair(CrlfToLf(s), a, b)
    decreases |s|
  {
    if |s| >= 2 {
      if CrlfAt(s) {
        var rest := CrlfToLf(s[2..]);
        NoPairSlice(s, 2, |s|, a, b);
        assert s[2..|s|] == s[2..];
        CrlfToLfKeepsPair(s[2..], a, b);
        if |s| > 2 {
          assert rest[0] == (if CrlfAt(s[2..]) then '\n' else s[2]);
          assert !PairAt(s, 1, a, b);
        }
        NoPairAppend(['\n'], rest, a, b);
      } else {
        var rest := CrlfToLf(s[1..]);
        NoPairSlice(s, 1, |s|, a, b);
        assert s[1..|s|] == s[1..];
        CrlfToLfKeepsPair(s[1..], a, b);
        assert rest[0] == (if CrlfAt(s[1..]) then '\n' else s[1]);
        assert !PairAt(s, 0, a, b);
        NoPairAppend([s[0]], rest, a, b);
      }
    }
  }

  lemma {:induction false} CapNewlinesKeepsPair(s: string, a: char, b: char)
    requires !(a == '\n' && b == '\n')
    requires NoPair(s, a, b)
    ensures NoPair(CapNewlines(s), a, b)
    decreases |s|
  {
    if |s| > 0 {
      if s[0] == '\n' {
        var n := CharRun(s, '\n');
        var head := if n >= 3 then "\n\n" else s[..n];
        var rest := CapNewlines(s[n..]);
        NoPairSlice(s, n, |s|, a, b);
        assert s[n..|s|] == s[n..];
        CapNewlinesKeepsPair(s[n..], a, b);
        assert head[0] == '\n' && head[|head| - 1] == '\n';
        assert |head| == 2 ==> head[1] == '\n';
        assert NoPair(head, a, b);
        if |rest| > 0 {
          assert rest[0] == s[n] && s[n - 1] == '\n';
          assert !PairAt(s, n - 1, a, b);
        }
        NoPairAppend(head, rest, a, b);
      } else {
        var rest := CapNewlines(s[1..]);
        NoPairSlice(s, 1, |s|, a, b);
        assert s[1..|s|] == s[1..];
        CapNewlinesKeepsPair(s[1..], a, b);
        if |rest| > 0 {
          assert rest[0] == s[1];
          assert !PairAt(s, 0, a, b);
        }
        NoPairAppend([s[0]], rest, a, b);
      }
    }
  }

  lemma StripKeepsPair(s: string, a: char, b: char)
    requires NoPair(s, a, b)
    ensures NoPair(Strip(s), a, b)
  {
    var k := StripStart(s);
    NoPairSlice(s, k, k + |Strip(s)|, a, b);
  }

  lemma StripKeepsNoNewlineRun3(s: string)
    requires NoNewlineRun3(s)
    ensures NoNewlineRun3(Strip(s))
  {
    var k := StripStart(s);
    NoNewlineRun3Slice(s, k, k + |Strip(s)|);
  }

  /** No NBSP and no tab survive the passes. */
  lemma PassesDropNbspAndTab(s: string)
    ensures var r := Strip(CapNewlines(CrlfToLf(CollapseBlanks(Dehyphen(ReplaceNbsp(s))))));
            NBSP !in r && '\t' !in r
  {
    var a := ReplaceNbsp(s);
    var b := Dehyphen(a);
    assert NBSP !in b;
    var c := CollapseBlanks(b);
    assert NBSP !in c && '\t' !in c;
    var d := CrlfToLf(c);
    assert NBSP !in d && '\t' !in d;
    var e := CapNewlines(d);
    assert NBSP !in e && '\t' !in e;
    StripKeepsChars(e);
  }

  lemma PassesClean(s: string)
    ensures var r := Strip(CapNewlines(CrlfToLf(CollapseBlanks(Dehyphen(ReplaceNbsp(s))))));
            NBSP !in r && '\t' !in r && NoPair(r, ' ', ' ') && NoNewlineRun3(r) && IsStripped(r)
  {
    PassesDropNbspAndTab(s);
    var c := CollapseBlanks(Dehyphen(ReplaceNbsp(s)));
    var d := CrlfToLf(c);
    var e := CapNewlines(d);
    CrlfToLfKeepsPair(c, ' ', ' ');
    CapNewlinesKeepsPair(d, ' ', ' ');
    StripKeepsPair(e, ' ', ' ');
    StripKeepsNoNewlineRun3(e);
  }

  // ---------------------------------------------------------------- line ends


  lemma ReplaceNbspKeepsPair(s: string, a: char, b: char)
    requires a != ' ' && b != ' '
    requires NoPair(s, a, b)
    ensures NoPair(ReplaceNbsp(s), a, b)
  {
    var r := ReplaceNbsp(s);
    forall i | 0 <= i < |r| - 1 ensures !PairAt(r, i, a, b) {
      assert !PairAt(s, i, a, b);
    }
  }

  lemma {:induction false} DehyphenKeepsPair(s: string, a: char, b: char)
    requires !IsWordChar(a)
    requires NoPair(s, a, b)
    ensures NoPair(Dehyphen(s), a, b)
    decreases |s|
  {
    if |s| >= 4 {
      if HyphenBreakAt(s) {
        var rest := Dehyphen(s[4..]);
        NoPairSlice(s, 4, |s|, a, b);
        assert s[4..|s|] == s[4..];
        DehyphenKeepsPair(s[4..], a, b);
        var h := [s[0], s[3]];
        assert h[0] != a && h[1] != a;
        NoPairAppend(h, rest, a, b);
      } else {
        var rest := Dehyphen(s[1..]);
        NoPairSlice(s, 1, |s|, a, b);
        assert s[1..|s|] == s[1..];
        DehyphenKeepsPair(s[1..], a, b);
        assert rest[0] == s[1];
        assert !PairAt(s, 0, a, b);
        NoPairAppend([s[0]], rest, a, b);
      }
    }
  }

  lemma {:induction false} CollapseBlanksKeepsPair(s: string, a: char, b: char)
    requires !IsBlank(a) && !IsBlank(b)
    requires NoPair(s, a, b)
    ensures NoPair(CollapseBlanks(s), a, b)
    decreases |s|
  {
    if |s| > 0 {
      if IsBlank(s[0]) {
        var n := BlankRun(s);
        var rest := CollapseBlanks(s[n..]);
        NoPairSlice(s, n, |s|, a, b);
        assert s[n..|s|] == s[n..];
        CollapseBlanksKeepsPair(s[n..], a, b);
        NoPairAppend([' '], rest, a, b);
      } else {
        var rest := CollapseBlanks(s[1..]);
        NoPairSlice(s, 1, |s|, a, b);
        assert s[1..|s|] == s[1..];
        CollapseBlanksKeepsPair(s[1..], a, b);
        if |s| > 1 {
          assert rest[0] == (if IsBlank(s[1]) then ' ' else s[1]);
          assert !PairAt(s, 0, a, b);
        }
        NoPairAppend([s[0]], rest, a, b);
      }
    }
  }

  /** Pass 4 leaves a "\r\n" behind only where the input had "\r\r\n". */
  lemma {:induction false} CrlfToLfRemovesCrlf(s: string)
    requires NoPair(s, '\r', '\r')
    ensures NoPair(CrlfToLf(s), '\r', '\n')
    decreases |s|
  {
    if |s| >= 2 {
      if CrlfAt(s) {
        var rest := CrlfToLf(s[2..]);
        NoPairSlice(s, 2, |s|, '\r', '\r');
        assert s[2..|s|] == s[2..];
        CrlfToLfRemovesCrlf(s[2..]);
        NoPairAppend(['\n'], rest, '\r', '\n');
      } else {
        var rest := CrlfToLf(s[1..]);
        NoPairSlice(s, 1, |s|, '\r', '\r');
        assert s[1..|s|] == s[1..];
        CrlfToLfRemovesCrlf(s[1..]);
        assert rest[0] == (if CrlfAt(s[1..]) then '\n' else s[1]);
        assert !PairAt(s, 0, '\r', '\r');
        NoPairAppend([s[0]], rest, '\r', '\n');
      }
    }
  }

  /**
    When the raw text never has two carriage returns in a row, the cleaned
    text holds no "\r\n".
  */
  lemma NormTextRemovesCrlf(s: string)
    requires NoPair(s, '\r', '\r')
    ensures NoPair(NormText(s), '\r', '\n')
  {
    var a := ReplaceNbsp(s);
    var b := Dehyphen(a);
    var c := CollapseBlanks(b);
    var d := CrlfToLf(c);
    var e := CapNewlines(d);
    ReplaceNbspKeepsPair(s, '\r', '\r');
    DehyphenKeepsPair(a, '\r', '\r');
    CollapseBlanksKeepsPair(b, '\r', '\r');
    CrlfToLfRemovesCrlf(c);
    CapNewlinesKeepsPair(d, '\r', '\n');
    StripKeepsPair(e, '\r', '\n');
  }

  // ---------------------------------------------------------------- passes with nothing to do

  /** A character missing from a non-empty string is missing from its head and its tail. */
  lemma MissingFromTail(s: string, c: char)
    requires |s| > 0 && c !in s
    ensures s[0] != c && c !in s[1..] && s == [s[0]] + s[1..]
  {
    forall k | 0 <= k < |s| - 1 ensures s[1..][k] != c {
      assert s[1..][k] == s[k + 1];
    }
  }

  lemma ReplaceNbspIdentity(s: string)
    requires NBSP !in s
    ensures ReplaceNbsp(s) == s
  {
  }

  lemma {:induction false} DehyphenIdentity(s: string)
    requires '-' !in s
    ensures Dehyphen(s) == s
    decreases |s|
  {
    if |s| >= 4 {
      MissingFromTail(s, '-');
      assert !HyphenBreakAt(s) by {
        assert s[1] in s;
      }
      DehyphenIdentity(s[1..]);
    }
  }

  lemma {:induction false} CollapseBlanksIdentity(s: string)
    requires ' ' !in s && '\t' !in s
    ensures CollapseBlanks(s) == s
    decreases |s|
  {
    if |s| > 0 {
      MissingFromTail(s, ' ');
      MissingFromTail(s, '\t');
      CollapseBlanksIdentity(s[1..]);
    }
  }

  /** Text with no "\r\n" is unchanged by the line-end pass; a lone '\r' stays. */
  lemma {:induction false} CrlfToLfIdentity(s: string)
    requires NoPair(s, '\r', '\n')
    ensures CrlfToLf(s) == s
    decreases |s|
  {
    if |s| >= 2 {
      assert !PairAt(s, 0, '\r', '\n');
      NoPairSlice(s, 1, |s|, '\r', '\n');
      assert s[1..|s|] == s[1..];
      CrlfToLfIdentity(s[1..]);
    }
  }

  /**
    Each "\r\n" becomes "\n" and the text on either side is converted on its
    own: matches cannot overlap, so the scan of a never reaches into the pair.
    With CrlfToLfIdentity this fixes the pass on every input.
  */
  lemma {:induction false} CrlfToLfSplit(a: string, b: string)
    ensures CrlfToLf(a + "\r\n" + b) == CrlfToLf(a) + "\n" + CrlfToLf(b)
    decreases |a|
  {
    if |a| == 0 {
      CrlfSplitAtStart(b);
      assert a + "\r\n" + b == "\r\n" + b;
    } else if CrlfAt(a) {
      CrlfToLfSplit(a[2..], b);
      CrlfSplitAfterPair(a, b);
    } else {
      CrlfToLfSplit(a[1..], b);
      CrlfSplitAfterChar(a, b);
    }
  }

  lemma {:induction false} CrlfSplitAtStart(b: string)
    ensures CrlfToLf("\r\n" + b) == "\n" + CrlfToLf(b)
  {
    var s := "\r\n" + b;
    assert CrlfAt(s);
    assert s[2..] == b;
  }

  /** The step of CrlfToLfSplit where a opens with its own "\r\n". */
  lemma {:induction false} CrlfSplitAfterPair(a: string, b: string)
    requires CrlfAt(a)
    requires CrlfToLf(a[2..] + "\r\n" + b) == CrlfToLf(a[2..]) + "\n" + CrlfToLf(b)
    ensures CrlfToLf(a + "\r\n" + b) == CrlfToLf(a) + "\n" + CrlfToLf(b)
  {
    var s := a + "\r\n" + b;
    var x := CrlfToLf(a[2..]);
    var y := CrlfToLf(b);
    assert CrlfAt(s);
    assert s[2..] == a[2..] + "\r\n" + b;
    Associate(x, "\n", y);
    Glue("\n", CrlfToLf(s), x + ("\n" + y), CrlfToLf(a), x, "\n" + y);
    Associate(CrlfToLf(a), "\n", y);
  }

  /** The step of CrlfToLfSplit where a opens with a character kept as it is. */
  lemma {:induction false} CrlfSplitAfterChar(a: string, b: string)
    requires |a| > 0 && !CrlfAt(a)
    requires CrlfToLf(a[1..] + "\r\n" + b) == CrlfToLf(a[1..]) + "\n" + CrlfToLf(b)
    ensures CrlfToLf(a + "\r\n" + b) == CrlfToLf(a) + "\n" + CrlfToLf(b)
  {
    var x := CrlfToLf(a[1..]);
    var y := CrlfToLf(b);
    PlainHeadBeforePair(a, b);
    CrlfToLfKeepsHead(a);
    Associate(x, "\n", y);
    Glue([a[0]], CrlfToLf(a + "\r\n" + b), x + ("\n" + y), CrlfToLf(a), x, "\n" + y);
    Associate(CrlfToLf(a), "\n", y);
  }

  /** A first character of a that does not open "\r\n" stays first when a pair follows a. */
  lemma {:induction false} PlainHeadBeforePair(a: string, b: string)
    requires |a| > 0 && !CrlfAt(a)
    ensures CrlfToLf(a + "\r\n" + b) == [a[0]] + CrlfToLf(a[1..] + "\r\n" + b)
  {
    var t := "\r\n" + b;
    var s := a + t;
    Associate(a, "\r\n", b);
    Associate(a[1..], "\r\n", b);
    assert !CrlfAt(s) by {
      if |a| == 1 {
        assert s[1] == '\r';
      } else {
        assert s[1] == a[1];
      }
    }
    assert s[1..] == a[1..] + t;
    CrlfToLfKeepsHead(s);
  }

  /** A first character that does not open "\r\n" is kept as it is. */
  lemma CrlfToLfKeepsHead(s: string)
    requires |s| > 0 && !CrlfAt(s)
    ensures CrlfToLf(s) == [s[0]] + CrlfToLf(s[1..])
  {
    if |s| == 1 {
      assert s[1..] == [];
    }
  }

  /** BlankRun is the one length that covers only blanks and stops before a non-blank. */
  lemma {:induction false} BlankRunIs(s: string, n: nat)
    requires n <= |s| && forall k :: 0 <= k < n ==> IsBlank(s[k])
    requires n < |s| ==> !IsBlank(s[n])
    ensures BlankRun(s) == n
  {
  }

  /**
    Collapsing works on two parts independently when the first is empty or
    ends in a character that is not a blank.
  */
  lemma {:induction false} CollapseBlanksAppend(a: string, b: string)
    requires |a| > 0 ==> !IsBlank(a[|a| - 1])
    ensures CollapseBlanks(a + b) == CollapseBlanks(a) + CollapseBlanks(b)
    decreases |a|
  {
    var s := a + b;
    if |a| == 0 {
      assert s == b;
    } else if IsBlank(a[0]) {
      var n := BlankRun(a);
      assert n < |a|;
      BlankRunIs(s, n);
      assert s[n..] == a[n..] + b;
      CollapseBlanksAppend(a[n..], b);
      Glue([' '], CollapseBlanks(s), CollapseBlanks(s[n..]), CollapseBlanks(a), CollapseBlanks(a[n..]), CollapseBlanks(b));
    } else {
      assert s[1..] == a[1..] + b;
      CollapseBlanksAppend(a[1..], b);
      Glue([a[0]], CollapseBlanks(s), CollapseBlanks(s[1..]), CollapseBlanks(a), CollapseBlanks(a[1..]), CollapseBlanks(b));
    }
  }

  /** A run of blanks before text that does not open with a blank becomes one space. */
  lemma {:induction false} BlankRunCollapses(f: string, b: string)
    requires |f| > 0 && AllBlank(f)
    requires |b| > 0 ==> !IsBlank(b[0])
    ensures CollapseBlanks(f + b) == [' '] + CollapseBlanks(b)
  {
    var s := f + b;
    BlankRunIs(s, |f|);
    assert s[|f|..] == b;
  }

  /**
    A maximal run of spaces and tabs becomes exactly one space and the text
    on either side is collapsed on its own. With CollapseBlanksIdentity this
    fixes the pass on every input.
  */
  lemma {:induction false} CollapseBlanksSplit(a: string, f: string, b: string)
    requires |a| > 0 ==> !IsBlank(a[|a| - 1])
    requires |f| > 0 && AllBlank(f)
    requires |b| > 0 ==> !IsBlank(b[0])
    ensures CollapseBlanks(a + f + b) == CollapseBlanks(a) + " " + CollapseBlanks(b)
  {
    var fb := f + b;
    assert a + f + b == a + fb;
    var ca := CollapseBlanks(a);
    var cb := CollapseBlanks(b);
    assert CollapseBlanks(a + fb) == ca + ([' '] + cb) by {
      CollapseBlanksAppend(a, fb);
      BlankRunCollapses(f, b);
    }
    assert ca + ([' '] + cb) == ca + " " + cb by {
      assert [' '] == " ";
    }
  }

  /** Length of the leading piece pass 5 treats as a unit: a line-feed run, or one character. */
  function HeadLen(s: string): (n: nat)
    requires |s| > 0
    ensures 1 <= n <= |s|
  {
    if s[0] == '\n' then CharRun(s, '\n') else 1
  }

  /** One step of pass 5: the leading run (or character) and the rest. */
  lemma CapNewlinesStep(s: string)
    requires |s| > 0
    ensures CapNewlines(s)
            == (if s[0] == '\n' && HeadLen(s) >= 3 then "\n\n" else s[..HeadLen(s)]) + CapNewlines(s[HeadLen(s)..])
  {
  }

  /** Without a run of three line feeds, the leading piece is shorter than three. */
  lemma HeadLenShort(s: string)
    requires |s| > 0 && NoNewlineRun3(s)
    ensures HeadLen(s) < 3
  {
    if s[0] == '\n' {
      assert |s| > 2 ==> !Run3At(s, 0);
    }
  }

  /** A leading piece shorter than three is kept as it is. */
  lemma CapNewlinesKeepsHead(s: string)
    requires |s| > 0 && HeadLen(s) < 3
    ensures CapNewlines(s) == s[..HeadLen(s)] + CapNewlines(s[HeadLen(s)..])
  {
    CapNewlinesStep(s);
  }

  lemma {:induction false} CapNewlinesIdentity(s: string)
    requires NoNewlineRun3(s)
    ensures CapNewlines(s) == s
    decreases |s|
  {
    if |s| > 0 {
      var n := HeadLen(s);
      HeadLenShort(s);
      CapNewlinesKeepsHead(s);
      NoNewlineRun3Slice(s, n, |s|);
      assert s[n..|s|] == s[n..];
      CapNewlinesIdentity(s[n..]);
      assert s == s[..n] + s[n..];
    }
  }

  // ---------------------------------------------------------------- hyphenation

  predicate AllWordChars(w: string)
  {
    forall k :: 0 <= k < |w| ==> IsWordChar(w[k])
  }

  lemma {:induction false} DehyphenJoinsWord(w1: string, w2: string)
    requires |w1| >= 1 && |w2| >= 1
    requires AllWordChars(w1) && AllWordChars(w2)
    ensures Dehyphen(w1 + "-\n" + w2) == w1 + w2
    decreases |w1|
  {
    var s := w1 + "-\n" + w2;
    if |w1| == 1 {
      assert HyphenBreakAt(s);
      assert s[4..] == w2[1..];
      assert '-' !in w2[1..] by {
        forall k | 0 <= k < |w2[1..]| ensures w2[1..][k] != '-' {
          assert IsWordChar(w2[k + 1]);
        }
      }
      DehyphenIdentity(w2[1..]);
      assert w1 + w2 == [s[0], s[3]] + w2[1..];
    } else {
      assert s[1] == w1[1];
      assert !HyphenBreakAt(s);
      assert s[1..] == w1[1..] + "-\n" + w2;
      DehyphenJoinsWord(w1[1..], w2);
      assert w1 + w2 == [s[0]] + (w1[1..] + w2);
    }
  }

  lemma WordCharsOnly(t: string)
    requires AllWordChars(t)
    ensures forall c :: c in t ==> IsWordChar(c)
  {
    forall c | c in t ensures IsWordChar(c) {
      var k :| 0 <= k < |t| && t[k] == c;
    }
  }

  /** A string of word characters holds nothing the later passes rewrite. */
  lemma WordCharsAvoid(t: string)
    requires AllWordChars(t)
    ensures NBSP !in t && '-' !in t && ' ' !in t && '\t' !in t && '\r' !in t
    ensures NoNewlineRun3(t) && IsStripped(t)
  {
    WordCharsOnly(t);
    if |t| > 0 {
      assert IsWordChar(t[0]) && IsWordChar(t[|t| - 1]);
    }
    forall i | 0 <= i < |t| - 2 ensures !Run3At(t, i) {
      assert IsWordChar(t[i]);
    }
  }

  /** The passes after the first two leave a string of word characters alone. */
  lemma LaterPassesIdentity(t: string)
    requires AllWordChars(t)
    ensures Strip(CapNewlines(CrlfToLf(CollapseBlanks(t)))) == t
  {
    WordCharsAvoid(t);
    CollapseBlanksIdentity(t);
    CrlfToLfIdentity(t);
    CapNewlinesIdentity(t);
    StripOfStripped(t);
  }

  /**
    A word broken at the line end with a hyphen is rejoined: the hyphen and
    the line feed between the two word halves disappear.
  */
  lemma NormTextJoinsHyphenatedWord(w1: string, w2: string)
    requires |w1| >= 1 && |w2| >= 1
    requires AllWordChars(w1) && AllWordChars(w2)
    ensures NormText(w1 + "-\n" + w2) == w1 + w2
  {
    var s := w1 + "-\n" + w2;
    var t := w1 + w2;
    assert NBSP !in s by {
      WordCharsOnly(w1);
      WordCharsOnly(w2);
    }
    ReplaceNbspIdentity(s);
    DehyphenJoinsWord(w1, w2);
    assert AllWordChars(t);
    LaterPassesIdentity(t);
  }

  /** The worked example: "cate-\ngorie" cleans to "categorie". */
  lemma NormTextRejoinsCategorie(w1: string, w2: string)
    requires w1 == "cate" && w2 == "gorie"
    ensures NormText(w1 + "-\n" + w2) == w1 + w2
  {
    assert AllWordChars(w1);
    assert AllWordChars(w2);
    NormTextJoinsHyphenatedWord(w1, w2);
  }


  /** NormText on a text whose only change is made by the rejoining pass. */
  lemma NormTextOnlyRejoins(s: string, t: string)
    requires NBSP !in s && Dehyphen(s) == t
    requires ' ' !in t && '\t' !in t && '\r' !in t && NoNewlineRun3(t)
    requires IsStripped(t)
    ensures NormText(s) == t
  {
    ReplaceNbspIdentity(s);
    CollapseBlanksIdentity(t);
    CrlfToLfIdentity(t);
    CapNewlinesIdentity(t);
    StripOfStripped(t);
  }

  /** NormText on a text whose only change is made by the line-end pass. */
  lemma NormTextOnlyConvertsCrlf(s: string, t: string)
    requires NBSP !in s && '-' !in s && ' ' !in s && '\t' !in s
    requires CrlfToLf(s) == t && NoNewlineRun3(t)
    requires IsStripped(t)
    ensures NormText(s) == t
  {
    ReplaceNbspIdentity(s);
    DehyphenIdentity(s);
    CollapseBlanksIdentity(s);
    CapNewlinesIdentity(t);
    StripOfStripped(t);
  }

  /**
    The cleaner is not idempotent: the rejoining matches do not overlap, so a
    second pass can rejoin a break the first pass skipped.
  */
  lemma NormTextNotIdempotent(s: string, t: string)
    requires s == "a-\nb-\nc" && t == "ab-\nc"
    ensures NormText(s) == t
    ensures NormText(t) == "abc"
  {
    FirstPassSkipsBreak(s, t);
    SecondPassRejoins(t);
  }

  lemma FirstPassSkipsBreak(s: string, t: string)
    requires s == "a-\nb-\nc" && t == "ab-\nc"
    ensures NormText(s) == t
  {
    assert HyphenBreakAt(s);
    assert s[4..] == "-\nc";
    assert Dehyphen(s) == t;
    assert NoNewlineRun3(t);
    assert t[0] == 'a' && t[|t| - 1] == 'c';
    NormTextOnlyRejoins(s, t);
  }

  lemma SecondPassRejoins(t: string)
    requires t == "ab-\nc"
    ensures NormText(t) == "abc"
  {
    var w1 := "ab";
    var w2 := "c";
    assert AllWordChars(w1) && AllWordChars(w2);
    assert w1 + "-\n" + w2 == t;
    NormTextJoinsHyphenatedWord(w1, w2);
    assert w1 + w2 == "abc";
  }

  /** A carriage return in front of a "\r\n" survives the line-end pass. */
  lemma NormTextCanKeepCrlf(s: string, t: string)
    requires s == "a\r\r\nb" && t == "a\r\nb"
    ensures NormText(s) == t
  {
    var u := s[2..];
    assert u == "\r\nb" && CrlfAt(u);
    assert u[2..] == "b";
    assert CrlfToLf(u) == "\nb";
    var v := s[1..];
    assert v == "\r\r\nb" && !CrlfAt(v) && v[1..] == u;
    assert CrlfToLf(v) == "\r\nb";
    assert !CrlfAt(s) && s[1..] == v;
    assert CrlfToLf(s) == t;
    assert NoNewlineRun3(t);
    NormTextOnlyConvertsCrlf(s, t);
  }
}
