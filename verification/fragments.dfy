/**
  How a page file is cut into scoring fragments: the blank-line paragraphs
  re.split(r"\n\s*\n+", raw) gives, stripped and without the empty ones, and,
  when there are fewer than four of them, the non-empty stripped lines grouped
  into windows of `window` lines appended after the paragraphs.
*/
module Fragments {
  import opened Wrappers
  import opened Text

  // ---------------------------------------------------------------- the separator

  /** A string the pattern \n\s*\n+ matches as a whole: whitespace that opens and closes with a line feed. */
  predicate IsSeparator(t: string)
  {
    |t| >= 2 && t[0] == '\n' && t[|t| - 1] == '\n' && AllSpace(t)
  }

  /** Every one of seps is a match of the pattern. */
  predicate AllSeparators(seps: seq<string>)
  {
    forall k :: 0 <= k < |seps| ==> IsSeparator(seps[k])
  }

  /**
    Scans the whitespace run after the opening line feed, remembering the end
    of the last line feed seen; that is where the greedy \s* backs off to.
  */
  function LastNewlineEnd(s: string, i: nat, best: nat): (r: nat)
    requires 1 <= i <= |s| && s[0] == '\n' && AllSpace(s[..i])
    requires best == 0 || (2 <= best <= i && s[best - 1] == '\n')
    requires forall k :: 1 <= k < i && k >= best ==> s[k] != '\n'
    ensures r == 0 || (2 <= r <= |s| && s[r - 1] == '\n' && AllSpace(s[..r]))
    ensures forall k :: r < k <= |s| ==> !IsSeparator(s[..k])
    decreases |s| - i
  {
    if i < |s| && IsSpace(s[i]) then
      assert AllSpace(s[..i + 1]) by {
        assert forall k :: 0 <= k < i ==> s[..i + 1][k] == s[..i][k];
      }
      LastNewlineEnd(s, i + 1, if s[i] == '\n' then i + 1 else best)
    else
      NoSeparatorPastStop(s, i);
      NoSeparatorPastLastNewline(s, i, best);
      if best > 0 then
        assert AllSpace(s[..best]) by {
          assert forall k :: 0 <= k < best ==> s[..best][k] == s[..i][k];
        }
        best
      else best
  }

  /** No separator reaches past a character that is not whitespace. */
  lemma NoSeparatorPastStop(s: string, i: nat)
    requires i < |s| ==> !IsSpace(s[i])
    ensures forall k :: i < k <= |s| ==> !IsSeparator(s[..k])
  {
    forall k | i < k <= |s| ensures !IsSeparator(s[..k]) {
      assert s[..k][i] == s[i];
    }
  }

  /** No separator ends between the last line feed and the scan position. */
  lemma NoSeparatorPastLastNewline(s: string, i: nat, best: nat)
    requires i <= |s| && best <= i
    requires forall k :: 1 <= k < i && k >= best ==> s[k] != '\n'
    ensures forall k :: best < k <= i ==> !IsSeparator(s[..k])
  {
    forall k | best < k <= i ensures !IsSeparator(s[..k]) {
      if k >= 2 {
        assert s[..k][k - 1] == s[k - 1];
      }
    }
  }

  /** No prefix of s longer than r is a separator. */
  predicate NoSeparatorPast(s: string, r: nat)
  {
    forall k :: r < k <= |s| ==> !IsSeparator(s[..k])
  }

  /**
    Length of the match of \n\s*\n+ at the start of s, 0 when there is none:
    the longest prefix that is a separator.
  */
  function SeparatorLength(s: string): (r: nat)
    ensures r <= |s|
    ensures r == 0 || IsSeparator(s[..r])
    ensures NoSeparatorPast(s, r)
  {
    if |s| == 0 || s[0] != '\n' then
      assert forall k :: 0 < k <= |s| ==> !IsSeparator(s[..k]) by {
        forall k | 0 < k <= |s| ensures !IsSeparator(s[..k]) {
          assert s[..k][0] == s[0];
        }
      }
      0
    else
      LastNewlineEnd(s, 1, 0)
  }

  // ---------------------------------------------------------------- re.split

  /**
    re.split: the current piece starts at start and the scan is at i; every
    match found closes a piece and is kept as a separator.
  */
  function SplitScan(s: string, start: nat, i: nat): (r: (seq<string>, seq<string>))
    requires start <= i <= |s|
    ensures |r.0| == |r.1| + 1
    ensures AllSeparators(r.1)
    decreases |s| - i
  {
    if i == |s| then ([s[start..]], [])
    else
      var n := SeparatorLength(s[i..]);
      if n == 0 then SplitScan(s, start, i + 1)
      else
        assert s[i..i + n] == s[i..][..n];
        var rest := SplitScan(s, i + n, i + n);
        ([s[start..i]] + rest.0, [s[i..i + n]] + rest.1)
  }

  /** The pieces of re.split(r"\n\s*\n+", s). */
  function SplitParagraphs(s: string): seq<string>
  {
    SplitScan(s, 0, 0).0
  }

  /** Pieces with the separators between them: p0 + s0 + p1 + s1 + ... + pn. */
  function Interleave(pieces: seq<string>, seps: seq<string>): string
    requires |pieces| == |seps| + 1
    decreases |seps|
  {
    if |seps| == 0 then pieces[0] else pieces[0] + seps[0] + Interleave(pieces[1..], seps[1..])
  }

  /** The pieces and the separators between them give back the text. */
  lemma {:induction false} SplitScanRebuilds(s: string, start: nat, i: nat)
    requires start <= i <= |s|
    ensures Interleave(SplitScan(s, start, i).0, SplitScan(s, start, i).1) == s[start..]
    decreases |s| - i
  {
    if i == |s| {
      assert SplitScan(s, start, i) == ([s[start..]], []);
    } else {
      var n := SeparatorLength(s[i..]);
      if n == 0 {
        SplitScanRebuilds(s, start, i + 1);
        SplitScanNoMatch(s, start, i);
      } else {
        var rest := SplitScan(s, i + n, i + n);
        SplitScanRebuilds(s, i + n, i + n);
        SplitScanAtMatch(s, start, i);
        RebuildAtMatch(s, start, i, n, rest.0, rest.1);
      }
    }
  }

  /** Where no match starts the scan moves on within the current piece. */
  lemma SplitScanNoMatch(s: string, start: nat, i: nat)
    requires start <= i < |s| && SeparatorLength(s[i..]) == 0
    ensures SplitScan(s, start, i) == SplitScan(s, start, i + 1)
  {
  }

  /** At a match the scan closes the current piece and restarts after the match. */
  lemma SplitScanAtMatch(s: string, start: nat, i: nat)
    requires start <= i < |s| && SeparatorLength(s[i..]) > 0
    ensures var n := SeparatorLength(s[i..]);
            var rest := SplitScan(s, i + n, i + n);
            SplitScan(s, start, i) == ([s[start..i]] + rest.0, [s[i..i + n]] + rest.1)
  {
  }

  /** A piece and the match closing it, put in front of the rebuilt rest, rebuild from the piece's start. */
  lemma RebuildAtMatch(s: string, start: nat, i: nat, n: nat, ps: seq<string>, qs: seq<string>)
    requires start <= i <= i + n <= |s| && |ps| == |qs| + 1
    requires Interleave(ps, qs) == s[i + n..]
    ensures Interleave([s[start..i]] + ps, [s[i..i + n]] + qs) == s[start..]
  {
    InterleaveCons(s[start..i], s[i..i + n], ps, qs);
    SliceThree(s, start, i, i + n);
  }

  lemma InterleaveCons(p: string, q: string, ps: seq<string>, qs: seq<string>)
    requires |ps| == |qs| + 1
    ensures Interleave([p] + ps, [q] + qs) == p + q + Interleave(ps, qs)
  {
    assert ([p] + ps)[1..] == ps && ([q] + qs)[1..] == qs;
  }

  lemma SliceThree(s: string, a: nat, b: nat, c: nat)
    requires a <= b <= c <= |s|
    ensures s[a..] == s[a..b] + s[b..c] + s[c..]
  {
  }

  /** No part of p is a separator: p holds no blank line. */
  predicate NoSeparatorIn(p: string)
  {
    forall a, b :: 0 <= a < b <= |p| ==> !IsSeparator(p[a..b])
  }

  /** A stretch of the text at no position of which a separator starts holds none. */
  lemma StretchHasNoSeparator(s: string, start: nat, e: nat)
    requires start <= e <= |s|
    requires forall k :: start <= k < e ==> SeparatorLength(s[k..]) == 0
    ensures NoSeparatorIn(s[start..e])
  {
    var p := s[start..e];
    forall a, b | 0 <= a < b <= |p| ensures !IsSeparator(p[a..b]) {
      var t := s[start + a..];
      assert SeparatorLength(t) == 0;
      assert b - a <= |t|;
      assert p[a..b] == t[..b - a] by {
        assert forall m :: 0 <= m < b - a ==> p[a..b][m] == s[start + a + m] == t[..b - a][m];
      }
    }
  }

  predicate AllFree(ps: seq<string>)
  {
    forall k :: 0 <= k < |ps| ==> NoSeparatorIn(ps[k])
  }

  lemma {:induction false} SplitScanPiecesFree(s: string, start: nat, i: nat)
    requires start <= i <= |s|
    requires forall k :: start <= k < i ==> SeparatorLength(s[k..]) == 0
    ensures AllFree(SplitScan(s, start, i).0)
    decreases |s| - i
  {
    if i == |s| {
      StretchHasNoSeparator(s, start, i);
      assert s[start..i] == s[start..];
      assert SplitScan(s, start, i).0 == [s[start..]];
    } else {
      var n := SeparatorLength(s[i..]);
      if n == 0 {
        SplitScanPiecesFree(s, start, i + 1);
      } else {
        StretchHasNoSeparator(s, start, i);
        var rest := SplitScan(s, i + n, i + n).0;
        SplitScanPiecesFree(s, i + n, i + n);
        assert SplitScan(s, start, i).0 == [s[start..i]] + rest;
        AllFreeCons(s[start..i], rest);
      }
    }
  }

  lemma AllFreeCons(p: string, ps: seq<string>)
    requires NoSeparatorIn(p) && AllFree(ps)
    ensures AllFree([p] + ps)
  {
    assert forall k :: 1 <= k < |ps| + 1 ==> ([p] + ps)[k] == ps[k - 1];
  }

  /** re.split cuts at every separator: no piece holds a blank line. */
  lemma SplitParagraphsFree(s: string)
    ensures forall k :: 0 <= k < |SplitParagraphs(s)| ==> NoSeparatorIn(SplitParagraphs(s)[k])
  {
    SplitScanPiecesFree(s, 0, 0);
  }

  lemma SplitParagraphsRebuild(s: string)
    ensures var r := SplitScan(s, 0, 0);
            Interleave(r.0, r.1) == s && AllSeparators(r.1)
  {
    SplitScanRebuilds(s, 0, 0);
  }

  /** While no line feed is met, the piece being scanned keeps growing: it reaches at least m. */
  lemma {:induction false} ScanPieceReaches(s: string, start: nat, i: nat, m: nat)
    requires start <= i <= |s| && start <= m <= |s|
    requires forall k :: i <= k < m ==> s[k] != '\n'
    ensures var p := SplitScan(s, start, i).0[0];
            m - start <= |p| && p[..m - start] == s[start..m]
    decreases |s| - i
  {
    if i < |s| {
      var n := SeparatorLength(s[i..]);
      if n == 0 {
        ScanPieceReaches(s, start, i + 1, m);
      } else {
        assert s[i..][..n][0] == s[i];
      }
    }
  }

  // ---------------------------------------------------------------- paragraphs

  predicate IsEmptyText(s: string)
  {
    s == ""
  }

  /**
    [p.strip() for p in re.split(...) if p.strip()]: every paragraph is
    non-empty, stripped and free of blank lines.
  */
  function Paragraphs(raw: string): (r: seq<string>)
    ensures forall k :: 0 <= k < |r| ==> r[k] != "" && IsStripped(r[k]) && NoSeparatorIn(r[k])
  {
    var pieces := SplitParagraphs(raw);
    SplitParagraphsFree(raw);
    StrippedPiecesClean(pieces);
    KeepLines(StripEach(pieces), IsEmptyText)
  }

  /**
    A text opening with a line that neither starts nor ends with whitespace
    has a first paragraph, and that paragraph opens with the line.
  */
  lemma FirstParagraphOpensWith(head: string, rest: string)
    requires |head| > 0 && '\n' !in head
    requires !IsSpace(head[0]) && !IsSpace(head[|head| - 1])
    ensures var paras := Paragraphs(head + rest);
            |paras| > 0 && |head| <= |paras[0]| && paras[0][..|head|] == head
  {
    var s := head + rest;
    forall k | 0 <= k < |head| ensures s[k] != '\n' {
      assert s[k] == head[k];
    }
    ScanPieceReaches(s, 0, 0, |head|);
    var pieces := SplitParagraphs(s);
    var p := pieces[0];
    assert p[..|head|] == head;
    var q := Strip(p);
    assert StripStart(p) == 0 by {
      assert p[0] == head[0];
    }
    assert |head| <= |q| by {
      assert p[|head| - 1] == head[|head| - 1];
    }
    assert q[..|head|] == head;
    var stripped := StripEach(pieces);
    assert stripped[0] == q && !IsEmptyText(q);
    assert KeepLines(stripped, IsEmptyText)[0] == q;
  }

  /** A part of a text without blank lines has none either. */
  lemma NoSeparatorInSlice(p: string, x: nat, y: nat)
    requires NoSeparatorIn(p) && x <= y <= |p|
    ensures NoSeparatorIn(p[x..y])
  {
    var q := p[x..y];
    forall a, b | 0 <= a < b <= |q| ensures !IsSeparator(q[a..b]) {
      assert q[a..b] == p[x + a..x + b] by {
        assert forall m :: 0 <= m < b - a ==> q[a..b][m] == p[x + a + m] == p[x + a..x + b][m];
      }
    }
  }

  lemma StripHasNoSeparator(p: string)
    requires NoSeparatorIn(p)
    ensures NoSeparatorIn(Strip(p))
  {
    var st := StripStart(p);
    NoSeparatorInSlice(p, st, st + |Strip(p)|);
  }

  /** The non-empty stripped pieces of pieces without blank lines are clean. */
  lemma StrippedPiecesClean(pieces: seq<string>)
    requires forall k :: 0 <= k < |pieces| ==> NoSeparatorIn(pieces[k])
    ensures forall k :: 0 <= k < |KeepLines(StripEach(pieces), IsEmptyText)| ==>
              var p := KeepLines(StripEach(pieces), IsEmptyText)[k];
              p != "" && IsStripped(p) && NoSeparatorIn(p)
  {
    var stripped := StripEach(pieces);
    var paras := KeepLines(stripped, IsEmptyText);
    forall k | 0 <= k < |paras|
      ensures paras[k] != "" && IsStripped(paras[k]) && NoSeparatorIn(paras[k])
    {
      KeepLinesExactly(stripped, IsEmptyText, paras[k]);
      var j :| 0 <= j < |stripped| && stripped[j] == paras[k];
      StripHasNoSeparator(pieces[j]);
    }
  }

  /** Where a character of the rebuilt text lies: in a piece or in a separator. */
  lemma {:induction false} InInterleave(pieces: seq<string>, seps: seq<string>, c: char)
    requires |pieces| == |seps| + 1 && c in Interleave(pieces, seps)
    ensures (exists k :: 0 <= k < |pieces| && c in pieces[k]) || (exists k :: 0 <= k < |seps| && c in seps[k])
    decreases |seps|
  {
    if |seps| > 0 {
      var rest := Interleave(pieces[1..], seps[1..]);
      assert Interleave(pieces, seps) == pieces[0] + seps[0] + rest;
      if c !in pieces[0] && c !in seps[0] {
        assert c in rest;
        InInterleave(pieces[1..], seps[1..], c);
        if exists k :: 0 <= k < |pieces| - 1 && c in pieces[1..][k] {
          var k :| 0 <= k < |pieces| - 1 && c in pieces[1..][k];
          assert c in pieces[k + 1];
        } else {
          var k :| 0 <= k < |seps| - 1 && c in seps[1..][k];
          assert c in seps[k + 1];
        }
      }
    }
  }

  /** A text with a non-whitespace character has at least one paragraph. */
  lemma ParagraphsOfNonBlankText(raw: string, c: char)
    requires c in raw && !IsSpace(c)
    ensures |Paragraphs(raw)| > 0
  {
    var r := SplitScan(raw, 0, 0);
    SplitParagraphsRebuild(raw);
    InInterleave(r.0, r.1, c);
    var k :| 0 <= k < |r.0| && c in r.0[k];
    var p := r.0[k];
    var t := Strip(p);
    assert t != "" by {
      var i :| 0 <= i < |p| && p[i] == c;
    }
    var stripped := StripEach(r.0);
    assert stripped[k] == t;
    KeepLinesExactly(stripped, IsEmptyText, t);
  }

  // ---------------------------------------------------------------- line windows

  /** [ln.strip() for ln in raw.splitlines() if ln.strip()]. */
  function NonEmptyLines(raw: string): seq<string>
  {
    KeepLines(StripEach(Lines(raw)), IsEmptyText)
  }

  /** Adding w to the dividend adds one to the quotient. */
  lemma DivPlusOne(x: nat, w: nat)
    requires w > 0
    ensures (x + w) / w == x / w + 1
  {
    var q := x / w;
    var q' := (x + w) / w;
    var d := q' - q - 1;
    assert w * q' + (x + w) % w == x + w;
    assert w * q + x % w == x;
    assert w * d == x % w - (x + w) % w;
  }

  /** lines[i:i + w] for i in range(0, len(lines), w). */
  function Chunks(lines: seq<string>, w: nat): (r: seq<seq<string>>)
    requires w > 0
    ensures |r| <= |lines|
    decreases |lines|
  {
    if |lines| == 0 then []
    else if |lines| <= w then [lines]
    else [lines[..w]] + Chunks(lines[w..], w)
  }

  /** There are ceil(L / w) chunks. */
  lemma {:induction false} ChunksCount(lines: seq<string>, w: nat)
    requires w > 0
    ensures |Chunks(lines, w)| == (|lines| + w - 1) / w
    decreases |lines|
  {
    if |lines| == 0 {
    } else if |lines| <= w {
      CeilOne(|lines|, w);
    } else {
      var rest := lines[w..];
      ChunksCount(rest, w);
      CeilStep(|lines|, w);
    }
  }

  lemma CeilOne(n: nat, w: nat)
    requires 0 < n <= w
    ensures (n + w - 1) / w == 1
  {
    DivPlusOne(n - 1, w);
  }

  lemma CeilStep(n: nat, w: nat)
    requires 0 < w < n
    ensures (n + w - 1) / w == ((n - w) + w - 1) / w + 1
  {
    DivPlusOne(n - 1, w);
    assert (n - w) + w - 1 == n - 1;
  }

  /** The chunks hold w lines each but the last, which holds 1 to w, and they concatenate to the lines. */
  lemma {:induction false} ChunksCover(lines: seq<string>, w: nat)
    requires w > 0
    ensures var r := Chunks(lines, w);
            Flatten(r) == lines
            && (forall k :: 0 <= k < |r| ==> 1 <= |r[k]| <= w)
            && (forall k :: 0 <= k < |r| - 1 ==> |r[k]| == w)
    decreases |lines|
  {
    var r := Chunks(lines, w);
    if |lines| == 0 {
    } else if |lines| <= w {
      assert r == [lines];
      assert Flatten(r) == lines + Flatten([]);
    } else {
      var rest := Chunks(lines[w..], w);
      ChunksCover(lines[w..], w);
      assert r == [lines[..w]] + rest;
      assert r[1..] == rest;
      assert lines == lines[..w] + lines[w..];
    }
  }

  lemma {:induction false} ChunksKeepLines(lines: seq<string>, w: nat, k: nat, x: string)
    requires w > 0 && k < |Chunks(lines, w)| && x in Chunks(lines, w)[k]
    ensures x in lines
    decreases |lines|
  {
    if |lines| > w {
      var rest := Chunks(lines[w..], w);
      assert Chunks(lines, w) == [lines[..w]] + rest;
      if k > 0 {
        ChunksKeepLines(lines[w..], w, k - 1, x);
      }
    }
  }

  /** The windows of range(0, len(lines), window); a zero step makes range() raise ValueError. */
  function Windows(lines: seq<string>, window: int): (r: Option<seq<string>>)
    ensures r.None? <==> window == 0
    ensures window < 0 ==> r == Some([])
    ensures window > 0 ==> r.Some? && |r.value| == (|lines| + window - 1) / window
  {
    if window == 0 then None
    else if window < 0 then Some([])
    else
      var c := Chunks(lines, window);
      ChunksCount(lines, window);
      Some(seq(|c|, k requires 0 <= k < |c| => Join(c[k], "\n")))
  }

  /** Each window splits back into the lines it was made of. */
  lemma WindowLines(lines: seq<string>, window: int, k: nat)
    requires window > 0 && k < |Windows(lines, window).value|
    requires forall i :: 0 <= i < |lines| ==> '\n' !in lines[i]
    ensures Lines(Windows(lines, window).value[k]) == Chunks(lines, window)[k]
  {
    var c := Chunks(lines, window)[k];
    forall i | 0 <= i < |c| ensures '\n' !in c[i] {
      ChunksKeepLines(lines, window, k, c[i]);
    }
    ChunksCover(lines, window);
    LinesOfJoin(c);
  }

  // ---------------------------------------------------------------- fragments

  /**
    The fragments of one file: its paragraphs, followed by its line windows
    when it has fewer than four paragraphs; None when that needs range()
    with a zero step.
  */
  function FileFragments(raw: string, window: int): (r: Option<seq<string>>)
    ensures r.None? <==> window == 0 && |Paragraphs(raw)| < 4
    ensures r.Some? ==> |Paragraphs(raw)| <= |r.value| && r.value[..|Paragraphs(raw)|] == Paragraphs(raw)
    ensures r.Some? && (|Paragraphs(raw)| >= 4 || window < 0) ==> r.value == Paragraphs(raw)
    ensures r.Some? && |Paragraphs(raw)| < 4 && window > 0 ==>
              r.value[|Paragraphs(raw)|..] == Windows(NonEmptyLines(raw), window).value
  {
    var paras := Paragraphs(raw);
    if |paras| >= 4 then Some(paras)
    else
      match Windows(NonEmptyLines(raw), window)
      case None => None
      case Some(ws) =>
        assert (paras + ws)[..|paras|] == paras;
        assert (paras + ws)[|paras|..] == ws;
        Some(paras + ws)
  }

  /**
    With fewer than four paragraphs, the windows are ceil(L / window) groups
    of at most window lines that concatenate to the L non-empty stripped lines.
  */
  lemma WindowsCoverLines(raw: string, window: int)
    requires window > 0 && |Paragraphs(raw)| < 4
    ensures var c := Chunks(NonEmptyLines(raw), window);
            var ws := FileFragments(raw, window).value[|Paragraphs(raw)|..];
            |ws| == |c| == (|NonEmptyLines(raw)| + window - 1) / window
            && Flatten(c) == NonEmptyLines(raw)
            && (forall k :: 0 <= k < |c| ==> 1 <= |c[k]| <= window && Lines(ws[k]) == c[k])
  {
    var lines := NonEmptyLines(raw);
    var c := Chunks(lines, window);
    var ws := FileFragments(raw, window).value[|Paragraphs(raw)|..];
    assert ws == Windows(lines, window).value;
    NonEmptyLinesOneLine(raw);
    ChunksCount(lines, window);
    ChunksCover(lines, window);
    forall k | 0 <= k < |c| ensures Lines(ws[k]) == c[k] {
      WindowLines(lines, window, k);
    }
  }

  /** No kept line holds a line feed. */
  lemma NonEmptyLinesOneLine(raw: string)
    ensures forall i :: 0 <= i < |NonEmptyLines(raw)| ==> '\n' !in NonEmptyLines(raw)[i]
  {
    var lines := NonEmptyLines(raw);
    var stripped := StripEach(Lines(raw));
    forall i | 0 <= i < |lines| ensures '\n' !in lines[i] {
      KeepLinesExactly(stripped, IsEmptyText, lines[i]);
      var j :| 0 <= j < |stripped| && stripped[j] == lines[i];
      StripKeepsChars(Lines(raw)[j]);
    }
  }

}
