/**
  The page-noise filter (_remove_page_noise): every line is stripped, the
  lines that are nothing but a page marker or a short number are dropped, and
  the survivors are joined with line feeds and stripped once more.

  Lines are split on '\n' only; str.splitlines() also breaks on the other
  Unicode line boundaries, which this model leaves out.
*/
module PageNoise {
  import opened Text

  /** The regex \d{1,4} matching the whole string. */
  predicate ShortNumber(s: string)
  {
    1 <= |s| <= 4 && IsDigits(s)
  }

  function SkipIna(t: string): string
  {
    if |t| >= 3 && t[..3] == "ina" then t[3..] else t
  }

  function SkipDot(t: string): string
  {
    if |t| >= 1 && t[0] == '.' then t[1..] else t
  }

  /**
    The regex (pag(ina)?\.?\s*)?\d{1,4} matching the whole string, as a
    scanner: after "pag" the optional parts can each be taken greedily, since
    the character that follows an untaken part could never start it.
  */
  predicate IsPageMarker(t: string)
  {
    ShortNumber(t)
    || (|t| >= 3 && t[..3] == "pag" && ShortNumber(StripLeft(SkipDot(SkipIna(t[3..])))))
  }

  // ---------------------------------------------------------------- the regex, read literally

  function MarkerHead(ina: bool, dot: bool): string
  {
    "pag" + (if ina then "ina" else "") + (if dot then "." else "")
  }

  /** t is MarkerHead(ina, dot), then n whitespace characters, then 1 to 4 digits. */
  predicate MarkerSplit(t: string, ina: bool, dot: bool, n: nat)
  {
    var h := MarkerHead(ina, dot);
    |h| + n <= |t| && t[..|h|] == h && AllSpace(t[|h|..|h| + n]) && ShortNumber(t[|h| + n..])
  }

  /** Some way of reading t against the regex succeeds. */
  ghost predicate MatchesMarkerPattern(t: string)
  {
    ShortNumber(t) || exists ina: bool, dot: bool, n: nat :: MarkerSplit(t, ina, dot, n)
  }

  lemma StripStartIs(u: string, n: nat)
    requires n <= |u| && AllSpace(u[..n]) && (n < |u| ==> !IsSpace(u[n]))
    ensures StripStart(u) == n
  {
  }

  /** What the scanner reads after "pag": the optional "ina" and "." taken greedily. */
  lemma GreedyHead(t: string)
    requires |t| >= 3 && t[..3] == "pag"
    ensures var r := t[3..];
            var ina := |r| >= 3 && r[..3] == "ina";
            var dot := |SkipIna(r)| >= 1 && SkipIna(r)[0] == '.';
            t == MarkerHead(ina, dot) + SkipDot(SkipIna(r))
  {
    var r := t[3..];
    var a := SkipIna(r);
    assert t == "pag" + r;
    if |r| >= 3 && r[..3] == "ina" {
      assert r == "ina" + a;
    }
    if |a| >= 1 && a[0] == '.' {
      assert a == "." + SkipDot(a);
    }
  }

  /** A head followed by whitespace or a digit is consumed by the scanner exactly. */
  lemma HeadSkip(t: string, ina: bool, dot: bool, rest: string)
    requires t == MarkerHead(ina, dot) + rest
    requires |rest| > 0 && (IsSpace(rest[0]) || IsDigit(rest[0]))
    ensures |t| >= 3 && t[..3] == "pag" && SkipDot(SkipIna(t[3..])) == rest
  {
    var mid := (if dot then "." else "") + rest;
    var tail := (if ina then "ina" else "") + mid;
    assert t == "pag" + tail;
    assert t[3..] == tail;
    SkipDotOf(dot, rest);
    SkipInaOf(ina, mid);
  }

  lemma SkipInaOf(ina: bool, mid: string)
    requires |mid| > 0 && mid[0] != 'i'
    ensures SkipIna((if ina then "ina" else "") + mid) == mid
  {
    var tail := (if ina then "ina" else "") + mid;
    if ina {
      assert tail[..3] == "ina";
      assert tail[3..] == mid;
    } else {
      assert tail[0] != 'i';
    }
  }

  lemma SkipDotOf(dot: bool, rest: string)
    requires |rest| > 0 && rest[0] != '.'
    ensures SkipDot((if dot then "." else "") + rest) == rest
  {
    if dot {
      assert ("." + rest)[1..] == rest;
    }
  }

  lemma HeadThenNumber(t: string, ina: bool, dot: bool, b: string)
    requires t == MarkerHead(ina, dot) + b && ShortNumber(StripLeft(b))
    ensures MarkerSplit(t, ina, dot, StripStart(b))
  {
    var n := StripStart(b);
    var h := MarkerHead(ina, dot);
    assert t[..|h|] == h;
    assert t[|h|..|h| + n] == b[..n];
    assert t[|h| + n..] == b[n..];
  }

  lemma PageMarkerIsPattern(t: string)
    requires IsPageMarker(t)
    ensures MatchesMarkerPattern(t)
  {
    if !ShortNumber(t) {
      GreedyHead(t);
      var r := t[3..];
      var ina := |r| >= 3 && r[..3] == "ina";
      var dot := |SkipIna(r)| >= 1 && SkipIna(r)[0] == '.';
      var b := SkipDot(SkipIna(r));
      HeadThenNumber(t, ina, dot, b);
    }
  }

  lemma PatternIsPageMarker(t: string, ina: bool, dot: bool, n: nat)
    requires MarkerSplit(t, ina, dot, n)
    ensures IsPageMarker(t)
  {
    var rest := t[|MarkerHead(ina, dot)|..];
    SplitRest(t, ina, dot, n);
    HeadSkip(t, ina, dot, rest);
    StripStartIs(rest, n);
  }

  /** What follows the head in a split: n whitespace characters, then the number. */
  lemma SplitRest(t: string, ina: bool, dot: bool, n: nat)
    requires MarkerSplit(t, ina, dot, n)
    ensures var h := MarkerHead(ina, dot);
            var rest := t[|h|..];
            t == h + rest && n < |rest| && AllSpace(rest[..n]) && ShortNumber(rest[n..])
            && (IsSpace(rest[0]) || IsDigit(rest[0]))
  {
    var h := MarkerHead(ina, dot);
    var rest := t[|h|..];
    assert t == h + rest;
    assert rest[..n] == t[|h|..|h| + n];
    assert rest[n..] == t[|h| + n..];
    assert IsDigit(rest[n]);
    if n > 0 {
      assert rest[0] == rest[..n][0];
    }
  }

  /** The scanner accepts exactly the strings the regex fully matches. */
  lemma PageMarkerMatchesPattern(t: string)
    ensures IsPageMarker(t) <==> MatchesMarkerPattern(t)
  {
    if IsPageMarker(t) {
      PageMarkerIsPattern(t);
    }
    if MatchesMarkerPattern(t) && !ShortNumber(t) {
      var ina: bool, dot: bool, n: nat :| MarkerSplit(t, ina, dot, n);
      PatternIsPageMarker(t, ina, dot, n);
    }
  }

  // ---------------------------------------------------------------- one line

  /** A line the filter drops: its lower-cased form is a page marker, or it is a short number. */
  predicate IsNoiseLine(ln: string)
  {
    IsPageMarker(Lower(ln)) || ShortNumber(ln)
  }

  /** The second test of the filter never fires on its own: digits are unchanged by lower(). */
  lemma ShortNumberIsMarker(ln: string)
    requires ShortNumber(ln)
    ensures IsPageMarker(Lower(ln))
  {
    assert Lower(ln) == ln;
  }

  // ---------------------------------------------------------------- all lines

  /** A sequence of lines the filter leaves exactly as they are. */
  predicate CleanLines(lines: seq<string>, drop: string -> bool)
  {
    forall i :: 0 <= i < |lines| ==> IsStripped(lines[i]) && '\n' !in lines[i] && !drop(lines[i])
  }

  /** Strip every line, remove the rejected ones, join with line feeds, strip the result. */
  function FilterLines(s: string, drop: string -> bool): string
  {
    Strip(Join(KeepLines(StripEach(Lines(s)), drop), "\n"))
  }

  /**
    _remove_page_noise: no output line is unstripped, holds a line feed, or
    is a page marker or short number.
  */
  function RemovePageNoise(s: string): (r: string)
    ensures CleanLines(Lines(r), IsNoiseLine)
  {
    EmptyLineIsNotNoise();
    FilterLinesOutputIsClean(s, IsNoiseLine);
    FilterLines(s, IsNoiseLine)
  }

  // ---------------------------------------------------------------- strip of a join of stripped lines

  function TrimLeading(lines: seq<string>): (r: seq<string>)
    ensures |r| <= |lines| && r == lines[|lines| - |r|..]
    ensures r == [] || r[0] != ""
    decreases |lines|
  {
    if |lines| > 0 && lines[0] == "" then TrimLeading(lines[1..]) else lines
  }

  function TrimTrailing(lines: seq<string>): (r: seq<string>)
    ensures |r| <= |lines| && r == lines[..|r|]
    ensures r == [] || r[|r| - 1] != ""
    decreases |lines|
  {
    if |lines| > 0 && lines[|lines| - 1] == "" then TrimTrailing(lines[..|lines| - 1]) else lines
  }

  predicate StrippedLines(lines: seq<string>)
  {
    forall i :: 0 <= i < |lines| ==> IsStripped(lines[i]) && '\n' !in lines[i]
  }

  lemma {:induction false} StripLeftJoin(lines: seq<string>)
    requires StrippedLines(lines)
    ensures StripLeft(Join(lines, "\n")) == Join(TrimLeading(lines), "\n")
    decreases |lines|
  {
    if |lines| > 0 {
      if lines[0] == "" {
        if |lines| == 1 {
        } else {
          JoinCons(lines[0], lines[1..], "\n");
          assert [lines[0]] + lines[1..] == lines;
          assert Join(lines, "\n") == "\n" + Join(lines[1..], "\n");
          StripLeftNewline(Join(lines[1..], "\n"));
          StripLeftJoin(lines[1..]);
        }
      } else {
        var j := Join(lines, "\n");
        assert j[0] == lines[0][0];
        assert !IsSpace(j[0]);
      }
    }
  }

  lemma {:induction false} StripRightJoin(lines: seq<string>)
    requires StrippedLines(lines)
    ensures StripRight(Join(lines, "\n")) == Join(TrimTrailing(lines), "\n")
    decreases |lines|
  {
    var n := |lines|;
    if n > 0 {
      var init := lines[..n - 1];
      assert lines == init + [lines[n - 1]];
      if lines[n - 1] == "" {
        if n == 1 {
        } else {
          JoinSnoc(init, lines[n - 1], "\n");
          assert Join(lines, "\n") == Join(init, "\n") + "\n";
          StripRightNewline(Join(init, "\n"));
          StripRightJoin(init);
        }
      } else {
        var j := Join(lines, "\n");
        var last := lines[n - 1];
        if n == 1 {
          assert j == last;
        } else {
          JoinSnoc(init, last, "\n");
        }
        assert j[|j| - 1] == last[|last| - 1];
        assert TrailingSpaces(j) == 0;
      }
    }
  }

  lemma StripJoin(lines: seq<string>)
    requires StrippedLines(lines)
    ensures Strip(Join(lines, "\n")) == Join(TrimTrailing(TrimLeading(lines)), "\n")
  {
    StripLeftJoin(lines);
    TrimLeadingStripped(lines);
    StripRightJoin(TrimLeading(lines));
  }

  lemma TrimLeadingStripped(lines: seq<string>)
    requires StrippedLines(lines)
    ensures StrippedLines(TrimLeading(lines))
  {
    var t := TrimLeading(lines);
    assert forall i :: 0 <= i < |t| ==> t[i] == lines[|lines| - |t| + i];
  }

  // ---------------------------------------------------------------- properties

  /** The stripped lines the filter keeps hold no line feed and are not rejected. */
  lemma KeptLinesClean(lines: seq<string>, drop: string -> bool)
    requires forall k :: 0 <= k < |lines| ==> '\n' !in lines[k]
    ensures CleanLines(KeepLines(StripEach(lines), drop), drop)
  {
    var stripped := StripEach(lines);
    var kept := KeepLines(stripped, drop);
    forall i | 0 <= i < |kept| ensures IsStripped(kept[i]) && '\n' !in kept[i] && !drop(kept[i]) {
      KeepLinesExactly(stripped, drop, kept[i]);
      var j :| 0 <= j < |stripped| && stripped[j] == kept[i];
      StripKeepsChars(lines[j]);
    }
  }

  /** Dropping empty lines from either end keeps a clean sequence clean. */
  lemma CleanLinesSlice(lines: seq<string>, drop: string -> bool, x: nat, y: nat)
    requires CleanLines(lines, drop) && x <= y <= |lines|
    ensures CleanLines(lines[x..y], drop)
  {
    forall i | 0 <= i < y - x ensures lines[x..y][i] == lines[x + i] {
    }
  }

  lemma TrimKeepsClean(lines: seq<string>, drop: string -> bool)
    requires CleanLines(lines, drop)
    ensures CleanLines(TrimTrailing(TrimLeading(lines)), drop)
  {
    var lead := TrimLeading(lines);
    var t := TrimTrailing(lead);
    CleanLinesSlice(lines, drop, |lines| - |lead|, |lines|);
    CleanLinesSlice(lead, drop, 0, |t|);
  }


  /**
    The lines of the filter's output: the stripped lines it keeps, in input
    order, less the empty ones at either end (a single "" when none is left).
  */
  lemma FilterLinesLines(s: string, drop: string -> bool)
    ensures var t := TrimTrailing(TrimLeading(KeepLines(StripEach(Lines(s)), drop)));
            FilterLines(s, drop) == Join(t, "\n")
            && Lines(FilterLines(s, drop)) == if t == [] then [""] else t
  {
    var kept := KeepLines(StripEach(Lines(s)), drop);
    KeptLinesClean(Lines(s), drop);
    StripJoin(kept);
    TrimKeepsClean(kept, drop);
    var t := TrimTrailing(TrimLeading(kept));
    if |t| == 0 {
      assert Lines("") == [""];
    } else {
      LinesOfJoin(t);
    }
  }

  /** Trimming at the front removes nothing but empty lines. */
  lemma {:induction false} TrimLeadingKeeps(lines: seq<string>, x: string)
    requires x in lines && x != ""
    ensures x in TrimLeading(lines)
    decreases |lines|
  {
    if lines[0] == "" {
      var i :| 0 <= i < |lines| && lines[i] == x;
      assert lines[1..][i - 1] == x;
      TrimLeadingKeeps(lines[1..], x);
    }
  }

  /** Trimming at the back removes nothing but empty lines. */
  lemma {:induction false} TrimTrailingKeeps(lines: seq<string>, x: string)
    requires x in lines && x != ""
    ensures x in TrimTrailing(lines)
    decreases |lines|
  {
    var n := |lines|;
    if lines[n - 1] == "" {
      var i :| 0 <= i < n && lines[i] == x;
      assert lines[..n - 1][i] == x;
      TrimTrailingKeeps(lines[..n - 1], x);
    }
  }

  /** Trimming both ends keeps exactly the non-empty lines. */
  lemma TrimKeepsExactly(lines: seq<string>, x: string)
    requires x != ""
    ensures x in TrimTrailing(TrimLeading(lines)) <==> x in lines
  {
    var lead := TrimLeading(lines);
    var t := TrimTrailing(lead);
    if x in lines {
      TrimLeadingKeeps(lines, x);
      TrimTrailingKeeps(lead, x);
    }
    if x in t {
      TrimmedFrom(lines, x);
    }
  }

  /** Every line left after trimming was a line before. */
  lemma TrimmedFrom(lines: seq<string>, x: string)
    requires x in TrimTrailing(TrimLeading(lines))
    ensures x in lines
  {
    var lead := TrimLeading(lines);
    var t := TrimTrailing(lead);
    var i :| 0 <= i < |t| && t[i] == x;
    assert t[i] == lead[i];
    assert lead[i] == lines[|lines| - |lead| + i];
  }

  /**
    A non-empty line is in the filter's output exactly when it is the stripped
    form of an input line that the filter does not reject.
  */
  lemma FilterLinesKeepsExactly(s: string, drop: string -> bool, x: string)
    requires x != ""
    ensures x in Lines(FilterLines(s, drop)) <==> x in StripEach(Lines(s)) && !drop(x)
  {
    var kept := KeepLines(StripEach(Lines(s)), drop);
    FilterLinesLines(s, drop);
    KeepLinesExactly(StripEach(Lines(s)), drop, x);
    TrimKeepsExactly(kept, x);
  }

  /** Every line of the filter's output is stripped and is not rejected. */
  lemma FilterLinesOutputIsClean(s: string, drop: string -> bool)
    requires !drop("")
    ensures CleanLines(Lines(FilterLines(s, drop)), drop)
  {
    var kept := KeepLines(StripEach(Lines(s)), drop);
    KeptLinesClean(Lines(s), drop);
    TrimKeepsClean(kept, drop);
    FilterLinesLines(s, drop);
  }

  lemma FilterLinesIdempotent(s: string, drop: string -> bool)
    requires !drop("")
    ensures FilterLines(FilterLines(s, drop), drop) == FilterLines(s, drop)
  {
    var out := FilterLines(s, drop);
    FilterLinesOutputIsClean(s, drop);
    StripEachOfStripped(Lines(out));
    KeepAllLines(Lines(out), drop);
    StripIdempotent(Join(KeepLines(StripEach(Lines(s)), drop), "\n"));
  }

  lemma EmptyLineIsNotNoise()
    ensures !IsNoiseLine("")
  {
    assert Lower("") == "";
  }

  /** Running the filter on its own output changes nothing. */
  lemma RemovePageNoiseIdempotent(s: string)
    ensures RemovePageNoise(RemovePageNoise(s)) == RemovePageNoise(s)
  {
    EmptyLineIsNotNoise();
    FilterLinesIdempotent(s, IsNoiseLine);
  }

  /**
    A non-empty line is in the cleaned page exactly when it is the stripped
    form of a page line that is neither a page marker nor a short number.
  */
  lemma RemovePageNoiseKeepsExactly(s: string, x: string)
    requires x != ""
    ensures x in Lines(RemovePageNoise(s)) <==> x in StripEach(Lines(s)) && !IsNoiseLine(x)
  {
    FilterLinesKeepsExactly(s, IsNoiseLine, x);
  }

  /** A single stripped line is dropped when rejected and kept as it is otherwise. */
  lemma FilterSingleLine(s: string, drop: string -> bool)
    requires '\n' !in s && IsStripped(s)
    ensures FilterLines(s, drop) == if drop(s) then "" else s
  {
    assert IndexOf(s, '\n') == |s|;
    assert Lines(s) == [s];
    StripOfStripped(s);
    assert StripEach([s]) == [s];
    StripOfStripped("");
  }

  lemma MarkerExample(a: string)
    requires a == "Pag. 7"
    ensures IsNoiseLine(a)
  {
    var la := Lower(a);
    assert la == "pag. 7";
    var r := la[3..];
    assert r == ". 7";
    assert r[0] == '.';
    assert SkipIna(r) == r;
    assert SkipDot(r) == " 7";
    StripStartIs(" 7", 1);
    assert StripLeft(" 7") == "7";
  }

  lemma NotMarkerExample(c: string)
    requires c == "Page 7"
    ensures !IsNoiseLine(c)
  {
    var lc := Lower(c);
    assert lc == "page 7";
    var r := lc[3..];
    assert r == "e 7";
    assert r[0] == 'e';
    assert SkipDot(SkipIna(r)) == r;
    assert StripStart(r) == 0;
    assert StripLeft(r) == r;
    assert !IsDigit(r[0]);
  }

  /**
    A page that holds only a page marker or a bare number ends up empty, while
    a line such as "Page 7" is not a marker the regex knows and is kept.
  */
  /** A page marker line is removed. */
  lemma MarkerLineRemoved(a: string)
    requires a == "Pag. 7"
    ensures RemovePageNoise(a) == ""
  {
    MarkerExample(a);
    assert a[0] == 'P' && a[|a| - 1] == '7';
    FilterSingleLine(a, IsNoiseLine);
  }

  /** A bare page number is removed. */
  lemma NumberLineRemoved(b: string)
    requires b == "42"
    ensures RemovePageNoise(b) == ""
  {
    assert ShortNumber(b);
    assert b[0] == '4' && b[|b| - 1] == '2';
    FilterSingleLine(b, IsNoiseLine);
  }

  /** A line that only resembles a marker is kept. */
  lemma TextLineKept(c: string)
    requires c == "Page 7"
    ensures RemovePageNoise(c) == c
  {
    NotMarkerExample(c);
    assert c[0] == 'P' && c[|c| - 1] == '7';
    FilterSingleLine(c, IsNoiseLine);
  }
}
