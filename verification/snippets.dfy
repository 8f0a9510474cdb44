/**
  _prefilter_local_snippets: the query's tokens, every fragment of every
  readable page file scored against them, the top_k best kept by the bounded
  heap, sorted by descending score and joined with "\n\n---\n\n".

  A file is given as its text, or None when reading it raised (it is then
  skipped). The result is None when the call raises: range() with a zero
  window step, reached for a file with fewer than four paragraphs.
*/
module Snippets {
  import opened Wrappers
  import opened Text
  import opened Tokenize
  import opened Fragments
  import opened TopK
  import opened Decimal
  import Slug
  import Ingest

  const Separator := "\n\n---\n\n"
  const DefaultTopK := 40
  const DefaultWindow := 6

  /** The fragments that share a token with the query, each with its score, in order. */
  function Scored(q: set<string>, frags: seq<string>): (r: seq<Entry>)
    ensures AllScored(q, r)
    decreases |frags|
  {
    if |frags| == 0 then []
    else
      var s := Score(q, frags[0]);
      var head := if s > 0 then [Entry(s, frags[0])] else [];
      AllScoredConcat(q, head, Scored(q, frags[1..]));
      head + Scored(q, frags[1..])
  }

  lemma {:induction false} ScoredExactly(q: set<string>, frags: seq<string>, e: Entry)
    ensures e in Scored(q, frags) <==> e.fragment in frags && e.score == Score(q, e.fragment) && e.score > 0
    decreases |frags|
  {
    if |frags| > 0 {
      ScoredExactly(q, frags[1..], e);
      InCons(frags, e.fragment);
    }
  }

  lemma InCons<T>(s: seq<T>, x: T)
    requires |s| > 0
    ensures x in s <==> x == s[0] || x in s[1..]
  {
    assert s == [s[0]] + s[1..];
  }

  /** A readable file whose fragmenting raises. */
  predicate Raises(file: Option<string>, window: int)
  {
    file.Some? && FileFragments(file.value, window).None?
  }

  /** The entries one file contributes: its scoring fragments, none when it cannot be read or raises. */
  function FileEntries(q: set<string>, file: Option<string>, window: int): seq<Entry>
  {
    match file
    case None => []
    case Some(raw) =>
      match FileFragments(raw, window)
      case None => []
      case Some(fs) => Scored(q, fs)
  }

  /** e is a scoring fragment, with its score, of a readable file that does not raise. */
  predicate ScoresIn(q: set<string>, file: Option<string>, window: int, e: Entry)
  {
    file.Some? && FileFragments(file.value, window).Some?
    && e.fragment in FileFragments(file.value, window).value
    && e.score == Score(q, e.fragment) && e.score > 0
  }

  /** Every entry scores at least 1, with its fragment's overlap. */
  predicate AllScored(q: set<string>, es: seq<Entry>)
  {
    forall k :: 0 <= k < |es| ==> es[k].score >= 1 && es[k].score == Score(q, es[k].fragment)
  }

  /** Every pushed entry, file by file; None when some file's fragmenting raises. */
  function Candidates(q: set<string>, files: seq<Option<string>>, window: int): (r: Option<seq<Entry>>)
    ensures r.None? <==> exists i :: 0 <= i < |files| && Raises(files[i], window)
    ensures r.Some? ==> AllScored(q, r.value)
    decreases |files|
  {
    if |files| == 0 then Some([])
    else
      var rest := Candidates(q, files[1..], window);
      RaisesCons(files, window);
      if Raises(files[0], window) || rest.None? then None
      else
        AllScoredConcat(q, FileEntries(q, files[0], window), rest.value);
        Some(FileEntries(q, files[0], window) + rest.value)
  }

  lemma RaisesCons(files: seq<Option<string>>, window: int)
    requires |files| > 0
    ensures (exists i :: 0 <= i < |files| && Raises(files[i], window))
            <==> Raises(files[0], window) || exists i :: 0 <= i < |files[1..]| && Raises(files[1..][i], window)
  {
    assert forall i :: 1 <= i < |files| ==> files[i] == files[1..][i - 1];
  }

  lemma AllScoredConcat(q: set<string>, xs: seq<Entry>, ys: seq<Entry>)
    requires AllScored(q, xs) && AllScored(q, ys)
    ensures AllScored(q, xs + ys)
  {
    forall k | 0 <= k < |xs + ys| ensures (xs + ys)[k].score >= 1 && (xs + ys)[k].score == Score(q, (xs + ys)[k].fragment) {
      if k >= |xs| {
        assert (xs + ys)[k] == ys[k - |xs|];
      }
    }
  }

  /** An entry is a candidate exactly when it is a scoring fragment of a readable file. */
  lemma {:induction false} CandidatesExactly(q: set<string>, files: seq<Option<string>>, window: int, e: Entry)
    requires Candidates(q, files, window).Some?
    ensures e in Candidates(q, files, window).value <==>
              exists i :: 0 <= i < |files| && ScoresIn(q, files[i], window, e)
    decreases |files|
  {
    if |files| > 0 {
      CandidatesCons(q, files, window);
      CandidatesExactly(q, files[1..], window, e);
      FileEntriesExactly(q, files[0], window, e);
      ScoresInCons(q, files, window, e);
    }
  }

  lemma CandidatesCons(q: set<string>, files: seq<Option<string>>, window: int)
    requires |files| > 0 && Candidates(q, files, window).Some?
    ensures Candidates(q, files[1..], window).Some?
    ensures Candidates(q, files, window).value
            == FileEntries(q, files[0], window) + Candidates(q, files[1..], window).value
  {
  }

  lemma FileEntriesExactly(q: set<string>, file: Option<string>, window: int, e: Entry)
    ensures e in FileEntries(q, file, window) <==> ScoresIn(q, file, window, e)
  {
    if file.Some? && FileFragments(file.value, window).Some? {
      ScoredExactly(q, FileFragments(file.value, window).value, e);
    }
  }

  lemma ScoresInCons(q: set<string>, files: seq<Option<string>>, window: int, e: Entry)
    requires |files| > 0
    ensures (exists i :: 0 <= i < |files| && ScoresIn(q, files[i], window, e))
            <==> ScoresIn(q, files[0], window, e)
                 || exists i :: 0 <= i < |files[1..]| && ScoresIn(q, files[1..][i], window, e)
  {
    if exists i :: 0 <= i < |files| && ScoresIn(q, files[i], window, e) {
      var i :| 0 <= i < |files| && ScoresIn(q, files[i], window, e);
      if i > 0 {
        assert files[1..][i - 1] == files[i];
      }
    }
    if exists i :: 0 <= i < |files[1..]| && ScoresIn(q, files[1..][i], window, e) {
      var i :| 0 <= i < |files[1..]| && ScoresIn(q, files[1..][i], window, e);
      assert files[i + 1] == files[1..][i];
    }
  }

  /**
    What the returned entries are: min(top_k, |cands|) of the candidates, in
    non-increasing score order, each candidate left out at most (in tuple
    order) each one returned, and all candidates when there are at most top_k.
  */
  predicate TopKOf(cands: seq<Entry>, sel: seq<Entry>, topK: int)
  {
    |sel| == Bound(|cands|, topK)
    && multiset(sel) <= multiset(cands)
    && NonIncreasing(sel)
    && (forall x, y :: x in multiset(cands) - multiset(sel) && y in sel ==> EntryLe(x, y))
    && (|cands| <= topK ==> multiset(sel) == multiset(cands))
  }

  /** Sorting a pool that keeps the top of the candidates keeps the top of them. */
  lemma SortedPoolIsTopK(cands: seq<Entry>, topK: int, pool: seq<Entry>, sel: seq<Entry>)
    requires KeepsTop(cands, pool, topK)
    requires multiset(sel) == multiset(pool) && NonIncreasing(sel)
    ensures TopKOf(cands, sel, topK)
  {
    assert |sel| == |pool| by {
      assert |multiset(sel)| == |multiset(pool)|;
    }
    forall x, y | x in multiset(cands) - multiset(sel) && y in sel ensures EntryLe(x, y) {
      assert y in multiset(pool);
    }
    if |cands| <= topK {
      SubMultisetSameSize(multiset(pool), multiset(cands));
    }
  }

  /** The heap after every push, sorted by descending score. */
  function Selection(cands: seq<Entry>, topK: int): (sel: seq<Entry>)
    ensures TopKOf(cands, sel, topK)
  {
    var pool := Pool(cands, topK);
    var sel := SortDesc(pool);
    SortedPoolIsTopK(cands, topK, pool, sel);
    sel
  }

  function Texts(es: seq<Entry>): (r: seq<string>)
    ensures |r| == |es| && forall k :: 0 <= k < |es| ==> r[k] == es[k].fragment
  {
    seq(|es|, k requires 0 <= k < |es| => es[k].fragment)
  }

  function Prefilter(files: seq<Option<string>>, query: string, topK: int, window: int): (r: Option<string>)
    ensures Tokens(query) == {} ==> r == Some("")
    ensures r.None? <==> Tokens(query) != {} && exists i :: 0 <= i < |files| && Raises(files[i], window)
  {
    var q := Tokens(query);
    if q == {} then Some("")
    else
      match Candidates(q, files, window)
      case None => None
      case Some(cands) => Some(Join(Texts(Selection(cands, topK)), Separator))
  }

  // ---------------------------------------------------------------- properties

  /** A scoring fragment is not empty. */
  lemma ScoringFragmentNonEmpty(q: set<string>, f: string)
    requires Score(q, f) > 0
    ensures |f| > 0
  {
    ScorePositive(q, f);
    TokensOfEmpty(f);
  }

  /** Joining non-empty fragments gives "" exactly when there are none. */
  lemma JoinTextsEmpty(sel: seq<Entry>)
    requires forall k :: 0 <= k < |sel| ==> |sel[k].fragment| > 0
    ensures Join(Texts(sel), Separator) == "" <==> |sel| == 0
  {
    if |sel| > 0 {
      JoinNonEmpty(Texts(sel), Separator);
    }
  }

  /**
    The entries an answer is made of: the top of the candidates, each a
    non-empty fragment carrying its overlap score with the query.
  */
  predicate TopKAnswer(q: set<string>, cands: seq<Entry>, sel: seq<Entry>, topK: int)
  {
    TopKOf(cands, sel, topK)
    && forall k :: 0 <= k < |sel| ==>
         sel[k] in cands && sel[k].score >= 1 && sel[k].score == Score(q, sel[k].fragment)
         && |sel[k].fragment| > 0
  }

  /** Entries drawn from scored candidates are scored, non-empty candidates. */
  lemma DrawnFromScored(q: set<string>, cands: seq<Entry>, sel: seq<Entry>, topK: int)
    requires forall k :: 0 <= k < |cands| ==> cands[k].score >= 1 && cands[k].score == Score(q, cands[k].fragment)
    requires TopKOf(cands, sel, topK)
    ensures TopKAnswer(q, cands, sel, topK)
  {
    forall k | 0 <= k < |sel|
      ensures sel[k] in cands && sel[k].score >= 1 && sel[k].score == Score(q, sel[k].fragment)
              && |sel[k].fragment| > 0
    {
      assert sel[k] in multiset(sel);
      assert sel[k] in multiset(cands);
      ScoringFragmentNonEmpty(q, sel[k].fragment);
    }
  }

  /**
    With query tokens and no raising file, the answer is the "\n\n---\n\n"-join
    of min(top_k, |candidates|) scoring candidates in non-increasing score
    order, none of them below a candidate left out.
  */
  lemma PrefilterAnswer(files: seq<Option<string>>, query: string, topK: int, window: int)
    requires Tokens(query) != {}
    requires Candidates(Tokens(query), files, window).Some?
    ensures var q := Tokens(query);
            var cands := Candidates(q, files, window).value;
            exists sel :: TopKAnswer(q, cands, sel, topK)
                          && Prefilter(files, query, topK, window) == Some(Join(Texts(sel), Separator))
  {
    var q := Tokens(query);
    var cands := Candidates(q, files, window).value;
    var sel := Selection(cands, topK);
    DrawnFromScored(q, cands, sel, topK);
  }

  /** With query tokens, the answer is empty exactly when the heap ends up empty. */
  lemma PrefilterEmptyIffNothingKept(files: seq<Option<string>>, query: string, topK: int, window: int)
    requires Tokens(query) != {}
    requires Candidates(Tokens(query), files, window).Some?
    ensures var cands := Candidates(Tokens(query), files, window).value;
            Prefilter(files, query, topK, window) == Some("") <==> Bound(|cands|, topK) == 0
  {
    var q := Tokens(query);
    var cands := Candidates(q, files, window).value;
    PrefilterAnswer(files, query, topK, window);
    var sel :| TopKAnswer(q, cands, sel, topK)
               && Prefilter(files, query, topK, window) == Some(Join(Texts(sel), Separator));
    JoinTextsEmpty(sel);
  }

  /**
    The shipped call, with top_k = 40 and window = 6, never raises: it
    returns at most 40 fragments, and "" only for a query without tokens or
    when no fragment shares a token with it.
  */
  lemma ShippedCallAnswers(files: seq<Option<string>>, query: string)
    ensures Prefilter(files, query, DefaultTopK, DefaultWindow).Some?
    ensures Tokens(query) != {} ==>
              var cands := Candidates(Tokens(query), files, DefaultWindow).value;
              (Prefilter(files, query, DefaultTopK, DefaultWindow) == Some("") <==> |cands| == 0)
              && exists sel :: TopKAnswer(Tokens(query), cands, sel, DefaultTopK) && |sel| <= 40
                               && Prefilter(files, query, DefaultTopK, DefaultWindow) == Some(Join(Texts(sel), Separator))
  {
    if Tokens(query) != {} {
      var q := Tokens(query);
      var cands := Candidates(q, files, DefaultWindow).value;
      PrefilterEmptyIffNothingKept(files, query, DefaultTopK, DefaultWindow);
      PrefilterAnswer(files, query, DefaultTopK, DefaultWindow);
    }
  }

  // ---------------------------------------------------------------- the page header is scored too

  /** A maximal run of the lower-cased text is one of its tokens. */
  lemma RunIsToken(text: string, i: nat, j: nat)
    requires IsTokenAt(Lower(text), i, j)
    ensures Lower(text)[i..j] in Tokens(text)
  {
  }

  /** A word between two characters outside the token class is, lower-cased, a token. */
  lemma DelimitedWordIsToken(c: string, i: nat, w: string, lw: string)
    requires 0 < i && |w| > 0 && i + |w| < |c| && c[i..i + |w|] == w
    requires Lower(w) == lw && forall k :: 0 <= k < |lw| ==> IsTokenChar(lw[k])
    requires !IsTokenChar(LowerChar(c[i - 1])) && !IsTokenChar(LowerChar(c[i + |w|]))
    ensures lw in Tokens(c)
  {
    var low := Lower(c);
    var j := i + |w|;
    forall k | 0 <= k < |w| ensures low[i + k] == lw[k] {
      assert c[i + k] == w[k];
    }
    assert low[i..j] == lw;
    assert IsTokenAt(low, i, j) by {
      forall k | i <= k < j ensures IsTokenChar(low[k]) {
        assert low[k] == lw[k - i];
      }
    }
    RunIsToken(c, i, j);
  }

  lemma LowerWord(w: string, lw: string)
    requires (w == "SOURCE" && lw == "source") || (w == "PAGE" && lw == "page")
    ensures Lower(w) == lw && forall k :: 0 <= k < |lw| ==> IsTokenChar(lw[k])
  {
  }

  lemma HeaderHasSource(base: string, n: nat, rest: string)
    ensures "source" in Tokens(Ingest.HeaderLine(base, n) + rest)
  {
    var c := Ingest.HeaderLine(base, n) + rest;
    var tail := base + "] [PAGE:" + NatToString(n) + "]" + rest;
    assert c == "[SOURCE:" + tail;
    assert c[1..7] == "SOURCE" && c[0] == '[' && c[7] == ':';
    LowerWord("SOURCE", "source");
    DelimitedWordIsToken(c, 1, "SOURCE", "source");
  }

  lemma HeaderHasPage(base: string, n: nat, rest: string)
    ensures "page" in Tokens(Ingest.HeaderLine(base, n) + rest)
  {
    var c := Ingest.HeaderLine(base, n) + rest;
    var b := |base|;
    var head := "[SOURCE:" + base + "] ";
    var tail := NatToString(n) + "]" + rest;
    assert c == head + "[PAGE:" + tail;
    assert |head| == b + 10;
    assert c[b + 11..b + 15] == "PAGE" && c[b + 10] == '[' && c[b + 15] == ':';
    LowerWord("PAGE", "page");
    DelimitedWordIsToken(c, b + 11, "PAGE", "page");
  }

  lemma HeaderHasNumber(base: string, n: nat, rest: string)
    ensures NatToString(n) in Tokens(Ingest.HeaderLine(base, n) + rest)
  {
    var c := Ingest.HeaderLine(base, n) + rest;
    var low := Lower(c);
    var b := |base|;
    var d := NatToString(n);
    var e := b + 16 + |d|;
    assert c[b + 15] == ':' && c[e] == ']';
    assert low[b + 15] == ':' && low[e] == ']';
    forall k | b + 16 <= k < e ensures low[k] == d[k - b - 16] && IsTokenChar(low[k]) {
      assert c[k] == d[k - b - 16];
      assert IsDigit(c[k]);
    }
    assert low[b + 16..e] == d;
    RunIsToken(c, b + 16, e);
  }

  /** Every ingested page file holds the tokens "source", "page" and its page number. */
  lemma HeaderTokens(base: string, n: nat, txt: string)
    ensures var c := Ingest.Header(base, n) + txt;
            "source" in Tokens(c) && "page" in Tokens(c) && NatToString(n) in Tokens(c)
  {
    assert Ingest.Header(base, n) + txt == Ingest.HeaderLine(base, n) + ("\n" + txt);
    HeaderHasSource(base, n, "\n" + txt);
    HeaderHasPage(base, n, "\n" + txt);
    HeaderHasNumber(base, n, "\n" + txt);
  }

  /**
    Unless the file raises for a zero step, its first fragment scores at
    least 1 for the query and is pushed with that score.
  */
  predicate PushesFirstFragment(query: set<string>, c: string, window: int)
  {
    var frags := FileFragments(c, window);
    frags.Some? ==>
      |frags.value| > 0 && Score(query, frags.value[0]) >= 1
      && Entry(Score(query, frags.value[0]), frags.value[0]) in FileEntries(query, Some(c), window)
  }

  /** The first paragraph of a file that opens with a header scores for a query holding "page" or "source". */
  lemma {:induction false} HeaderParagraphScores(base: string, n: nat, txt: string, query: set<string>)
    requires Slug.IsSlugText(base)
    requires "page" in query || "source" in query
    ensures var c := Ingest.Header(base, n) + txt;
            |Paragraphs(c)| > 0 && Score(query, Paragraphs(c)[0]) >= 1
  {
    var c := Ingest.Header(base, n) + txt;
    var hl := Ingest.HeaderLine(base, n);
    assert c == hl + ("\n" + txt);
    Ingest.HeaderLineShape(base, n);
    FirstParagraphOpensWith(hl, "\n" + txt);
    var p := Paragraphs(c)[0];
    assert p == hl + p[|hl|..];
    HeaderHasSource(base, n, p[|hl|..]);
    HeaderHasPage(base, n, p[|hl|..]);
    ScorePositive(query, p);
  }

  /** A scoring first paragraph is the first fragment and is pushed, unless the file raises. */
  lemma {:induction false} FirstParagraphPushed(query: set<string>, c: string, window: int)
    requires |Paragraphs(c)| > 0 && Score(query, Paragraphs(c)[0]) >= 1
    ensures var frags := FileFragments(c, window);
            frags.Some? ==>
              |frags.value| > 0 && frags.value[0] == Paragraphs(c)[0]
              && Entry(Score(query, frags.value[0]), frags.value[0]) in FileEntries(query, Some(c), window)
  {
    var p := Paragraphs(c)[0];
    var frags := FileFragments(c, window);
    if frags.Some? {
      assert frags.value[0] == p;
      FileEntriesExactly(query, Some(c), window, Entry(Score(query, p), p));
    }
  }

  /**
    A query holding "page" or "source" takes a fragment from a file that opens
    with a header: the first paragraph opens with the header line, scores at
    least 1 and is pushed (unless the file raises for a zero step).
  */
  lemma {:induction false} HeaderFileGivesEntry(base: string, n: nat, txt: string,
                                                query: set<string>, window: int)
    requires Slug.IsSlugText(base)
    requires "page" in query || "source" in query
    ensures PushesFirstFragment(query, Ingest.Header(base, n) + txt, window)
  {
    HeaderParagraphScores(base, n, txt, query);
    FirstParagraphPushed(query, Ingest.Header(base, n) + txt, window);
  }

  /** So every page file of an ingested PDF puts a fragment into the pool for such a query. */
  lemma {:induction false} EveryPageFileMatchesPage(cfg: Ingest.Config, doc: Ingest.Document, i: nat,
                                                    query: set<string>, window: int)
    requires i < |Ingest.IngestDocument(cfg, doc)|
    requires "page" in query || "source" in query
    ensures PushesFirstFragment(query, Ingest.IngestDocument(cfg, doc)[i].content, window)
  {
    var base := Slug.Slugify(doc.stem);
    Ingest.PageOpensWithHeader(cfg, doc, i);
    var txt := Ingest.IngestDocument(cfg, doc)[i].content[|Ingest.Header(base, i + 1)|..];
    HeaderFileGivesEntry(base, i + 1, txt, query, window);
  }
}
