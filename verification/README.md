# Page ingest and local snippet retrieval, in Dafny

This project models the two text-processing cores of a Django shop assistant that answers questions from
PDF catalogues.

**Ingest.** `assistant/ingest.py` turns each PDF into one text file per page. Covered here:

- `slugify`, which derives the document identifier from the file stem;
- `_norm_text`, taken after its NFKC step: NBSP to space, rejoining of hyphenated line ends, collapsing
  of blanks, CRLF to LF, capping of blank-line runs, strip;
- `_remove_page_noise`, which drops page-marker and bare-number lines;
- the loop body of `main`: how many pages a document yields, which text a page gets (cleaned extraction
  or OCR text), and the name and content of each page file.

**Retrieval.** `assistant/views.py` picks the local fragments handed to the language model
(`_prefilter_local_snippets`). Covered here:

- the query tokeniser (maximal runs of `[a-z0-9ăâîșţț-]`);
- cutting a page file into paragraphs, plus line windows when there are fewer than four paragraphs;
- the overlap score;
- the bounded min-heap of `(score, fragment)` pairs;
- the final descending sort and the `"\n\n---\n\n"` join.

Everything is pure functions on `seq<char>` and sequences. The foreign libraries are inputs, not code:

- the page strings pdfminer extracted (`None` when it raised);
- the images pdf2image rendered (empty when that failed);
- for each image, the string Tesseract read from it.

A page file handed to the retrieval is its text, or `None` when reading it raised. Modules follow the
program's structure:

| module | file | models |
|---|---|---|
| `Wrappers` | wrappers.dfy | `Option` |
| `Text` | text.dfy | `str.isspace`, `\d`, `\w`, `str.lower`, `str.strip`, `splitlines`, `str.join` |
| `Slug` | slug.dfy | `slugify` |
| `Normalize` | normalize.dfy | `_norm_text` after NFKC |
| `PageNoise` | pagenoise.dfy | `_remove_page_noise` |
| `Decimal` | decimal.dfy | `str(n)` and `f"{n:03d}"` for naturals |
| `Ingest` | ingest.dfy | the per-document loop of `main` |
| `Tokenize` | tokenize.dfy | the tokeniser and the overlap score |
| `Fragments` | fragments.dfy | paragraphs and line windows |
| `TopK` | topk.dfy | the bounded heap and the final sort |
| `Snippets` | snippets.dfy | `_prefilter_local_snippets` |

Three behaviours of the code are modelled as written, because they differ from what one might expect:

- **`_norm_text` is not idempotent.** Its hyphen-rejoining substitution scans without overlap, so
  `"a-\nb-\nc"` cleans to `"ab-\nc"`, and a second pass gives `"abc"`.
- **Its output can still hold `"\r\n"`.** The input `"a\r\r\nb"` keeps one.
- **`_remove_page_noise` keeps `"Page 7"`.** The comment next to the regex names that line as an
  example, but the regex only accepts `pag`, `pagina` and bare numbers, so the line is kept.

## Model

| member | source | states |
|---|---|---|
| Slug.ReplaceForeign | assistant/ingest.py:38 | the result of `re.sub(r"[^a-zA-Z0-9._-]+", "_", s)` holds only slug characters, is no longer than the input, and equals the input when the input already holds only slug characters |
| Slug.ReplaceForeignAppend | assistant/ingest.py:38 | after a prefix that is empty or ends in a slug character, the substitution works on the two parts independently |
| Slug.ForeignRunBecomesUnderscore | assistant/ingest.py:38 | a whole run of characters outside the class, followed by nothing or a slug character, becomes one `_` |
| Slug.ReplaceForeignSplit | assistant/ingest.py:38 | for a maximal run f of characters outside the class between a and b, `re.sub` maps `a + f + b` to `sub(a) + "_" + sub(b)` |
| Slug.StripUnderscores | assistant/ingest.py:39 | `strip("_")`: the result neither starts nor ends with `_`, and it is the slice of the input left after removing the leading run and a trailing run of `_` |
| Slug.Slugify | assistant/ingest.py:36-39 | a slug holds only ASCII letters, digits, `.`, `_` and `-`, neither starts nor ends with `_`, and is never longer than the stem |
| Slug.SlugifyFixedPoints | assistant/ingest.py:36-39 | a string is left unchanged by slugify exactly when it is already a slug |
| Slug.SlugifyIdempotent | assistant/ingest.py:36-39 | applying slugify twice equals applying it once |
| Slug.SlugsCanCollide | assistant/ingest.py:38-39 | two different stems (`"a b"`, `"a_b"`) can share one slug, hence one set of page-file names |
| Text.Strip | assistant/ingest.py:52 | `str.strip()`: the result has no whitespace at either end, and it is the slice of the input between the leading and the trailing whitespace runs |
| Text.StripIdempotent | assistant/ingest.py:52 | stripping twice equals stripping once |
| Text.StripOfStripped | assistant/ingest.py:52 | a string without whitespace at its ends is unchanged by strip |
| Text.Lines | assistant/ingest.py:60 | splitting on line feeds gives at least one line, no line holds a line feed, and joining the lines with `"\n"` gives back the text |
| Text.LinesOfJoin | assistant/ingest.py:60-69 | splitting a `"\n"`-join of line-feed-free lines gives back exactly those lines |
| Text.KeepLinesExactly | assistant/ingest.py:62-68 | a line is kept exactly when it is in the input and is not rejected |
| Text.KeepLinesAppend | assistant/ingest.py:62-68 | filtering a concatenation filters each part in order, so kept lines keep their order |
| Text.Lower | assistant/ingest.py:64 | `str.lower()`, character by character: an ASCII capital becomes the matching small letter, a character that is not a capital is unchanged, and no capital is left |
| Text.LowerIdempotent | assistant/ingest.py:64 | lower-casing twice equals lower-casing once |
| Normalize.ReplaceNbsp | assistant/ingest.py:45 | the result has the input's length, holds no NBSP, and differs from the input only where it held an NBSP, which became a space |
| Normalize.Dehyphen | assistant/ingest.py:46-47 | the rejoining pass keeps the first character and introduces no character that was not in the input |
| Normalize.CollapseBlanks | assistant/ingest.py:49 | after collapsing, every character is a space or a non-blank input character, no two spaces are adjacent, and a leading blank run becomes one space |
| Normalize.CrlfToLf | assistant/ingest.py:50 | the line-end pass turns a leading `"\r\n"` into a line feed, keeps any other first character, and introduces no new character |
| Normalize.CapNewlines | assistant/ingest.py:51 | after capping, no three line feeds are adjacent, the first character is kept, and no new character appears |
| Normalize.NormText | assistant/ingest.py:42-52 | the cleaned text holds no NBSP, no tab, no two adjacent spaces, no run of three line feeds, and no whitespace at either end |
| Normalize.DehyphenKeepsText | assistant/ingest.py:47 | the rejoining pass only deletes: with `-` and line feeds removed from both, output and input are the same text |
| Normalize.CollapseBlanksKeepsText | assistant/ingest.py:49 | collapsing only touches blanks: with spaces and tabs removed from both, output and input are the same text |
| Normalize.CrlfToLfKeepsText | assistant/ingest.py:50 | the line-end pass only drops carriage returns: with them removed from both, output and input are the same text |
| Normalize.CapNewlinesKeepsText | assistant/ingest.py:51 | capping only drops line feeds: with them removed from both, output and input are the same text |
| Normalize.CrlfToLfRemovesCrlf | assistant/ingest.py:50 | the line-end pass leaves no `"\r\n"` when the input has no two adjacent carriage returns |
| Normalize.NormTextRemovesCrlf | assistant/ingest.py:45-52 | the cleaned text holds no `"\r\n"` when the raw text has no two adjacent carriage returns |
| Normalize.NormTextCanKeepCrlf | assistant/ingest.py:50 | `"a\r\r\nb"` cleans to `"a\r\nb"`: the non-overlapping scan leaves a CRLF behind |
| Normalize.CrlfToLfKeepsPair | assistant/ingest.py:50 | an adjacent pair missing from the input stays missing after the line-end pass, when its second character is not a line feed |
| Normalize.CapNewlinesKeepsPair | assistant/ingest.py:51 | an adjacent pair missing from the input, other than two line feeds, stays missing after capping |
| Normalize.StripKeepsPair | assistant/ingest.py:52 | an adjacent pair missing from the input stays missing after stripping |
| Normalize.ReplaceNbspKeepsPair | assistant/ingest.py:45 | an adjacent pair of non-space characters missing from the input stays missing after the NBSP pass |
| Normalize.DehyphenKeepsPair | assistant/ingest.py:47 | an adjacent pair missing from the input stays missing after rejoining, when its first character is not a word character |
| Normalize.CollapseBlanksKeepsPair | assistant/ingest.py:49 | an adjacent pair of non-blank characters missing from the input stays missing after collapsing |
| Normalize.ReplaceNbspIdentity | assistant/ingest.py:45 | a text without NBSP is left unchanged by the first pass |
| Normalize.DehyphenIdentity | assistant/ingest.py:47 | a text without `-` is left unchanged by the rejoining pass |
| Normalize.CollapseBlanksIdentity | assistant/ingest.py:49 | a text without spaces and tabs is left unchanged by the collapsing pass |
| Normalize.CrlfToLfIdentity | assistant/ingest.py:50 | a text with no `"\r\n"` is left unchanged by the line-end pass, lone carriage returns included |
| Normalize.CrlfToLfSplit | assistant/ingest.py:50 | for all a and b, `a + "\r\n" + b` converts to the conversion of a, one line feed, and the conversion of b; with CrlfToLfIdentity this fixes the pass's output on every input |
| Normalize.CollapseBlanksAppend | assistant/ingest.py:49 | when the first part is empty or ends in a non-blank, the two parts of a text are collapsed independently |
| Normalize.CollapseBlanksSplit | assistant/ingest.py:49 | a maximal run of spaces and tabs between a and b becomes exactly one space, with a and b collapsed on their own; with CollapseBlanksIdentity this fixes the pass's output on every input |
| Normalize.CapNewlinesIdentity | assistant/ingest.py:51 | a text without a run of three line feeds is left unchanged by the capping pass |
| Normalize.DehyphenJoinsWord | assistant/ingest.py:46-47 | two runs of word characters around `"-\n"` are joined into their concatenation |
| Normalize.NormTextJoinsHyphenatedWord | assistant/ingest.py:46-52 | the cleaner turns `w1 + "-\n" + w2`, for two non-empty runs of word characters, into `w1 + w2` |
| Normalize.NormTextRejoinsCategorie | assistant/ingest.py:46-47 | `"cate-\ngorie"` cleans to `"categorie"` |
| Normalize.NormTextOnlyRejoins | assistant/ingest.py:42-52 | when only the rejoining pass has work to do, the cleaner returns that pass's result |
| Normalize.NormTextOnlyConvertsCrlf | assistant/ingest.py:42-52 | when only the line-end pass has work to do, the cleaner returns that pass's result |
| Normalize.NormTextNotIdempotent | assistant/ingest.py:47 | `"a-\nb-\nc"` cleans to `"ab-\nc"`, which cleans to `"abc"`: cleaning twice differs from cleaning once |
| PageNoise.PageMarkerMatchesPattern | assistant/ingest.py:64 | the hand-written scanner accepts a string exactly when `(pag(ina)?\.?\s*)?\d{1,4}` matches all of it, read as head, whitespace count and number |
| PageNoise.ShortNumberIsMarker | assistant/ingest.py:64-67 | a 1-4 digit line already matches the first test, so the second test removes nothing more |
| PageNoise.StripJoin | assistant/ingest.py:69 | stripping a `"\n"`-join of stripped lines removes exactly the empty lines at either end |
| PageNoise.FilterLinesLines | assistant/ingest.py:60-69 | the output's lines are the stripped, kept lines in input order, less the empty ones at either end |
| PageNoise.FilterLinesKeepsExactly | assistant/ingest.py:60-69 | a non-empty line is in the output exactly when it is a stripped input line that is not rejected |
| PageNoise.RemovePageNoiseKeepsExactly | assistant/ingest.py:55-69 | a non-empty line survives the noise filter exactly when it is a stripped page line that is neither a page marker (lower-cased) nor a short number |
| PageNoise.RemovePageNoise | assistant/ingest.py:55-69 | no output line is unstripped, holds a line feed, or is a page marker or short number |
| PageNoise.RemovePageNoiseIdempotent | assistant/ingest.py:55-69 | filtering page noise twice equals filtering once |
| PageNoise.FilterSingleLine | assistant/ingest.py:60-69 | a single stripped line is removed when rejected and kept as it is otherwise |
| PageNoise.MarkerExample | assistant/ingest.py:61-64 | `"Pag. 7"` is a noise line |
| PageNoise.NotMarkerExample | assistant/ingest.py:61-64 | `"Page 7"` is not a noise line |
| PageNoise.MarkerLineRemoved | assistant/ingest.py:61-65 | a page holding only `"Pag. 7"` cleans to `""` |
| PageNoise.NumberLineRemoved | assistant/ingest.py:66-67 | a page holding only `"42"` cleans to `""` |
| PageNoise.TextLineKept | assistant/ingest.py:61-68 | a page holding only `"Page 7"` is kept as it is |
| Decimal.NatToString | assistant/ingest.py:162 | `str(n)`: at least one decimal digit, no leading zero, and 1, at most 2, at most 3 digits exactly when n is below 10, 100, 1000 |
| Decimal.NatToStringRoundTrip | assistant/ingest.py:162 | reading the numeral back gives n |
| Decimal.NatToStringInjective | assistant/ingest.py:162 | distinct numbers have distinct numerals |
| Decimal.ZeroPad3 | assistant/ingest.py:149 | `f"{n:03d}"`: all digits, width 3 below 1000 and the plain numeral's width from 1000 on, reading back as n |
| Decimal.ZeroPad3Injective | assistant/ingest.py:149 | distinct page numbers get distinct tags |
| Decimal.ZeroPadExamples | assistant/ingest.py:149 | 7 is padded to `"007"`, and 1234 is left as `"1234"` |
| Ingest.PageCount | assistant/ingest.py:142 | the page count is the larger of the extracted-page count and the image count |
| Ingest.PageText | assistant/ingest.py:152-160 | a page holds its cleaned extraction unless OCR is on, the cleaned text is shorter than the threshold, an image exists and its normalised OCR text is strictly longer; the result is never shorter than the cleaned text |
| Ingest.IngestDocument | assistant/ingest.py:142-172 | one file per page; none exactly when there are no pages and no images; page i+1 is named `<base>_pNNN.txt` and holds the header plus its text; it has an image file exactly when an image exists |
| Ingest.CleanEmptyPage | assistant/ingest.py:152-154 | a missing page cleans to `""` |
| Ingest.MissingPageHoldsHeaderOnly | assistant/ingest.py:147-164 | with OCR off, a page past the extracted ones holds only its header |
| Ingest.DefaultPagesAreCleanedExtraction | assistant/ingest.py:20-23 | with the shipped switches, every page holds header plus `_remove_page_noise(_norm_text(raw))`, and no image is written |
| Ingest.TextFileNamesDistinct | assistant/ingest.py:149-163 | equal text-file names imply equal page numbers |
| Ingest.IngestDocumentNamesDistinct | assistant/ingest.py:147-163 | no two pages of one document are written to the same file |
| Ingest.HeaderIsOneLine | assistant/ingest.py:162 | the header ends with its only line feed |
| Ingest.HeaderNumberRoundTrip | assistant/ingest.py:162 | the page number can be read back from the header |
| Ingest.IngestAll | assistant/ingest.py:128-174 | a run writes each document's page files, in order, right after those of the documents before it, and nothing else |
| Tokenize.RunEnd | assistant/views.py:62 | the scan from a position stops at the first character outside the token class |
| Tokenize.TokenListExactly | assistant/views.py:62 | the scanner lists a string exactly when it is a maximal run of token characters |
| Tokenize.Tokens | assistant/views.py:62 | a string is a token of a text exactly when it is a maximal run of token characters of the lower-cased text |
| Tokenize.TokensOfEmpty | assistant/views.py:62-64 | a text with a token is not empty |
| Tokenize.Score | assistant/views.py:83 | the overlap is at most the number of query tokens |
| Tokenize.ScoreMonotone | assistant/views.py:83 | adding tokens to the query never lowers a fragment's score |
| Tokenize.ScorePositive | assistant/views.py:83-84 | a fragment scores exactly when it shares a token with the query |
| Tokenize.ScoreAddToken | assistant/views.py:83 | a new query token the fragment holds raises its score by exactly one |
| Fragments.SeparatorLength | assistant/views.py:74 | the separator match at a position is the longest whitespace run that opens and closes with a line feed, or none |
| Fragments.SplitParagraphsRebuild | assistant/views.py:74 | the split pieces, with the separators between them, give back the text |
| Fragments.SplitParagraphsFree | assistant/views.py:74 | no split piece contains a separator |
| Fragments.Paragraphs | assistant/views.py:74 | every paragraph is non-empty, stripped, and free of blank lines |
| Fragments.ParagraphsOfNonBlankText | assistant/views.py:74 | a text holding a non-whitespace character has a paragraph |
| Fragments.ChunksCount | assistant/views.py:77 | cutting L lines into windows of w gives ⌈L / w⌉ windows |
| Fragments.ChunksCover | assistant/views.py:77-78 | the windows concatenate to the lines, each holds 1 to w lines, and all but the last hold exactly w |
| Fragments.ChunksKeepLines | assistant/views.py:77-78 | every line of a window is an input line |
| Fragments.Windows | assistant/views.py:77-78 | `range(0, L, window)` raises exactly when the window is 0, gives no window for a negative one, and ⌈L / window⌉ windows for a positive one |
| Fragments.WindowLines | assistant/views.py:78 | splitting a window on line feeds gives back its lines |
| Fragments.FileFragments | assistant/views.py:74-78 | the fragments are the paragraphs, followed, when there are fewer than four, by the line windows; None exactly when that needs a zero step |
| Fragments.WindowsCoverLines | assistant/views.py:74-78 | with fewer than four paragraphs, the appended windows are ⌈L / window⌉ groups of at most window lines that concatenate to the L non-empty stripped lines |
| Fragments.NonEmptyLinesOneLine | assistant/views.py:76 | no non-empty stripped line holds a line feed |
| TopK.LexLessTotal | assistant/views.py:86 | Python's string order is total |
| TopK.LexLessTransitive | assistant/views.py:86 | Python's string order is transitive |
| TopK.LexLessIrreflexive | assistant/views.py:86 | no string is less than itself |
| TopK.LexLessAsymmetric | assistant/views.py:86 | no two strings are each less than the other |
| TopK.EntryLeTotal | assistant/views.py:86-88 | any two `(score, fragment)` tuples are comparable |
| TopK.EntryLeTransitive | assistant/views.py:86-88 | tuple order is transitive |
| TopK.EntryLeAntisymmetric | assistant/views.py:86-88 | two tuples each at most the other are equal, so the popped minimum is unique |
| TopK.MinIndex | assistant/views.py:88 | `heappop` takes an entry at most every entry of the pool |
| TopK.RemoveAt | assistant/views.py:88 | popping removes exactly that one entry |
| TopK.Push | assistant/views.py:86-88 | `heappush` then, when the pool has grown past top_k, `heappop`: below the bound the entry is added; past it the pool keeps its size, holds only pushed entries, and the entry that left is at most every entry kept |
| TopK.PushKeepsTop | assistant/views.py:86-88 | after each push, and the pop when the pool has grown past top_k, the pool holds entries pushed so far, as many as there are up to top_k, and every popped entry is at most every kept one |
| TopK.Pool | assistant/views.py:84-88 | after all pushes the pool holds only pushed entries, min(top_k, pushed) of them, and every entry popped is at most, in tuple order, every entry kept |
| TopK.PoolKeepsAllWhenFew | assistant/views.py:85-88 | when at most top_k entries are pushed, all are kept |
| TopK.Insert | assistant/views.py:91 | inserting into a non-increasing sequence keeps it non-increasing and adds exactly that entry |
| TopK.SortDesc | assistant/views.py:91 | the sort gives a non-increasing permutation of the pool |
| Snippets.Scored | assistant/views.py:80-86 | every entry pushed for a file scores at least 1, and its score is its fragment's overlap |
| Snippets.ScoredExactly | assistant/views.py:80-86 | an entry is pushed for a file exactly when its fragment is one of the file's and has a positive overlap equal to its score |
| Snippets.Candidates | assistant/views.py:66-88 | the call raises exactly when some readable file needs a zero-step range; otherwise every pushed entry scores at least 1 |
| Snippets.CandidatesExactly | assistant/views.py:66-88 | an entry is pushed exactly when it is a scoring fragment, with its overlap, of a readable file |
| Snippets.FileEntriesExactly | assistant/views.py:67-86 | an entry is pushed for one file exactly when the file is readable, does not raise, and holds the fragment with that positive overlap |
| Snippets.Prefilter | assistant/views.py:53-92 | a query without tokens gives `""` before any file is read; the call raises exactly when the query has tokens and some readable file needs a zero-step range |
| Snippets.Selection | assistant/views.py:84-91 | the returned entries are min(top_k, candidates) of the candidates, in non-increasing score order; every candidate left out scores at most every returned one; when there are at most top_k candidates, all are returned |
| Snippets.ScoringFragmentNonEmpty | assistant/views.py:84 | a fragment with a positive overlap is not empty |
| Snippets.JoinTextsEmpty | assistant/views.py:92 | joining non-empty fragments gives `""` exactly when there are none |
| Snippets.DrawnFromScored | assistant/views.py:84-91 | every returned entry was pushed, scores at least 1 with its fragment's overlap, and holds a non-empty fragment |
| Snippets.PrefilterAnswer | assistant/views.py:53-92 | with query tokens and no raising file, the answer is the `"\n\n---\n\n"`-join of min(top_k, candidates) pushed, non-empty, scoring fragments in non-increasing score order, none below a fragment left out |
| Snippets.PrefilterEmptyIffNothingKept | assistant/views.py:91-92 | with query tokens and no raising file, the answer is `""` exactly when the pool ends up empty |
| Snippets.ShippedCallAnswers | assistant/views.py:53 | with the defaults top_k = 40 and window = 6 the call never raises, returns at most 40 fragments, and returns `""` for a query with tokens exactly when no fragment shares a token with it |
| Snippets.HeaderHasSource | assistant/ingest.py:162 | any text that opens with the header line holds the token `source` |
| Snippets.HeaderHasPage | assistant/ingest.py:162 | any text that opens with the header line holds the token `page` |
| Snippets.HeaderHasNumber | assistant/ingest.py:162 | any text that opens with the header line holds the page number as a token |
| Snippets.HeaderTokens | assistant/ingest.py:162 | the header puts `source`, `page` and the page number among the tokens of every page file |
| Fragments.FirstParagraphOpensWith | assistant/views.py:74 | a text opening with a line that neither starts nor ends with whitespace has a first paragraph, and it opens with that line |
| Ingest.PageOpensWithHeader | assistant/ingest.py:162-164 | every page file opens with the header of its page, built from a slug base |
| Snippets.HeaderParagraphScores | assistant/views.py:74-84 | the first paragraph of a file that opens with a header scores at least 1 for a query holding `page` or `source` |
| Snippets.FirstParagraphPushed | assistant/views.py:74-85 | a scoring first paragraph is the file's first fragment and is pushed with its score, unless the file raises for a zero step |
| Snippets.HeaderFileGivesEntry | assistant/views.py:74-85 | for a query holding `page` or `source`, a file that opens with a header pushes its first fragment, unless it raises |
| Snippets.EveryPageFileMatchesPage | assistant/views.py:74-85 | every page file pushes at least one fragment onto the candidate heap for a query holding `page` or `source`: its first fragment scores at least 1 and is pushed, unless the file raises for a zero step; the top_k cut may still evict it later |

## Left out

- Unicode NFKC normalisation (assistant/ingest.py:44): the cleaner's input is taken to be normalised already.
- The regex class `\w` is approximated by ASCII letters, digits and `_`, plus the letters of the Latin-1 Supplement and Latin Extended-A/B blocks.
- Text.Lower: maps character by character, so it never changes the length, while Python's `str.lower()` can (`"İ".lower()` has two characters). Only ASCII capitals, the Latin-1 capitals and the Romanian capitals Ă, Ş, Ţ, Ș, Ț are lowered; every other character is left unchanged.
- `\d` is restricted to ASCII digits.
- `splitlines()` is modelled as a split on `"\n"` only: the other Unicode line boundaries are not line breaks here.
- Text extraction with pdfminer (assistant/ingest.py:72-83), rendering with pdf2image (assistant/ingest.py:86-105) and Tesseract OCR (assistant/ingest.py:108-118) are foreign libraries. Their results are inputs.
- The `DPI` setting (assistant/ingest.py:22) only reaches pdf2image.
- File-system effects are left out: directory creation, globbing and sorting the PDFs, `write_text`, the image `save` and its caught error, and `read_text` with its skip-on-error. The model returns the list of page files and takes each page file's text (or its read failure) as input.
- Progress messages (`print`) are left out.
- The `ask` view, the OpenAI client, the proxy environment clean-up, `kiosk_site/settings.py`, `kiosk_site/urls.py` and `manage.py` are request handling, configuration and routing, not this logic.
- OCR text is normalised but not passed through the noise filter, exactly as the code does. No lemma relates OCR text to noise lines.
- The order of the heap array is not modelled. The pool is a sequence with the same contents.
- TopK.SortDesc: fragments with equal scores come out in an order that differs from the program's. The program's stable sort keeps them in heap-array order; the model's insertion sort keeps them in pool order. For example, when fragment `"B"` and then fragment `"A"` are pushed, both with score 1, `heappush` moves `"A"` to the front of the heap array, so the program returns A before B, while the model returns B before A. No contract depends on the order among equal scores.
- Normalize.NormTextRemovesCrlf: proved only for raw text without two adjacent carriage returns, because the cleaner can leave a `"\r\n"` behind (Normalize.NormTextCanKeepCrlf).
- Normalize.Dehyphen: its own contract states only that no character is introduced. Normalize.DehyphenKeepsText adds that only `-` and line feeds are deleted, and Normalize.DehyphenJoinsWord and Normalize.NormTextNotIdempotent pin down the output on word runs and examples. No lemma states exactly which `"-\n"` pairs are deleted.
