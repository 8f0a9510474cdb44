/**
  The per-document step of the ingest pipeline: how many pages a PDF yields,
  which text each page gets (the cleaned extraction, or the OCR text when that
  is enabled and longer), and the page files written for it.

  The foreign libraries are inputs: the page strings pdfminer extracted (None
  when it raised), the images pdf2image rendered (empty when it failed), and
  for every image the string Tesseract read from it. Writing files is
  modelled by the list of page files the loop would write, in order.
*/
module Ingest {
  import opened Wrappers
  import opened Text
  import opened Slug
  import opened Normalize
  import opened PageNoise
  import opened Decimal

  /** The switches at the top of the ingest script. */
  datatype Config = Config(generateImages: bool, ocrEmptyPages: bool, textMinLenForSkipOcr: int)

  /** As shipped: no images, no OCR, OCR threshold of 60 characters. */
  const DefaultConfig := Config(false, false, 60)

  /** A rendered page image, with the text OCR reads from it ("" when Tesseract fails). */
  datatype PageImage = PageImage(ocrText: string)

  /** One PDF as the pipeline sees it. */
  datatype Document = Document(stem: string, extracted: Option<seq<string>>, rendered: seq<PageImage>)

  /** One page's output: the text file, its content, and the image file when there is an image. */
  datatype PageFile = PageFile(textName: string, content: string, imageName: Option<string>)

  function RawPages(doc: Document): seq<string>
  {
    doc.extracted.GetOr([])
  }

  /** Images are only rendered when image generation is switched on. */
  function Images(cfg: Config, doc: Document): seq<PageImage>
  {
    if cfg.generateImages then doc.rendered else []
  }

  function PageCount(rawPages: seq<string>, images: seq<PageImage>): (n: nat)
    ensures n >= |rawPages| && n >= |images|
    ensures n == |rawPages| || n == |images|
  {
    if |rawPages| >= |images| then |rawPages| else |images|
  }

  /** The extracted text of page idx, or "" past the last extracted page. */
  function RawPageText(rawPages: seq<string>, idx: nat): string
  {
    if idx < |rawPages| then rawPages[idx] else ""
  }

  /** Normalisation followed by the page-noise filter. */
  function CleanPage(raw: string): string
  {
    RemovePageNoise(NormText(raw))
  }

  /** Whether OCR is tried for a page whose cleaned text is clean. */
  predicate TriesOcr(cfg: Config, images: seq<PageImage>, idx: nat, clean: string)
  {
    cfg.ocrEmptyPages && |clean| < cfg.textMinLenForSkipOcr && idx < |images|
  }

  /**
    The text written for page idx: its cleaned extraction unless OCR is tried
    and reads more, in which case the normalised OCR text; never shorter than
    the cleaned extraction.
  */
  function PageText(cfg: Config, rawPages: seq<string>, images: seq<PageImage>, idx: nat): (txt: string)
    ensures var clean := CleanPage(RawPageText(rawPages, idx));
            |txt| >= |clean|
            && (!cfg.ocrEmptyPages ==> txt == clean)
            && (txt != clean ==> TriesOcr(cfg, images, idx, clean)
                                 && txt == NormText(images[idx].ocrText) && |txt| > |clean|)
            && ((TriesOcr(cfg, images, idx, clean) && |NormText(images[idx].ocrText)| > |clean|)
                ==> txt == NormText(images[idx].ocrText))
  {
    var clean := CleanPage(RawPageText(rawPages, idx));
    if TriesOcr(cfg, images, idx, clean) then
      var ocr := NormText(images[idx].ocrText);
      if |ocr| > |clean| then ocr else clean
    else clean
  }

  /** The tag pNNN of page number n. */
  function PageTag(n: nat): string
  {
    "p" + ZeroPad3(n)
  }

  function TextFileName(base: string, n: nat): string
  {
    base + "_" + PageTag(n) + ".txt"
  }

  function ImageFileName(base: string, n: nat): string
  {
    base + "_" + PageTag(n) + ".png"
  }

  /** The first line of every page file, without its line feed. */
  function HeaderLine(base: string, n: nat): string
  {
    "[SOURCE:" + base + "] [PAGE:" + NatToString(n) + "]"
  }

  function Header(base: string, n: nat): string
  {
    HeaderLine(base, n) + "\n"
  }

  /** The file written for the page at index idx (page number idx + 1). */
  function WritePage(cfg: Config, base: string, rawPages: seq<string>, images: seq<PageImage>, idx: nat): PageFile
  {
    var n := idx + 1;
    PageFile(TextFileName(base, n), Header(base, n) + PageText(cfg, rawPages, images, idx),
             if idx < |images| then Some(ImageFileName(base, n)) else None)
  }

  /** The page files one PDF produces; none when it yields no page at all. */
  function IngestDocument(cfg: Config, doc: Document): (r: seq<PageFile>)
    ensures |r| == PageCount(RawPages(doc), Images(cfg, doc))
    ensures |r| == 0 <==> |RawPages(doc)| == 0 && |Images(cfg, doc)| == 0
    ensures forall i :: 0 <= i < |r| ==>
              r[i].textName == TextFileName(Slugify(doc.stem), i + 1)
              && r[i].content == Header(Slugify(doc.stem), i + 1) + PageText(cfg, RawPages(doc), Images(cfg, doc), i)
              && (r[i].imageName.Some? <==> i < |Images(cfg, doc)|)
  {
    var base := Slugify(doc.stem);
    var raw := RawPages(doc);
    var images := Images(cfg, doc);
    seq(PageCount(raw, images), i requires 0 <= i => WritePage(cfg, base, raw, images, i))
  }

  /** The page files of each PDF, document by document. */
  function DocBlocks(cfg: Config, docs: seq<Document>): (bs: seq<seq<PageFile>>)
    ensures |bs| == |docs| && forall d :: 0 <= d < |docs| ==> bs[d] == IngestDocument(cfg, docs[d])
  {
    seq(|docs|, d requires 0 <= d < |docs| => IngestDocument(cfg, docs[d]))
  }

  /**
    All PDFs, in the order given (the pipeline sorts them by path): each
    document's page files, right after those of the documents before it.
  */
  function IngestAll(cfg: Config, docs: seq<Document>): (r: seq<PageFile>)
    ensures |r| == Offset(DocBlocks(cfg, docs), |docs|)
    ensures forall d :: 0 <= d < |docs| ==>
              var lo := Offset(DocBlocks(cfg, docs), d);
              var block := DocBlocks(cfg, docs)[d];
              lo + |block| <= |r| && r[lo..lo + |block|] == block
  {
    var bs := DocBlocks(cfg, docs);
    FlattenBlocks(bs);
    Flatten(bs)
  }

  // ---------------------------------------------------------------- properties

  /** A missing or empty page cleans to the empty string. */
  lemma CleanEmptyPage()
    ensures CleanPage("") == ""
  {
    var n := NormText("");
    assert ReplaceNbsp("") == "";
    assert Dehyphen("") == "";
    assert CollapseBlanks("") == "";
    assert CrlfToLf("") == "";
    assert CapNewlines("") == "";
    assert Strip("") == "";
    assert n == "";
    FilterSingleLine("", IsNoiseLine);
  }

  /** With OCR off, a page past the extracted ones holds only its header. */
  lemma MissingPageHoldsHeaderOnly(cfg: Config, doc: Document, i: nat)
    requires !cfg.ocrEmptyPages
    requires |RawPages(doc)| <= i < |IngestDocument(cfg, doc)|
    ensures IngestDocument(cfg, doc)[i].content == Header(Slugify(doc.stem), i + 1)
  {
    CleanEmptyPage();
  }

  /** Page file i opens with the header of page i + 1, under a slug base. */
  lemma PageOpensWithHeader(cfg: Config, doc: Document, i: nat)
    requires i < |IngestDocument(cfg, doc)|
    ensures IsSlugText(Slugify(doc.stem))
    ensures var h := Header(Slugify(doc.stem), i + 1);
            var c := IngestDocument(cfg, doc)[i].content;
            |h| <= |c| && c == h + c[|h|..]
  {
    var txt := PageText(cfg, RawPages(doc), Images(cfg, doc), i);
    var h := Header(Slugify(doc.stem), i + 1);
    var c := IngestDocument(cfg, doc)[i].content;
    assert c == h + txt;
    assert c[|h|..] == txt;
  }

  /** Pages with different numbers get different text-file names. */
  lemma TextFileNamesDistinct(base: string, m: nat, n: nat)
    requires TextFileName(base, m) == TextFileName(base, n)
    ensures m == n
  {
    var a := TextFileName(base, m);
    var k := |base| + 2;
    assert |a| == |TextFileName(base, n)|;
    assert a[k..|a| - 4] == ZeroPad3(m);
    assert TextFileName(base, n)[k..|a| - 4] == ZeroPad3(n);
    ZeroPad3Injective(m, n);
  }

  /** No two pages of one document are written to the same text file. */
  lemma IngestDocumentNamesDistinct(cfg: Config, doc: Document, i: nat, j: nat)
    requires i < j < |IngestDocument(cfg, doc)|
    ensures IngestDocument(cfg, doc)[i].textName != IngestDocument(cfg, doc)[j].textName
  {
    var base := Slugify(doc.stem);
    DistinctPagesDistinctNames(base, i + 1, j + 1);
  }

  lemma DistinctPagesDistinctNames(base: string, m: nat, n: nat)
    requires m != n
    ensures TextFileName(base, m) != TextFileName(base, n)
  {
    if TextFileName(base, m) == TextFileName(base, n) {
      TextFileNamesDistinct(base, m, n);
    }
  }

  /** For a slug base the header is one line: its only line feed is its last character. */
  lemma HeaderIsOneLine(stem: string, n: nat)
    ensures var h := Header(Slugify(stem), n);
            |h| > 0 && h[|h| - 1] == '\n' && '\n' !in h[..|h| - 1]
  {
    var base := Slugify(stem);
    var h := Header(base, n);
    HeaderLineShape(base, n);
    assert h[..|h| - 1] == HeaderLine(base, n);
  }

  /** For a slug base the header line holds no line feed and is bracketed. */
  lemma HeaderLineShape(base: string, n: nat)
    requires IsSlugText(base)
    ensures var hl := HeaderLine(base, n);
            |hl| > 0 && '\n' !in hl && hl[0] == '[' && hl[|hl| - 1] == ']'
  {
    var d := NatToString(n);
    SlugHasNoNewline(base);
    DigitsHaveNoNewline(d);
    assert '\n' !in HeaderLine(base, n);
  }

  lemma SlugHasNoNewline(base: string)
    requires IsSlugText(base)
    ensures '\n' !in base
  {
    forall k | 0 <= k < |base| ensures base[k] != '\n' {
      assert IsSlugChar(base[k]);
    }
  }

  lemma DigitsHaveNoNewline(d: string)
    requires IsDigits(d)
    ensures '\n' !in d
  {
    forall k | 0 <= k < |d| ensures d[k] != '\n' {
      assert IsDigit(d[k]);
    }
  }


  /** The page number can be read back from the header. */
  lemma HeaderNumberRoundTrip(base: string, n: nat)
    ensures var h := Header(base, n);
            var k := |base| + 16;
            k <= |h| - 2 && IsDigits(h[k..|h| - 2]) && DigitsValue(h[k..|h| - 2]) == n
  {
    var h := Header(base, n);
    var k := |base| + 16;
    assert h[k..|h| - 2] == NatToString(n);
    NatToStringRoundTrip(n);
  }

  /** The shipped configuration never runs OCR, so every page holds its cleaned extraction. */
  lemma DefaultPagesAreCleanedExtraction(doc: Document, i: nat)
    requires i < |IngestDocument(DefaultConfig, doc)|
    ensures IngestDocument(DefaultConfig, doc)[i].content
              == Header(Slugify(doc.stem), i + 1) + CleanPage(RawPageText(RawPages(doc), i))
    ensures IngestDocument(DefaultConfig, doc)[i].imageName == None
  {
  }
}
