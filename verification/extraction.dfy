/** The plain-text endpoints of main.py: `/extract-text/` (always OCR),
    `/extract-text-with-fallback/` (text layer or OCR, decided once per
    document) and the assembly part of `/extract-text-from-drive/`. The page
    texts that PyMuPDF's `get_text()` returns and the per-page Textract
    responses are inputs. */
module Extraction {
  import opened Results
  import opened Text
  import opened Textract

  /** The response to an upload whose name does not end in `.pdf`. */
  const UNSUPPORTED_FILE := HttpError(400, "Only PDF files are supported.")

  /** `file.filename.lower().endswith(".pdf")`. */
  predicate IsPdfFilename(filename: string) {
    EndsWith(Lower(filename), ".pdf")
  }

  /** An upload passes the guard exactly when its last four characters are a
      dot followed by `pdf` in any mix of upper and lower case. */
  lemma PdfFilenameCharacterization(filename: string)
    ensures IsPdfFilename(filename) <==>
      && |filename| >= 4
      && filename[|filename| - 4] == '.'
      && filename[|filename| - 3] in "pP"
      && filename[|filename| - 2] in "dD"
      && filename[|filename| - 1] in "fF"
  {
    var n := |filename|;
    if n >= 4 {
      var tail := Lower(filename)[n - 4..];
      assert tail == [LowerChar(filename[n - 4]), LowerChar(filename[n - 3]),
                      LowerChar(filename[n - 2]), LowerChar(filename[n - 1])];
    }
  }

  /** Which label a page block carries. */
  datatype Source = Plain | TextLayer | Ocr

  function SourceTag(s: Source): string {
    match s
    case Plain => ""
    case TextLayer => " (Text Layer)"
    case Ocr => " (OCR)"
  }

  /** One `--- Page n<tag> ---` block of the plain-text output. */
  datatype PageBlock = PageBlock(pageNumber: nat, source: Source, body: string)

  function Render(b: PageBlock): string {
    "--- Page " + NatToString(b.pageNumber) + SourceTag(b.source) + " ---\n" + b.body
  }

  function RenderAll(blocks: seq<PageBlock>): (r: seq<string>)
    ensures |r| == |blocks|
    ensures forall k :: 0 <= k < |blocks| ==> r[k] == Render(blocks[k])
  {
    if |blocks| == 0 then [] else [Render(blocks[0])] + RenderAll(blocks[1..])
  }

  /** `"\n\n".join(all_text)`. */
  function Assemble(blocks: seq<PageBlock>): string {
    Join(RenderAll(blocks), "\n\n")
  }

  /** The output text is empty exactly when no block was emitted. */
  lemma AssembleEmptyIff(blocks: seq<PageBlock>)
    ensures Assemble(blocks) == [] <==> blocks == []
  {
    JoinEmptyIff(RenderAll(blocks), "\n\n");
  }

  /** `text.strip()` of every page. */
  function StripAll(texts: seq<string>): (r: seq<string>)
    ensures |r| == |texts|
    ensures forall i :: 0 <= i < |texts| ==> r[i] == Strip(texts[i])
  {
    seq(|texts|, i requires 0 <= i < |texts| => Strip(texts[i]))
  }

  /** How many pages have a non-empty stripped text. */
  function CountKept(stripped: seq<string>): nat {
    if |stripped| == 0 then 0
    else CountKept(stripped[..|stripped| - 1]) + (if stripped[|stripped| - 1] == [] then 0 else 1)
  }

  lemma {:induction false} CountKeptZero(stripped: seq<string>)
    ensures CountKept(stripped) == 0 <==> forall i :: 0 <= i < |stripped| ==> stripped[i] == []
  {
    if |stripped| > 0 {
      var n := |stripped|;
      CountKeptZero(stripped[..n - 1]);
      assert forall i :: 0 <= i < n - 1 ==> stripped[..n - 1][i] == stripped[i];
    }
  }

  /** Every block holds the non-empty stripped text of the page whose
      original 1-based index it carries. */
  predicate SoundBlocks(stripped: seq<string>, src: Source, blocks: seq<PageBlock>) {
    forall k :: 0 <= k < |blocks| ==>
      && 1 <= blocks[k].pageNumber <= |stripped|
      && blocks[k].source == src
      && blocks[k].body == stripped[blocks[k].pageNumber - 1]
      && blocks[k].body != []
  }

  predicate IncreasingPages(blocks: seq<PageBlock>) {
    forall k, l :: 0 <= k < l < |blocks| ==> blocks[k].pageNumber < blocks[l].pageNumber
  }

  /** What the OCR loops promise about their blocks, stated without the
      loop: blocks are sound, in strictly increasing page order, and there
      are as many as there are pages with non-blank text, so every such page
      has exactly one. */
  predicate OcrAssembly(stripped: seq<string>, src: Source, blocks: seq<PageBlock>) {
    && SoundBlocks(stripped, src, blocks)
    && IncreasingPages(blocks)
    && |blocks| == CountKept(stripped)
  }

  /** The block loop of the OCR paths: for page n (1-based) whose stripped
      text is not empty, append a block holding that text. */
  function OcrBlocks(stripped: seq<string>, src: Source): (r: seq<PageBlock>)
    ensures OcrAssembly(stripped, src, r)
  {
    if |stripped| == 0 then []
    else
      var n := |stripped|;
      var front := stripped[..n - 1];
      var prefix := OcrBlocks(front, src);
      assert forall i :: 0 <= i < n - 1 ==> front[i] == stripped[i];
      if stripped[n - 1] == [] then prefix
      else prefix + [PageBlock(n, src, stripped[n - 1])]
  }

  lemma {:induction false} CountKeptPrefix(stripped: seq<string>, j: nat)
    requires j <= |stripped|
    ensures CountKept(stripped[..j]) <= CountKept(stripped)
  {
    var n := |stripped|;
    if j < n {
      assert stripped[..n - 1][..j] == stripped[..j];
      CountKeptPrefix(stripped[..n - 1], j);
    } else {
      assert stripped[..j] == stripped;
    }
  }

  /** Sound blocks in increasing page order are never more than the pages
      with non-blank text. */
  lemma {:induction false} SoundBlocksBound(stripped: seq<string>, src: Source, blocks: seq<PageBlock>)
    requires SoundBlocks(stripped, src, blocks) && IncreasingPages(blocks)
    ensures |blocks| <= CountKept(stripped)
    decreases |blocks|
  {
    var m := |blocks|;
    if m > 0 {
      var p := blocks[m - 1].pageNumber;
      var before := stripped[..p - 1];
      var init := blocks[..m - 1];
      assert forall k :: 0 <= k < m - 1 ==> init[k] == blocks[k] && blocks[k].pageNumber < p;
      assert forall i :: 0 <= i < p - 1 ==> before[i] == stripped[i];
      assert SoundBlocks(before, src, init);
      SoundBlocksBound(before, src, init);
      assert stripped[..p][..p - 1] == before;
      assert CountKept(stripped[..p]) == CountKept(before) + 1;
      CountKeptPrefix(stripped, p);
    }
  }

  /** If the last page is blank, no block refers to it. */
  lemma BlankLastPage(stripped: seq<string>, src: Source, blocks: seq<PageBlock>)
    requires |stripped| > 0 && stripped[|stripped| - 1] == []
    requires OcrAssembly(stripped, src, blocks)
    ensures OcrAssembly(stripped[..|stripped| - 1], src, blocks)
  {
    var n := |stripped|;
    assert forall i :: 0 <= i < n - 1 ==> stripped[..n - 1][i] == stripped[i];
    assert SoundBlocks(stripped[..n - 1], src, blocks);
  }

  /** If the last page is not blank, the last block is that page's. */
  lemma KeptLastPage(stripped: seq<string>, src: Source, blocks: seq<PageBlock>)
    requires |stripped| > 0 && stripped[|stripped| - 1] != []
    requires OcrAssembly(stripped, src, blocks)
    ensures |blocks| > 0
    ensures blocks[|blocks| - 1] == PageBlock(|stripped|, src, stripped[|stripped| - 1])
    ensures OcrAssembly(stripped[..|stripped| - 1], src, blocks[..|blocks| - 1])
  {
    var n := |stripped|;
    var front := stripped[..n - 1];
    var m := |blocks|;
    assert forall i :: 0 <= i < n - 1 ==> front[i] == stripped[i];
    if blocks[m - 1].pageNumber != n {
      assert forall k :: 0 <= k < m ==> blocks[k].pageNumber <= blocks[m - 1].pageNumber;
      assert SoundBlocks(front, src, blocks);
      SoundBlocksBound(front, src, blocks);
      assert false;
    }
    var init := blocks[..m - 1];
    assert forall k :: 0 <= k < m - 1 ==> init[k] == blocks[k] && blocks[k].pageNumber < n;
    assert SoundBlocks(front, src, init);
  }

  /** `OcrAssembly` has exactly one solution, the one the loop builds. */
  lemma {:induction false} OcrAssemblyUnique(stripped: seq<string>, src: Source, blocks: seq<PageBlock>)
    requires OcrAssembly(stripped, src, blocks)
    ensures blocks == OcrBlocks(stripped, src)
  {
    var n := |stripped|;
    if n > 0 {
      var front := stripped[..n - 1];
      if stripped[n - 1] == [] {
        BlankLastPage(stripped, src, blocks);
        OcrAssemblyUnique(front, src, blocks);
      } else {
        KeptLastPage(stripped, src, blocks);
        var init := blocks[..|blocks| - 1];
        OcrAssemblyUnique(front, src, init);
        assert blocks == init + [blocks[|blocks| - 1]];
      }
    }
  }

  /** Every page whose stripped text is not empty gets a block carrying its
      original index. */
  lemma {:induction false} OcrBlocksCoverKeptPages(stripped: seq<string>, src: Source, i: nat)
    requires i < |stripped| && stripped[i] != []
    ensures exists k :: 0 <= k < |OcrBlocks(stripped, src)| && OcrBlocks(stripped, src)[k].pageNumber == i + 1
  {
    var n := |stripped|;
    var front := stripped[..n - 1];
    var r := OcrBlocks(stripped, src);
    if i == n - 1 {
      assert r[|r| - 1].pageNumber == n;
    } else {
      OcrBlocksCoverKeptPages(front, src, i);
      var k :| 0 <= k < |OcrBlocks(front, src)| && OcrBlocks(front, src)[k].pageNumber == i + 1;
      assert r[k] == OcrBlocks(front, src)[k];
    }
  }

  predicate AllSucceeded(responses: seq<OcrResponse>) {
    forall i :: 0 <= i < |responses| ==> responses[i].Success?
  }

  /** Page `i` is the first page whose OCR call failed. */
  predicate FirstFailureAt(responses: seq<OcrResponse>, i: int) {
    && 0 <= i < |responses|
    && responses[i].Failure?
    && forall j :: 0 <= j < i ==> responses[j].Success?
  }

  /** The per-page OCR loop: page by page, each response is turned into a
      value by `extract`, and the first failure aborts the whole document with
      the HTTP error `toHttp` assigns to it. */
  function CollectPages<T>(responses: seq<OcrResponse>, extract: seq<Block> -> T, toHttp: OcrFailure -> HttpError)
    : (r: Result<seq<T>, HttpError>)
    ensures r.Success? <==> AllSucceeded(responses)
    ensures r.Success? ==> |r.value| == |responses|
    ensures r.Success? ==> forall i :: 0 <= i < |responses| ==> r.value[i] == extract(responses[i].value)
    ensures r.Failure? ==> exists i :: FirstFailureAt(responses, i) && r.error == toHttp(responses[i].error)
  {
    if |responses| == 0 then Success([])
    else
      match responses[0]
      case Failure(f) =>
        assert FirstFailureAt(responses, 0);
        Failure(toHttp(f))
      case Success(blocks) =>
        var tail := responses[1..];
        assert forall i :: 0 <= i < |tail| ==> tail[i] == responses[i + 1];
        match CollectPages(tail, extract, toHttp)
        case Failure(e) =>
          assert forall i :: FirstFailureAt(tail, i) ==> FirstFailureAt(responses, i + 1);
          Failure(e)
        case Success(rest) =>
          Success([extract(blocks)] + rest)
  }

  /** The text each page's OCR call returned (a failed page contributes
      nothing; it is only consulted when every page succeeded). */
  function OcrTexts(responses: seq<OcrResponse>): (r: seq<string>)
    ensures |r| == |responses|
    ensures forall i :: 0 <= i < |responses| && responses[i].Success? ==> r[i] == PlainText(responses[i].value)
  {
    seq(|responses|, i requires 0 <= i < |responses| =>
      if responses[i].Success? then PlainText(responses[i].value) else [])
  }

  /** The OCR path shared by `/extract-text/`, `/extract-text-from-drive/`
      and the scanned branch of `/extract-text-with-fallback/`: the first
      failing page aborts with the plain helper's error; otherwise the output
      is the `"\n\n"`-join of the blocks `OcrAssembly` describes, and it is
      empty exactly when every page's text is blank. */
  function AssembleOcr(responses: seq<OcrResponse>, src: Source): (r: Result<string, HttpError>)
    ensures r.Success? <==> AllSucceeded(responses)
    ensures r.Failure? ==> exists i :: FirstFailureAt(responses, i) && r.error == PlainHelperError(responses[i].error)
    ensures r.Success? ==> exists blocks :: OcrAssembly(StripAll(OcrTexts(responses)), src, blocks) && r.value == Assemble(blocks)
    ensures r.Success? ==> (r.value == [] <==> forall i :: 0 <= i < |responses| ==> IsBlank(PlainText(responses[i].value)))
  {
    var texts :- CollectPages(responses, PlainText, PlainHelperError);
    assert texts == OcrTexts(responses);
    var stripped := StripAll(texts);
    var blocks := OcrBlocks(stripped, src);
    AssembleEmptyIff(blocks);
    CountKeptZero(stripped);
    Success(Assemble(blocks))
  }

  /** When every page succeeds, the OCR path assembles the stripped texts. */
  lemma AssembleOcrOfTexts(responses: seq<OcrResponse>, src: Source, texts: seq<string>)
    requires CollectPages(responses, PlainText, PlainHelperError) == Success(texts)
    ensures AssembleOcr(responses, src) == Success(Assemble(OcrBlocks(StripAll(texts), src)))
  {
  }

  /** `/extract-text/`. */
  function ExtractText(filename: string, responses: seq<OcrResponse>): (r: Result<string, HttpError>)
    ensures !IsPdfFilename(filename) ==> r == Failure(UNSUPPORTED_FILE)
    ensures IsPdfFilename(filename) ==> (r.Success? <==> AllSucceeded(responses))
    ensures IsPdfFilename(filename) && r.Failure? ==>
      exists i :: FirstFailureAt(responses, i) && r.error == PlainHelperError(responses[i].error)
    ensures r.Success? ==>
      exists blocks :: OcrAssembly(StripAll(OcrTexts(responses)), Plain, blocks) && r.value == Assemble(blocks)
  {
    if !IsPdfFilename(filename) then Failure(UNSUPPORTED_FILE)
    else AssembleOcr(responses, Plain)
  }

  /** `/extract-text-from-drive/` once the file is downloaded: the same OCR
      path and labels as `/extract-text/`, with no filename check. */
  function ExtractTextFromDrive(responses: seq<OcrResponse>): (r: Result<string, HttpError>)
    ensures forall filename :: IsPdfFilename(filename) ==> r == ExtractText(filename, responses)
  {
    AssembleOcr(responses, Plain)
  }

  /** The output for a document with one page that has text. */
  lemma SinglePageOutput(body: string, src: Source)
    requires body != []
    ensures Assemble(OcrBlocks([body], src)) == Render(PageBlock(1, src, body))
  {
    var page := PageBlock(1, src, body);
    assert [body][..0] == [];
    assert OcrBlocks([body], src) == [page];
    assert RenderAll([page]) == [Render(page)];
  }

  /** A one-page scan: its LINE texts, joined by newlines and stripped, under
      a single `--- Page 1 ---` label. */
  lemma SinglePageScan(filename: string, blocks: seq<Block>)
    requires IsPdfFilename(filename)
    requires !IsBlank(PlainText(blocks))
    ensures ExtractText(filename, [Success(blocks)]) == Success(Render(PageBlock(1, Plain, Strip(PlainText(blocks)))))
  {
    var responses: seq<OcrResponse> := [Success(blocks)];
    var text := PlainText(blocks);
    var body := Strip(text);
    assert AllSucceeded(responses);
    var c := CollectPages(responses, PlainText, PlainHelperError);
    assert c.Success? && |c.value| == 1;
    assert c.value[0] == text;
    assert c.value == [text];
    assert StripAll([text]) == [body];
    AssembleOcrOfTexts(responses, Plain, [text]);
    SinglePageOutput(body, Plain);
  }

  /** `pymupdf_text`: the non-empty stripped page texts, in page order. */
  function NonEmptyPages(stripped: seq<string>): (r: seq<string>)
    ensures |r| == CountKept(stripped)
  {
    if |stripped| == 0 then []
    else
      var n := |stripped|;
      var prefix := NonEmptyPages(stripped[..n - 1]);
      if stripped[n - 1] == [] then prefix else prefix + [stripped[n - 1]]
  }

  /** `pymupdf_text and any(len(text) > 100 for text in pymupdf_text)`. */
  predicate UsesTextLayer(layer: seq<string>) {
    var pages := NonEmptyPages(StripAll(layer));
    |pages| > 0 && exists k :: 0 <= k < |pages| && |pages[k]| > 100
  }

  function Bodies(blocks: seq<PageBlock>): (r: seq<string>)
    ensures |r| == |blocks|
    ensures forall k :: 0 <= k < |blocks| ==> r[k] == blocks[k].body
  {
    seq(|blocks|, k requires 0 <= k < |blocks| => blocks[k].body)
  }

  /** The kept text-layer pages are exactly the bodies the OCR-style
      assembly keeps for the same page texts. */
  lemma {:induction false} NonEmptyPagesAreBodies(stripped: seq<string>, src: Source)
    ensures NonEmptyPages(stripped) == Bodies(OcrBlocks(stripped, src))
  {
    if |stripped| > 0 {
      var n := |stripped|;
      NonEmptyPagesAreBodies(stripped[..n - 1], src);
      var prefix := OcrBlocks(stripped[..n - 1], src);
      if stripped[n - 1] != [] {
        var b := PageBlock(n, src, stripped[n - 1]);
        assert Bodies(prefix + [b]) == Bodies(prefix) + [b.body];
      }
    }
  }

  lemma LongPageIsKept(stripped: seq<string>, i: nat)
    requires i < |stripped| && |stripped[i]| > 100
    ensures exists k :: 0 <= k < |NonEmptyPages(stripped)| && |NonEmptyPages(stripped)[k]| > 100
  {
    var blocks := OcrBlocks(stripped, TextLayer);
    NonEmptyPagesAreBodies(stripped, TextLayer);
    OcrBlocksCoverKeptPages(stripped, TextLayer, i);
    var k :| 0 <= k < |blocks| && blocks[k].pageNumber == i + 1;
    assert NonEmptyPages(stripped)[k] == stripped[i];
  }

  lemma KeptLongPageIsPage(stripped: seq<string>, k: nat)
    requires k < |NonEmptyPages(stripped)| && |NonEmptyPages(stripped)[k]| > 100
    ensures exists i :: 0 <= i < |stripped| && |stripped[i]| > 100
  {
    var blocks := OcrBlocks(stripped, TextLayer);
    NonEmptyPagesAreBodies(stripped, TextLayer);
    var i := blocks[k].pageNumber - 1;
    assert NonEmptyPages(stripped)[k] == stripped[i];
  }

  /** The document-level decision: the text layer is used exactly when some
      page's stripped text layer is longer than 100 characters. */
  lemma TextLayerDecision(layer: seq<string>)
    ensures UsesTextLayer(layer) <==> exists i :: 0 <= i < |layer| && |Strip(layer[i])| > 100
  {
    var stripped := StripAll(layer);
    var pages := NonEmptyPages(stripped);
    if k :| 0 <= k < |pages| && |pages[k]| > 100 {
      KeptLongPageIsPage(stripped, k);
      var i :| 0 <= i < |stripped| && |stripped[i]| > 100;
      assert |Strip(layer[i])| > 100;
    }
    if i :| 0 <= i < |layer| && |Strip(layer[i])| > 100 {
      assert |stripped[i]| > 100;
      LongPageIsKept(stripped, i);
    }
  }

  /** A document whose text layer is whitespace only always goes to OCR. */
  lemma BlankTextLayerTakesOcrPath(layer: seq<string>)
    requires forall i :: 0 <= i < |layer| ==> IsBlank(layer[i])
    ensures !UsesTextLayer(layer)
  {
    TextLayerDecision(layer);
  }

  /** `enumerate(pymupdf_text, 1)`: numbers the kept pages 1..n. */
  function TextLayerBlocks(pages: seq<string>): (r: seq<PageBlock>)
    ensures |r| == |pages|
    ensures forall k :: 0 <= k < |r| ==> r[k] == PageBlock(k + 1, TextLayer, pages[k])
  {
    if |pages| == 0 then []
    else
      var n := |pages|;
      TextLayerBlocks(pages[..n - 1]) + [PageBlock(n, TextLayer, pages[n - 1])]
  }

  /** The text-layer path's blocks are `original`'s bodies numbered 1..n,
      whatever their original page index. */
  predicate Renumbered(original: seq<PageBlock>, src: Source, blocks: seq<PageBlock>) {
    && |blocks| == |original|
    && forall k :: 0 <= k < |blocks| ==> blocks[k] == PageBlock(k + 1, src, original[k].body)
  }

  /** `/extract-text-with-fallback/`: the text layer, labelled
      `(Text Layer)` and renumbered over the non-blank pages, when some page
      has more than 100 characters of it; the OCR path, labelled `(OCR)`,
      otherwise. */
  function ExtractTextWithFallback(filename: string, layer: seq<string>, responses: seq<OcrResponse>)
    : (r: Result<string, HttpError>)
    ensures !IsPdfFilename(filename) ==> r == Failure(UNSUPPORTED_FILE)
    ensures IsPdfFilename(filename) && UsesTextLayer(layer) ==>
      r.Success? && exists blocks :: Renumbered(OcrBlocks(StripAll(layer), TextLayer), TextLayer, blocks) && r.value == Assemble(blocks)
    ensures IsPdfFilename(filename) && !UsesTextLayer(layer) ==> r == AssembleOcr(responses, Ocr)
  {
    if !IsPdfFilename(filename) then Failure(UNSUPPORTED_FILE)
    else if UsesTextLayer(layer) then
      var blocks := TextLayerBlocks(NonEmptyPages(StripAll(layer)));
      NonEmptyPagesAreBodies(StripAll(layer), TextLayer);
      assert Renumbered(OcrBlocks(StripAll(layer), TextLayer), TextLayer, blocks);
      Success(Assemble(blocks))
    else AssembleOcr(responses, Ocr)
  }

  /** On the text-layer path no OCR response is consulted. */
  lemma FallbackIgnoresOcrOnTextPath(filename: string, layer: seq<string>, r1: seq<OcrResponse>, r2: seq<OcrResponse>)
    requires UsesTextLayer(layer)
    ensures ExtractTextWithFallback(filename, layer, r1) == ExtractTextWithFallback(filename, layer, r2)
  {
  }

  /** When no page's stripped text is empty, the renumbered labels coincide
      with the original page indices. */
  lemma {:induction false} NoBlankPagesKeepIndices(stripped: seq<string>, src: Source)
    requires forall i :: 0 <= i < |stripped| ==> stripped[i] != []
    ensures |OcrBlocks(stripped, src)| == |stripped|
    ensures var blocks := OcrBlocks(stripped, src); Renumbered(blocks, src, blocks)
  {
    if |stripped| > 0 {
      var n := |stripped|;
      var front := stripped[..n - 1];
      assert forall i :: 0 <= i < n - 1 ==> front[i] == stripped[i];
      NoBlankPagesKeepIndices(front, src);
      var prefix := OcrBlocks(front, src);
      var r := prefix + [PageBlock(n, src, stripped[n - 1])];
      assert OcrBlocks(stripped, src) == r;
      assert forall k :: 0 <= k < |prefix| ==> r[k] == prefix[k];
    }
  }

  /** On the text-layer path the output is the renumbered kept pages. */
  lemma FallbackTextPath(filename: string, layer: seq<string>, responses: seq<OcrResponse>)
    requires IsPdfFilename(filename) && UsesTextLayer(layer)
    ensures ExtractTextWithFallback(filename, layer, responses)
            == Success(Assemble(TextLayerBlocks(NonEmptyPages(StripAll(layer)))))
  {
  }

  /** A document whose only kept text-layer page is `text`, long enough to
      select the text layer, yields the single block `Page 1 (Text Layer)`. */
  lemma SingleTextLayerPage(filename: string, layer: seq<string>, text: string, responses: seq<OcrResponse>)
    requires IsPdfFilename(filename)
    requires NonEmptyPages(StripAll(layer)) == [text] && |text| > 100
    ensures ExtractTextWithFallback(filename, layer, responses) == Success(Render(PageBlock(1, TextLayer, text)))
  {
    assert |NonEmptyPages(StripAll(layer))[0]| > 100;
    assert UsesTextLayer(layer);
    FallbackTextPath(filename, layer, responses);
    var page := PageBlock(1, TextLayer, text);
    assert TextLayerBlocks([text]) == [page];
    assert RenderAll([page]) == [Render(page)];
  }

  /** The kept pages of a two-page document. */
  lemma NonEmptyPagesOfPair(x: string, y: string)
    ensures NonEmptyPages([x, y]) == (if x == [] then [] else [x]) + (if y == [] then [] else [y])
  {
    assert [x, y][..1] == [x];
    assert [x][..0] == [];
  }

  lemma StripAllPair(x: string, y: string)
    ensures StripAll([x, y]) == [Strip(x), Strip(y)]
  {
    var a := StripAll([x, y]);
    var b := [Strip(x), Strip(y)];
    forall i | 0 <= i < 2
      ensures a[i] == b[i]
    {
      assert [x, y][i] == if i == 0 then x else y;
    }
  }

  /** Stripping a page next to a blank page, in either order. */
  lemma StripPair(text: string, blank: string)
    requires IsBlank(blank)
    ensures StripAll([text, blank]) == [Strip(text), []]
    ensures StripAll([blank, text]) == [[], Strip(text)]
  {
    StripAllPair(text, blank);
    StripAllPair(blank, text);
  }

  /** The kept pages of a page with text next to a blank one, in either
      order: only the stripped text of the former. */
  lemma KeptPagesOfPair(text: string, blank: string)
    requires !IsBlank(text) && IsBlank(blank)
    ensures NonEmptyPages(StripAll([text, blank])) == [Strip(text)]
    ensures NonEmptyPages(StripAll([blank, text])) == [Strip(text)]
  {
    var empty: string := [];
    StripPair(text, blank);
    NonEmptyPagesOfPair(Strip(text), empty);
    NonEmptyPagesOfPair(empty, Strip(text));
  }

  /** A two-page document with a text-rich page next to a blank one: the
      output is a single `Page 1 (Text Layer)` block holding that page's
      stripped text, whichever of the two pages carries it, and no OCR
      response matters. */
  lemma TextRichPageNextToBlankPage(filename: string, text: string, blank: string, responses: seq<OcrResponse>)
    requires IsPdfFilename(filename)
    requires |Strip(text)| > 100
    requires IsBlank(blank)
    ensures ExtractTextWithFallback(filename, [text, blank], responses) == Success(Render(PageBlock(1, TextLayer, Strip(text))))
    ensures ExtractTextWithFallback(filename, [blank, text], responses) == Success(Render(PageBlock(1, TextLayer, Strip(text))))
  {
    KeptPagesOfPair(text, blank);
    SingleTextLayerPage(filename, [text, blank], Strip(text), responses);
    SingleTextLayerPage(filename, [blank, text], Strip(text), responses);
  }
}
