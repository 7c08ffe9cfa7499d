/** The two JSON endpoints: `/extract-text-json/`, which summarises every
    page with non-blank OCR text, and `/extract-text-detailed/`, which
    returns the structure of every page. Both use the structured OCR helper,
    so their error statuses are those of `StructuredHelperError`. */
module Aggregation {
  import opened Results
  import opened Text
  import opened Textract
  import opened Extraction

  const OCR_METHOD := "AWS Textract OCR"
  const STRUCTURE_METHOD := "AWS Textract with structure analysis"

  /** One entry of the `pages` list of `/extract-text-json/`. */
  datatype PageSummary = PageSummary(pageNumber: nat, text: string, linesCount: nat, wordsCount: nat, averageConfidence: real)

  datatype JsonResult = JsonResult(
    extractedText: string,
    pages: seq<PageSummary>,
    totalPages: nat,
    extractionMethod: string,
    textBlocks: seq<string>)

  /** One entry of the `pages` list of `/extract-text-detailed/`. */
  datatype DetailedPage = DetailedPage(pageNumber: nat, rawText: string, lines: seq<Fragment>, words: seq<Fragment>)

  datatype DetailedResult = DetailedResult(pages: seq<DetailedPage>, totalPages: nat, extractionMethod: string)

  /* ---------------------------------------------------------------------
     Average line confidence
     --------------------------------------------------------------------- */

  /** `sum(line['confidence'] for line in lines)`, left to right. */
  function SumConfidence(lines: seq<Fragment>): real {
    if |lines| == 0 then 0.0
    else SumConfidence(lines[..|lines| - 1]) + lines[|lines| - 1].confidence
  }

  /** The mean confidence of the lines, and 0 when the page has no lines. */
  function AverageConfidence(lines: seq<Fragment>): (r: real)
    ensures lines == [] ==> r == 0.0
    ensures lines != [] ==> r * (|lines| as real) == SumConfidence(lines)
  {
    if |lines| == 0 then 0.0 else SumConfidence(lines) / (|lines| as real)
  }

  lemma {:induction false} SumConfidenceBounds(lines: seq<Fragment>, lo: real, hi: real)
    requires forall i :: 0 <= i < |lines| ==> lo <= lines[i].confidence <= hi
    ensures lo * (|lines| as real) <= SumConfidence(lines) <= hi * (|lines| as real)
  {
    var n := |lines|;
    if n > 0 {
      var front := lines[..n - 1];
      assert forall i :: 0 <= i < n - 1 ==> front[i] == lines[i];
      SumConfidenceBounds(front, lo, hi);
      assert lo * (n as real) == lo * ((n - 1) as real) + lo;
      assert hi * (n as real) == hi * ((n - 1) as real) + hi;
    }
  }

  /** The average lies within any range holding every line's confidence,
      and within any range holding 0 when the page has no lines; Textract's
      confidences are percentages, so the average is one too. */
  lemma AverageConfidenceBounds(lines: seq<Fragment>, lo: real, hi: real)
    requires forall i :: 0 <= i < |lines| ==> lo <= lines[i].confidence <= hi
    requires lines != [] || lo <= 0.0 <= hi
    ensures lo <= AverageConfidence(lines) <= hi
  {
    if lines != [] {
      SumConfidenceBounds(lines, lo, hi);
      var n := |lines| as real;
      var a := AverageConfidence(lines);
      assert a * n == SumConfidence(lines);
      if a < lo {
        assert a * n < lo * n;
      }
      if a > hi {
        assert a * n > hi * n;
      }
    }
  }

  /* ---------------------------------------------------------------------
     /extract-text-json/
     --------------------------------------------------------------------- */

  /** The `raw_text` of each page's structure. */
  function RawTexts(structures: seq<PageStructure>): (r: seq<string>)
    ensures |r| == |structures|
    ensures forall i :: 0 <= i < |structures| ==> r[i] == structures[i].rawText
  {
    seq(|structures|, i requires 0 <= i < |structures| => structures[i].rawText)
  }

  /** A summary's counts and confidence are those of the page it names. */
  predicate Describes(s: PageSummary, p: PageStructure) {
    && s.linesCount == |p.lines|
    && s.wordsCount == |p.words|
    && s.averageConfidence == AverageConfidence(p.lines)
  }

  /** The summaries seen as the page blocks of the plain OCR path. */
  function AsBlocks(pages: seq<PageSummary>): (r: seq<PageBlock>)
    ensures |r| == |pages|
    ensures forall k :: 0 <= k < |pages| ==> r[k] == PageBlock(pages[k].pageNumber, Plain, pages[k].text)
  {
    seq(|pages|, k requires 0 <= k < |pages| => PageBlock(pages[k].pageNumber, Plain, pages[k].text))
  }

  /** The summary of each block's page: the block's text, and the line
      count, word count and average line confidence of the page it names. */
  function Summarise(blocks: seq<PageBlock>, structures: seq<PageStructure>): (r: seq<PageSummary>)
    requires forall k :: 0 <= k < |blocks| ==> 1 <= blocks[k].pageNumber <= |structures|
    ensures |r| == |blocks|
    ensures forall k :: 0 <= k < |blocks| ==>
      && r[k].pageNumber == blocks[k].pageNumber
      && r[k].text == blocks[k].body
      && Describes(r[k], structures[blocks[k].pageNumber - 1])
  {
    seq(|blocks|, k requires 0 <= k < |blocks| =>
      var p := structures[blocks[k].pageNumber - 1];
      PageSummary(blocks[k].pageNumber, blocks[k].body, |p.lines|, |p.words|, AverageConfidence(p.lines)))
  }

  /** The page loop of `/extract-text-json/`, given each page's structure
      and its stripped raw text: it keeps the same pages, in the same order
      and under the same 1-based numbers, as the loop of the plain OCR path,
      and adds to each the page's line count, word count and average line
      confidence. */
  function Summaries(structures: seq<PageStructure>, stripped: seq<string>): (r: seq<PageSummary>)
    requires |stripped| == |structures|
    ensures OcrAssembly(stripped, Plain, AsBlocks(r))
    ensures forall k :: 0 <= k < |r| ==>
      1 <= r[k].pageNumber <= |structures| && Describes(r[k], structures[r[k].pageNumber - 1])
  {
    var blocks := OcrBlocks(stripped, Plain);
    var r := Summarise(blocks, structures);
    assert AsBlocks(r) == blocks;
    r
  }

  /** The summaries are the blocks of the plain OCR path, page for page. */
  lemma SummariesAreOcrBlocks(structures: seq<PageStructure>, stripped: seq<string>)
    requires |stripped| == |structures|
    ensures AsBlocks(Summaries(structures, stripped)) == OcrBlocks(stripped, Plain)
  {
    OcrAssemblyUnique(stripped, Plain, AsBlocks(Summaries(structures, stripped)));
  }

  /** `structures` is what the structured helper returned for each page of
      `responses`, all of which succeeded. */
  predicate StructuresOf(responses: seq<OcrResponse>, structures: seq<PageStructure>) {
    && |structures| == |responses|
    && forall i :: 0 <= i < |responses| ==> responses[i].Success? && structures[i] == Structure(responses[i].value)
  }

  /** The page structures the helper returned carry the plain helper's texts. */
  lemma RawTextsArePlainTexts(responses: seq<OcrResponse>, structures: seq<PageStructure>)
    requires StructuresOf(responses, structures)
    ensures RawTexts(structures) == OcrTexts(responses)
  {
    forall i | 0 <= i < |responses|
      ensures RawTexts(structures)[i] == OcrTexts(responses)[i]
    {
      PlainTextIsRawText(responses[i].value);
    }
  }

  /** The parts of the JSON response that follow from its page list. */
  predicate Consistent(j: JsonResult) {
    && j.totalPages == |j.pages| == |j.textBlocks|
    && (forall k :: 0 <= k < |j.pages| ==> j.textBlocks[k] == j.pages[k].text)
    && j.extractedText == Join(j.textBlocks, "\n\n")
    && j.extractionMethod == OCR_METHOD
  }

  /** The JSON response built from the page structures. */
  function JsonOf(structures: seq<PageStructure>): (j: JsonResult)
    ensures Consistent(j)
    ensures OcrAssembly(StripAll(RawTexts(structures)), Plain, AsBlocks(j.pages))
    ensures forall k :: 0 <= k < |j.pages| ==>
      1 <= j.pages[k].pageNumber <= |structures| && Describes(j.pages[k], structures[j.pages[k].pageNumber - 1])
  {
    var pages := Summaries(structures, StripAll(RawTexts(structures)));
    var textBlocks := Bodies(AsBlocks(pages));
    JsonResult(Join(textBlocks, "\n\n"), pages, |pages|, OCR_METHOD, textBlocks)
  }

  /** The JSON pages are the blocks `OcrAssembly` describes over the
      stripped page texts, and each carries the line count, word count and
      average line confidence of the page it names. */
  predicate SummarisesResponses(j: JsonResult, responses: seq<OcrResponse>) {
    && OcrAssembly(StripAll(OcrTexts(responses)), Plain, AsBlocks(j.pages))
    && forall k :: 0 <= k < |j.pages| ==>
         var pn := j.pages[k].pageNumber;
         && 1 <= pn <= |responses|
         && responses[pn - 1].Success?
         && Describes(j.pages[k], Structure(responses[pn - 1].value))
  }

  /** Each summary names a page whose OCR call succeeded and describes that
      page's structure as the helper returned it. */
  lemma PagesDescribeResponses(responses: seq<OcrResponse>, structures: seq<PageStructure>, pages: seq<PageSummary>)
    requires StructuresOf(responses, structures)
    requires forall k :: 0 <= k < |pages| ==>
      1 <= pages[k].pageNumber <= |structures| && Describes(pages[k], structures[pages[k].pageNumber - 1])
    ensures forall k :: 0 <= k < |pages| ==>
      var pn := pages[k].pageNumber;
      && 1 <= pn <= |responses|
      && responses[pn - 1].Success?
      && Describes(pages[k], Structure(responses[pn - 1].value))
  {
    forall k | 0 <= k < |pages|
      ensures var pn := pages[k].pageNumber;
              && 1 <= pn <= |responses|
              && responses[pn - 1].Success?
              && Describes(pages[k], Structure(responses[pn - 1].value))
    {
      var pn := pages[k].pageNumber;
      assert structures[pn - 1] == Structure(responses[pn - 1].value);
    }
  }

  /** The JSON response built from the helper's structures summarises the
      OCR responses. */
  lemma JsonOfSummarisesResponses(responses: seq<OcrResponse>, structures: seq<PageStructure>)
    requires StructuresOf(responses, structures)
    ensures SummarisesResponses(JsonOf(structures), responses)
  {
    RawTextsArePlainTexts(responses, structures);
    var j := JsonOf(structures);
    assert StripAll(OcrTexts(responses)) == StripAll(RawTexts(structures));
    assert OcrAssembly(StripAll(OcrTexts(responses)), Plain, AsBlocks(j.pages));
    PagesDescribeResponses(responses, structures, j.pages);
  }

  /** `/extract-text-json/`: the filename guard, then the structured helper on
      every page (the first failure aborts with its error), then one summary
      per page with non-blank text. */
  function ExtractTextJson(filename: string, responses: seq<OcrResponse>): (r: Result<JsonResult, HttpError>)
    ensures !IsPdfFilename(filename) ==> r == Failure(UNSUPPORTED_FILE)
    ensures IsPdfFilename(filename) ==> (r.Success? <==> AllSucceeded(responses))
    ensures IsPdfFilename(filename) && r.Failure? ==>
      exists i :: FirstFailureAt(responses, i) && r.error == StructuredHelperError(responses[i].error)
    ensures r.Success? ==> Consistent(r.value) && SummarisesResponses(r.value, responses)
  {
    if !IsPdfFilename(filename) then Failure(UNSUPPORTED_FILE)
    else
      var structures :- CollectPages(responses, Structure, StructuredHelperError);
      assert StructuresOf(responses, structures);
      JsonOfSummarisesResponses(responses, structures);
      Success(JsonOf(structures))
  }

  /** `/extract-text-json/` and `/extract-text/` on the same responses: both
      succeed or both fail at the same first failing page, each with its own
      helper's error; on success the plain endpoint's output is exactly the
      JSON pages rendered with their `--- Page n ---` headers, and the JSON
      `total_pages` counts the pages with non-blank text. */
  lemma JsonAgreesWithPlainEndpoint(filename: string, responses: seq<OcrResponse>)
    requires IsPdfFilename(filename)
    ensures ExtractTextJson(filename, responses).Success? <==> ExtractText(filename, responses).Success?
    ensures ExtractTextJson(filename, responses).Failure? ==>
      exists i :: && FirstFailureAt(responses, i)
                  && ExtractTextJson(filename, responses).error == StructuredHelperError(responses[i].error)
                  && ExtractText(filename, responses).error == PlainHelperError(responses[i].error)
    ensures ExtractTextJson(filename, responses).Success? ==>
      var j := ExtractTextJson(filename, responses).value;
      && ExtractText(filename, responses) == Success(Assemble(AsBlocks(j.pages)))
      && j.totalPages == CountKept(StripAll(OcrTexts(responses)))
  {
    var json := ExtractTextJson(filename, responses);
    if json.Failure? {
      var i :| FirstFailureAt(responses, i) && json.error == StructuredHelperError(responses[i].error);
      var i' :| FirstFailureAt(responses, i') && ExtractText(filename, responses).error == PlainHelperError(responses[i'].error);
      assert i == i';
    } else {
      var texts := CollectPages(responses, PlainText, PlainHelperError).value;
      assert texts == OcrTexts(responses);
      AssembleOcrOfTexts(responses, Plain, texts);
      OcrAssemblyUnique(StripAll(texts), Plain, AsBlocks(json.value.pages));
    }
  }

  /* ---------------------------------------------------------------------
     /extract-text-detailed/
     --------------------------------------------------------------------- */

  /** One detailed entry per page, numbered from `first`. */
  function DetailedPages(structures: seq<PageStructure>, first: nat): (r: seq<DetailedPage>)
    ensures |r| == |structures|
    ensures forall i :: 0 <= i < |structures| ==>
      r[i] == DetailedPage(first + i, structures[i].rawText, structures[i].lines, structures[i].words)
  {
    seq(|structures|, i requires 0 <= i < |structures| =>
      DetailedPage(first + i, structures[i].rawText, structures[i].lines, structures[i].words))
  }

  /** `/extract-text-detailed/`: the filename guard, then the structured
      helper on every page (the first failure aborts with its error), then
      every page, blank or not, numbered from 1. */
  function ExtractTextDetailed(filename: string, responses: seq<OcrResponse>): (r: Result<DetailedResult, HttpError>)
    ensures !IsPdfFilename(filename) ==> r == Failure(UNSUPPORTED_FILE)
    ensures IsPdfFilename(filename) ==> (r.Success? <==> AllSucceeded(responses))
    ensures IsPdfFilename(filename) && r.Failure? ==>
      exists i :: FirstFailureAt(responses, i) && r.error == StructuredHelperError(responses[i].error)
    ensures r.Success? ==>
      && r.value.totalPages == |r.value.pages| == |responses|
      && r.value.extractionMethod == STRUCTURE_METHOD
    ensures r.Success? ==> forall i :: 0 <= i < |responses| ==>
      && r.value.pages[i].pageNumber == i + 1
      && r.value.pages[i].rawText == PlainText(responses[i].value)
      && r.value.pages[i].lines == BlocksOfType(responses[i].value, LINE)
      && r.value.pages[i].words == BlocksOfType(responses[i].value, WORD)
  {
    if !IsPdfFilename(filename) then Failure(UNSUPPORTED_FILE)
    else
      var structures :- CollectPages(responses, Structure, StructuredHelperError);
      assert StructuresOf(responses, structures);
      RawTextsArePlainTexts(responses, structures);
      Success(DetailedOf(structures))
  }

  /** The detailed response built from the page structures. */
  function DetailedOf(structures: seq<PageStructure>): (d: DetailedResult)
    ensures d.totalPages == |d.pages| == |structures|
    ensures d.extractionMethod == STRUCTURE_METHOD
    ensures d.pages == DetailedPages(structures, 1)
  {
    var pages := DetailedPages(structures, 1);
    DetailedResult(pages, |pages|, STRUCTURE_METHOD)
  }

  lemma CountKeptAtMost(stripped: seq<string>)
    ensures CountKept(stripped) <= |stripped|
  {
  }

  /** A JSON summary condenses the detailed entry of the page it names. */
  predicate Condenses(s: PageSummary, d: DetailedPage) {
    && s.pageNumber == d.pageNumber
    && s.text == Strip(d.rawText) != []
    && s.linesCount == |d.lines|
    && s.wordsCount == |d.words|
    && s.averageConfidence == AverageConfidence(d.lines)
  }

  /** What a single summary says about the page it names. */
  lemma SummaryOfPage(structures: seq<PageStructure>, stripped: seq<string>, k: nat)
    requires |stripped| == |structures|
    requires k < |Summaries(structures, stripped)|
    ensures var s := Summaries(structures, stripped)[k];
            && 1 <= s.pageNumber <= |structures|
            && s.text == stripped[s.pageNumber - 1] != []
            && Describes(s, structures[s.pageNumber - 1])
  {
    var pages := Summaries(structures, stripped);
    assert AsBlocks(pages)[k].body == stripped[pages[k].pageNumber - 1];
  }

  /** Built from the same page structures, every JSON page condenses the
      detailed entry it names, the JSON pages are in increasing page order,
      and there are never more of them than detailed entries. */
  predicate CondensesAll(j: JsonResult, d: DetailedResult) {
    && j.totalPages <= d.totalPages
    && IncreasingPages(AsBlocks(j.pages))
    && forall k :: 0 <= k < |j.pages| ==>
         1 <= j.pages[k].pageNumber <= |d.pages| && Condenses(j.pages[k], d.pages[j.pages[k].pageNumber - 1])
  }

  /** A summary condenses the detailed entry of the page it names. */
  lemma SummaryCondenses(structures: seq<PageStructure>, stripped: seq<string>, k: nat)
    requires |stripped| == |structures|
    requires forall i :: 0 <= i < |structures| ==> stripped[i] == Strip(structures[i].rawText)
    requires k < |Summaries(structures, stripped)|
    ensures var s := Summaries(structures, stripped)[k];
            1 <= s.pageNumber <= |structures| && Condenses(s, DetailedPages(structures, 1)[s.pageNumber - 1])
  {
    SummaryOfPage(structures, stripped, k);
  }

  /** Each summary condenses the detailed entry of the page it names. */
  lemma PagesCondense(structures: seq<PageStructure>, stripped: seq<string>, pages: seq<PageSummary>)
    requires |stripped| == |structures|
    requires forall i :: 0 <= i < |structures| ==> stripped[i] == Strip(structures[i].rawText)
    requires pages == Summaries(structures, stripped)
    ensures forall k :: 0 <= k < |pages| ==>
      1 <= pages[k].pageNumber <= |structures|
      && Condenses(pages[k], DetailedPages(structures, 1)[pages[k].pageNumber - 1])
  {
    forall k | 0 <= k < |pages|
      ensures 1 <= pages[k].pageNumber <= |structures|
              && Condenses(pages[k], DetailedPages(structures, 1)[pages[k].pageNumber - 1])
    {
      SummaryCondenses(structures, stripped, k);
    }
  }

  lemma JsonOfCondensesDetailedOf(structures: seq<PageStructure>)
    ensures CondensesAll(JsonOf(structures), DetailedOf(structures))
  {
    var stripped := StripAll(RawTexts(structures));
    CountKeptAtMost(stripped);
    PagesCondense(structures, stripped, JsonOf(structures).pages);
  }

  /** The two JSON endpoints on the same responses succeed together and fail
      with the same error; on success every JSON page condenses the detailed
      entry it names, the JSON pages are in increasing page order, and there
      are never more of them than detailed entries. */
  lemma JsonCondensesDetailed(filename: string, responses: seq<OcrResponse>)
    ensures ExtractTextJson(filename, responses).Success? <==> ExtractTextDetailed(filename, responses).Success?
    ensures ExtractTextJson(filename, responses).Failure? ==>
      ExtractTextJson(filename, responses).error == ExtractTextDetailed(filename, responses).error
    ensures ExtractTextJson(filename, responses).Success? ==>
      CondensesAll(ExtractTextJson(filename, responses).value, ExtractTextDetailed(filename, responses).value)
  {
    if IsPdfFilename(filename) {
      var c := CollectPages(responses, Structure, StructuredHelperError);
      if c.Success? {
        JsonOfCondensesDetailedOf(c.value);
      }
    }
  }
}
