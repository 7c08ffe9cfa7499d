/** Normalisation of a Textract `DetectDocumentText` response and the mapping
    of Textract failures to HTTP statuses (`textract_extract_text`,
    `textract_extract_text_with_structure` and `health_textract` in main.py).
    The network call itself is not modelled: its response or its failure is
    an input. */
module Textract {
  import opened Results
  import opened Text

  /** Bounding box and polygon of a block, as returned by the provider. The
      service never looks inside it; it only passes it through. */
  datatype Geometry = Geometry(encoded: string)

  /** One entry of the response's `Blocks` list. `blockType` is the provider's
      `BlockType` string (`PAGE`, `LINE`, `WORD`, ...). */
  datatype Block = Block(blockType: string, text: string, confidence: real, geometry: Geometry)

  const LINE := "LINE"
  const WORD := "WORD"

  /** The `{'text', 'confidence', 'geometry'}` record kept for a line or a word. */
  datatype Fragment = Fragment(text: string, confidence: real, geometry: Geometry)

  /** The structured result of one page: `raw_text`, `lines`, `words`. */
  datatype PageStructure = PageStructure(rawText: string, lines: seq<Fragment>, words: seq<Fragment>)

  /** Why a Textract call failed: a botocore `ClientError` carrying the
      provider's error code, or any other exception with its message. */
  datatype OcrFailure = ClientError(code: string) | OtherFailure(message: string)

  /** An `HTTPException`: status code and detail message. */
  datatype HttpError = HttpError(status: int, detail: string)

  /** What the provider returned for one page image. */
  type OcrResponse = Result<seq<Block>, OcrFailure>

  const UNRECOGNIZED_CLIENT := "UnrecognizedClientException"
  const ACCESS_DENIED := "AccessDeniedException"
  const INVALID_PARAMETER := "InvalidParameterException"
  const UNSUPPORTED_DOCUMENT := "UnsupportedDocumentException"

  function FragmentOf(b: Block): Fragment {
    Fragment(b.text, b.confidence, b.geometry)
  }

  /** The fragments of the blocks of type `t`, in response order. */
  function BlocksOfType(blocks: seq<Block>, t: string): (r: seq<Fragment>)
    ensures |r| <= |blocks|
    ensures forall f :: f in r ==> exists b :: b in blocks && b.blockType == t && FragmentOf(b) == f
    ensures forall b :: b in blocks && b.blockType == t ==> FragmentOf(b) in r
  {
    if |blocks| == 0 then []
    else
      var rest := BlocksOfType(blocks[1..], t);
      assert forall b :: b in blocks[1..] ==> b in blocks;
      assert forall b :: b in blocks ==> b == blocks[0] || b in blocks[1..];
      if blocks[0].blockType == t then [FragmentOf(blocks[0])] + rest else rest
  }

  /** Selecting blocks of one type commutes with concatenating responses:
      together with the one-block case this pins the selection down exactly,
      order included. */
  lemma {:induction false} BlocksOfTypeAppend(a: seq<Block>, b: seq<Block>, t: string)
    ensures BlocksOfType(a + b, t) == BlocksOfType(a, t) + BlocksOfType(b, t)
  {
    if |a| == 0 {
      assert a + b == b;
    } else {
      assert (a + b)[1..] == a[1..] + b;
      BlocksOfTypeAppend(a[1..], b, t);
    }
  }

  function Texts(fs: seq<Fragment>): (r: seq<string>)
    ensures |r| == |fs|
    ensures forall i :: 0 <= i < |fs| ==> r[i] == fs[i].text
  {
    if |fs| == 0 then [] else [fs[0].text] + Texts(fs[1..])
  }

  /** The invariant of a page structure: `raw_text` is the newline-join of the line texts. */
  predicate WellFormed(p: PageStructure) {
    p.rawText == Join(Texts(p.lines), "\n")
  }

  /** Successful `textract_extract_text`: the newline-join of the `Text` of the
      LINE blocks, in response order. */
  function PlainText(blocks: seq<Block>): string {
    Join(Texts(BlocksOfType(blocks, LINE)), "\n")
  }

  /** Successful `textract_extract_text_with_structure`. */
  function Structure(blocks: seq<Block>): (r: PageStructure)
    ensures WellFormed(r)
    ensures forall f :: f in r.lines <==> exists b :: b in blocks && b.blockType == LINE && FragmentOf(b) == f
    ensures forall f :: f in r.words <==> exists b :: b in blocks && b.blockType == WORD && FragmentOf(b) == f
    ensures r.lines == BlocksOfType(blocks, LINE) && r.words == BlocksOfType(blocks, WORD)
  {
    var lines := BlocksOfType(blocks, LINE);
    PageStructure(Join(Texts(lines), "\n"), lines, BlocksOfType(blocks, WORD))
  }

  /** The two helpers agree on the text of a page. */
  lemma PlainTextIsRawText(blocks: seq<Block>)
    ensures PlainText(blocks) == Structure(blocks).rawText
  {
  }

  /** A block of any type other than LINE, inserted anywhere in a response,
      leaves the plain text unchanged. */
  lemma PlainTextIgnoresNonLines(before: seq<Block>, b: Block, after: seq<Block>)
    requires b.blockType != LINE
    ensures PlainText(before + [b] + after) == PlainText(before + after)
  {
    BlocksOfTypeAppend(before + [b], after, LINE);
    BlocksOfTypeAppend(before, [b], LINE);
    BlocksOfTypeAppend(before, after, LINE);
    assert BlocksOfType([b], LINE) == [];
    assert BlocksOfType(before, LINE) + [] == BlocksOfType(before, LINE);
  }

  lemma {:induction false} TextsAppend(a: seq<Fragment>, b: seq<Fragment>)
    ensures Texts(a + b) == Texts(a) + Texts(b)
  {
  }

  /** A LINE block appended to a response appends its text as a new last line. */
  lemma PlainTextAppendLine(blocks: seq<Block>, b: Block)
    requires b.blockType == LINE
    ensures BlocksOfType(blocks, LINE) == [] ==> PlainText(blocks + [b]) == b.text
    ensures BlocksOfType(blocks, LINE) != [] ==> PlainText(blocks + [b]) == PlainText(blocks) + "\n" + b.text
  {
    var lines := BlocksOfType(blocks, LINE);
    var fb := FragmentOf(b);
    BlocksOfTypeAppend(blocks, [b], LINE);
    assert BlocksOfType([b], LINE) == [fb];
    assert BlocksOfType(blocks + [b], LINE) == lines + [fb];
    TextsAppend(lines, [fb]);
    var ts := Texts(lines);
    assert Texts([fb]) == [b.text];
    assert PlainText(blocks + [b]) == Join(ts + [b.text], "\n");
    if lines == [] {
      assert ts + [b.text] == [b.text];
    } else {
      JoinAppend(ts, [b.text], "\n");
      assert Join([b.text], "\n") == b.text;
    }
  }

  /** When no line contains a newline and there is at least one line,
      splitting the page text on newlines gives back the LINE texts. */
  lemma PlainTextSplitsIntoLines(blocks: seq<Block>)
    requires BlocksOfType(blocks, LINE) != []
    requires forall b :: b in blocks && b.blockType == LINE ==> '\n' !in b.text
    ensures SplitOn(PlainText(blocks), '\n') == Texts(BlocksOfType(blocks, LINE))
  {
    var lines := BlocksOfType(blocks, LINE);
    var ts := Texts(lines);
    forall i | 0 <= i < |ts|
      ensures '\n' !in ts[i]
    {
      assert lines[i] in lines;
    }
    SplitJoinRoundTrip(ts, '\n');
  }

  /** The `HTTPException` `textract_extract_text` raises for a failed call. */
  function PlainHelperError(f: OcrFailure): (e: HttpError)
    ensures e.status == 401 <==> f == ClientError(UNRECOGNIZED_CLIENT)
    ensures e.status == 403 <==> f == ClientError(ACCESS_DENIED)
    ensures e.status == 400 <==> f == ClientError(INVALID_PARAMETER)
    ensures e.status == 500 <==> f !in {ClientError(UNRECOGNIZED_CLIENT), ClientError(ACCESS_DENIED), ClientError(INVALID_PARAMETER)}
    ensures e.status == 500 && f.ClientError? ==> EndsWith(e.detail, f.code)
    ensures f.OtherFailure? ==> e.status == 500 && EndsWith(e.detail, f.message)
  {
    match f
    case ClientError(code) =>
      if code == UNRECOGNIZED_CLIENT then
        HttpError(401, "Invalid AWS credentials. Please check your access key and secret key.")
      else if code == ACCESS_DENIED then
        HttpError(403, "AWS credentials don't have permission to access Textract.")
      else if code == INVALID_PARAMETER then
        HttpError(400, "Invalid parameters sent to Textract.")
      else
        HttpError(500, "AWS Textract error: " + code)
    case OtherFailure(message) =>
      HttpError(500, "Text extraction failed: " + message)
  }

  /** The `HTTPException` `textract_extract_text_with_structure` raises: it
      has no 400 case. */
  function StructuredHelperError(f: OcrFailure): (e: HttpError)
    ensures e.status == 401 <==> f == ClientError(UNRECOGNIZED_CLIENT)
    ensures e.status == 403 <==> f == ClientError(ACCESS_DENIED)
    ensures e.status == 500 <==> f !in {ClientError(UNRECOGNIZED_CLIENT), ClientError(ACCESS_DENIED)}
    ensures e.status == 500 && f.ClientError? ==> EndsWith(e.detail, f.code)
    ensures f.OtherFailure? ==> e.status == 500 && EndsWith(e.detail, f.message)
  {
    match f
    case ClientError(code) =>
      if code == UNRECOGNIZED_CLIENT then
        HttpError(401, "Invalid AWS credentials.")
      else if code == ACCESS_DENIED then
        HttpError(403, "Insufficient AWS permissions for Textract.")
      else
        HttpError(500, "AWS Textract error: " + code)
    case OtherFailure(message) =>
      HttpError(500, "Text extraction failed: " + message)
  }

  /** The two helpers give the same status for every failure except
      `InvalidParameterException` (400 against 500). */
  lemma HelperStatusesDiffer(f: OcrFailure)
    ensures PlainHelperError(f).status != StructuredHelperError(f).status <==> f == ClientError(INVALID_PARAMETER)
  {
  }

  /** The JSON body of `/health-textract/`. */
  datatype HealthReport = HealthReport(status: string, message: string)

  /** `health_textract` given the outcome of submitting its fixed test image. */
  function HealthCheck(probe: OcrResponse): (r: HealthReport)
    ensures r.status == "healthy" || r.status == "error"
    ensures r.status == "healthy" <==>
      probe.Success? || probe.error in {ClientError(INVALID_PARAMETER), ClientError(UNSUPPORTED_DOCUMENT)}
    ensures probe.Failure? && probe.error.ClientError? && r.status == "error"
            && probe.error.code !in {UNRECOGNIZED_CLIENT, ACCESS_DENIED}
            ==> EndsWith(r.message, probe.error.code)
  {
    match probe
    case Success(_) => HealthReport("healthy", "AWS Textract connection successful")
    case Failure(ClientError(code)) =>
      if code == UNRECOGNIZED_CLIENT then HealthReport("error", "Invalid AWS credentials")
      else if code == ACCESS_DENIED then HealthReport("error", "AWS credentials lack Textract permissions")
      else if code == INVALID_PARAMETER || code == UNSUPPORTED_DOCUMENT then
        HealthReport("healthy", "AWS Textract connection working (expected parameter error with test data)")
      else HealthReport("error", "Textract connection issue: " + code)
    case Failure(OtherFailure(message)) => HealthReport("error", "Connection error: " + message)
  }

  /** Every failure the health check reports as healthy is one the extraction
      helper turns into a client or server error other than an authorisation
      error, and every authorisation error is reported as unhealthy. */
  lemma HealthAgreesWithAuthErrors(f: OcrFailure)
    ensures PlainHelperError(f).status in {401, 403} ==> HealthCheck(Failure(f)).status == "error"
    ensures HealthCheck(Failure(f)).status == "healthy" ==> PlainHelperError(f).status in {400, 500}
  {
  }
}
