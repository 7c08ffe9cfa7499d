# PDF text extraction service — Dafny model

A model of `main.py`, a small HTTP service that extracts text from PDF files.
Each page is either read from the PDF's own text layer or rasterised and sent
to AWS Textract, whose `detect_document_text` call answers with a list of
*blocks* (`LINE`, `WORD`, …). The model covers what the service does with
those answers:

- turning the Textract blocks of one page into a plain string or into a
  `raw_text`/`lines`/`words` structure (`textract.dfy`);
- turning Textract client errors into HTTP status codes, in the two helpers
  that do it differently, and the health endpoint's classification of the
  same errors (`textract.dfy`);
- the `.pdf` filename guard, the per-page loop that keeps only pages whose
  stripped text is non-blank and renders them as `--- Page N ---` sections
  joined by blank lines, and the text-layer-or-OCR decision of
  `/extract-text-with-fallback/` (`extraction.dfy`);
- the two JSON endpoints, `/extract-text-json/` and
  `/extract-text-detailed/`, including page summaries and average line
  confidence (`aggregation.dfy`);
- the Python string operations the above relies on — `str.strip()` with
  Python's whitespace set, `"sep".join`, `str(n)` for page numbers,
  `lower()` and `endswith` — together with a split on one character, which
  the service never calls but which serves as the inverse of the newline
  join in a round-trip property (`text.dfy`).

Textract's answer for each page is an input to the model: a
`Result<seq<Block>, OcrFailure>`, where the failure is either a `ClientError`
carrying the AWS error code or any other exception's message. An endpoint
call is a function of the uploaded filename, the page texts of the text layer
(for the fallback endpoint) and the sequence of per-page answers. Because the
helpers raise `HTTPException`, the first failing page ends the request with
that page's error. This is modelled by `CollectPages` and stated with
`FirstFailureAt`.

The page assembly has a declarative specification, `OcrAssembly`. The
emitted blocks are exactly the non-blank pages, in increasing page order,
each numbered by its 1-based position in the document. `OcrAssemblyUnique`
shows that this specification determines the output.

Three behaviours of the code are worth knowing:

- `textract_extract_text_with_structure` has no `InvalidParameterException`
  branch, so the JSON endpoints answer 500 for it where `/extract-text/`
  answers 400 (`HelperStatusesDiffer`).
- On the text-layer path of the fallback endpoint, blank pages are dropped
  before numbering, so pages are renumbered over the non-blank ones rather
  than keeping their document position (`TextLayerBlocks`,
  `NoBlankPagesKeepIndices`).
- `average_confidence` is the integer `0` for a page without lines and a
  float otherwise. The model uses `real` throughout, so it is `0.0`.

## Model

| member | source | states |
|---|---|---|
| Text.Strip | main.py:141-142 | `str.strip()`: the result starts and ends with a non-whitespace character (or is empty) and is no longer than its input |
| Text.StripSpec | main.py:141-142 | the stripped string is the input with a whitespace-only prefix and suffix removed, and a string strips to empty exactly when it is all whitespace |
| Text.StripIsIdempotent | main.py:240 | stripping twice is stripping once, so re-stripping the JSON endpoint's `raw_text.strip()` changes nothing |
| Text.JoinEmptyIff | main.py:145 | joining non-empty parts gives the empty string exactly when there are no parts |
| Text.SplitJoinRoundTrip | main.py:63 | splitting a `"\n".join` of newline-free lines on `'\n'` gives back exactly those lines |
| Text.DecimalRoundTrip | main.py:142 | the decimal rendering of a page number reads back as the same number |
| Text.NatToStringInjective | main.py:142 | different page numbers get different page headers |
| Text.Lower | main.py:128 | `lower()` maps every character through the ASCII case mapping and keeps the length |
| Textract.BlocksOfType | main.py:92-104 | filtering blocks by type keeps exactly the blocks of that type, in order, and nothing else |
| Textract.BlocksOfTypeAppend | main.py:92-104 | filtering distributes over concatenation of block lists |
| Textract.Structure | main.py:89-110 | the structured result's lines are the `LINE` blocks and its words the `WORD` blocks, each in response order with repetitions kept, and `raw_text` is the newline join of the line texts |
| Textract.PlainTextIsRawText | main.py:58-63 | the plain helper's text equals the structured helper's `raw_text` for the same blocks |
| Textract.PlainTextIgnoresNonLines | main.py:59-61 | inserting a block that is not a `LINE` anywhere does not change the page text |
| Textract.PlainTextAppendLine | main.py:58-63 | appending a `LINE` block appends its text, after a newline when earlier lines exist |
| Textract.PlainTextSplitsIntoLines | main.py:58-63 | when line texts contain no newline, splitting the page text on newlines recovers the line texts |
| Textract.PlainHelperError | main.py:64-79 | 401 exactly for `UnrecognizedClientException`, 403 exactly for `AccessDeniedException`, 400 exactly for `InvalidParameterException`, 500 for everything else with the code or message at the end of the detail |
| Textract.StructuredHelperError | main.py:111-123 | 401 and 403 as above, 500 for every other failure including `InvalidParameterException` |
| Textract.HelperStatusesDiffer | main.py:69-76 | the two helpers disagree on the status for exactly one failure, `InvalidParameterException` |
| Textract.HealthCheck | main.py:316-338 | the report is `healthy` exactly when the probe succeeds or fails with `InvalidParameterException` or `UnsupportedDocumentException`; other unhealthy client errors name their code |
| Textract.HealthAgreesWithAuthErrors | main.py:327-334 | every failure the extraction helper reports as 401/403 is unhealthy, and every failure the health check accepts is a 400 or 500 for extraction |
| Extraction.PdfFilenameCharacterization | main.py:128-129 | a filename passes the guard exactly when its last four characters, lower-cased, are `.pdf` |
| Extraction.AssembleEmptyIff | main.py:145 | the response body is empty exactly when no page was kept |
| Extraction.CountKeptZero | main.py:141 | no page is kept exactly when every stripped page is empty |
| Extraction.OcrBlocks | main.py:139-143 | the emitted blocks are exactly the non-blank pages, in increasing order, numbered from 1 by position |
| Extraction.SoundBlocksBound | main.py:141-142 | a sound, increasing list of page blocks has at most as many blocks as there are non-blank pages |
| Extraction.BlankLastPage | main.py:141 | a blank last page contributes nothing to the assembly |
| Extraction.KeptLastPage | main.py:141-142 | a non-blank last page contributes exactly one final block numbered with its position |
| Extraction.OcrAssemblyUnique | main.py:139-143 | any block list meeting the assembly specification is the one the loop builds |
| Extraction.OcrBlocksCoverKeptPages | main.py:141-142 | every non-blank page appears in the output under its own page number |
| Extraction.CollectPages | main.py:139-140 | the per-page loop succeeds exactly when every page's Textract call succeeds, yields one result per page, and otherwise fails with the first failing page's error |
| Extraction.AssembleOcr | main.py:135-145 | success exactly when all pages succeed; the body meets the assembly specification and is empty exactly when every page text is blank; a failure is the plain helper's error for the first failing page |
| Extraction.ExtractText | main.py:125-145 | a non-`.pdf` filename is rejected with 400; otherwise the call succeeds exactly when every page's Textract call does, a failure is the plain helper's error for the first failing page, and the body is the rendering of blocks that meet the assembly specification |
| Extraction.ExtractTextFromDrive | main.py:193-212 | the drive endpoint has no filename guard and otherwise answers exactly as `/extract-text/` does on any accepted filename |
| Extraction.SinglePageOutput | main.py:139-145 | a single kept page renders as one `--- Page 1 ---` section and nothing else |
| Extraction.SinglePageScan | main.py:139-145 | a one-page scan with non-blank text returns that page's stripped text under the page-1 header |
| Extraction.NonEmptyPages | main.py:166-170 | the text-layer pages kept are as many as the non-blank pages |
| Extraction.NonEmptyPagesAreBodies | main.py:166-170 | the kept text-layer pages are exactly the bodies the OCR assembly would emit, in the same order |
| Extraction.LongPageIsKept | main.py:169-173 | a page whose stripped text is longer than 100 characters survives the blank-page filter |
| Extraction.KeptLongPageIsPage | main.py:169-173 | a kept page longer than 100 characters comes from some page of the document |
| Extraction.TextLayerDecision | main.py:164-173 | the text layer is used exactly when some page's stripped text is longer than 100 characters |
| Extraction.BlankTextLayerTakesOcrPath | main.py:172-183 | a document whose text layer is entirely blank goes to Textract |
| Extraction.TextLayerBlocks | main.py:175-176 | text-layer blocks are numbered 1, 2, … over the kept pages and tagged as text layer |
| Extraction.ExtractTextWithFallback | main.py:152-186 | guard as above; on the text-layer path the body is the kept text-layer pages renumbered; otherwise it is the OCR assembly with OCR page headers |
| Extraction.FallbackIgnoresOcrOnTextPath | main.py:173-176 | on the text-layer path the Textract answers have no influence on the result |
| Extraction.NoBlankPagesKeepIndices | main.py:175-176 | when no page is blank, the OCR numbering coincides with the text-layer renumbering |
| Extraction.FallbackTextPath | main.py:173-176 | on the text-layer path the response is the assembly of the renumbered non-blank text-layer pages |
| Extraction.SingleTextLayerPage | main.py:173-176 | a document with one kept text-layer page longer than 100 characters returns it under `--- Page 1 (Text Layer) ---` |
| Extraction.KeptPagesOfPair | main.py:166-170 | of a page with text and a blank page, in either order, only the stripped text of the former is kept |
| Extraction.TextRichPageNextToBlankPage | main.py:164-186 | a page whose stripped text is longer than 100 characters, next to a blank page, is reported with its stripped text as page 1 whichever of the two comes first |
| Aggregation.AverageConfidence | main.py:243 | 0 for a page without lines; otherwise the average times the number of lines is the sum of the line confidences |
| Aggregation.SumConfidenceBounds | main.py:243 | the sum of n confidences in [lo, hi] lies in [n·lo, n·hi] |
| Aggregation.AverageConfidenceBounds | main.py:243 | the average confidence lies within any bounds that hold for every line (and that include 0 when there are no lines) |
| Aggregation.Summaries | main.py:234-245 | the pages listed by the JSON endpoint meet the same assembly specification as `/extract-text/`'s page sections, and each describes its own page |
| Aggregation.SummariesAreOcrBlocks | main.py:234-245 | the JSON page list and the plain endpoint's page blocks are the same list |
| Aggregation.RawTextsArePlainTexts | main.py:107 | the structured helper's raw texts equal the plain helper's page texts |
| Aggregation.JsonOf | main.py:249-255 | `total_pages` is the number of kept pages, `text_blocks` are the kept page texts, `extracted_text` is their blank-line join, and the method is `AWS Textract OCR` |
| Aggregation.JsonOfSummarisesResponses | main.py:234-245 | each listed page summarises the Textract answer for that page number |
| Aggregation.ExtractTextJson | main.py:219-255 | guard as above; success exactly when every page succeeds; a failure is the structured helper's error for the first failing page; on success the result is consistent and summarises the answers |
| Aggregation.JsonAgreesWithPlainEndpoint | main.py:125-145 | the JSON endpoint and `/extract-text/` succeed together and fail on the same page; on success the plain body is the rendering of the JSON pages and `total_pages` counts the plain body's sections |
| Aggregation.ExtractTextDetailed | main.py:262-292 | guard as above; success exactly when every page succeeds, failing with the structured helper's error; on success every page is listed, numbered by position, with its raw text and its `LINE` and `WORD` blocks in response order |
| Aggregation.SummaryCondenses | main.py:237-244 | each JSON summary condenses the detailed entry for its page: same number, stripped text, counts and average |
| Aggregation.JsonOfCondensesDetailedOf | main.py:229-292 | every page of the JSON result condenses the detailed result's page of the same number |
| Aggregation.JsonCondensesDetailed | main.py:219-292 | the two JSON endpoints succeed together, fail with the same error, and on success the JSON pages condense the detailed pages |

## Left out

- Reading the upload, opening it with PyMuPDF and rasterising pages (`pdf_to_images`): the model starts from the per-page Textract answers and, for the fallback endpoint, the per-page text layer.
- The boto3 client, credentials and region setup at module level: the model takes Textract's answers as inputs.
- The 500 errors `Failed to extract text: …` raised when PyMuPDF cannot open or read the file: their cause lies in PyMuPDF, which is not part of this model.
- Downloading from Google Drive with `gdown` into a temporary directory, and its failure message: network and file system.
- `print` logging in the helpers.
- The `/` endpoint and the `uvicorn` entry point: static configuration with no logic.
- The health check's fixed one-pixel test image: the model takes the outcome of submitting it as the input.
- Text.Lower: models only the ASCII case mapping, while Python's `lower()` also maps non-ASCII letters. This does not affect the filename guard: no non-ASCII character lowercases to `.`, `p`, `d` or `f`, so `IsPdfFilename` is exact.
- Aggregation.AverageConfidence: computed over `real` rather than floating point, so rounding is not modelled, and the integer `0` for a page without lines is modelled as `0.0`.
- The geometry of lines and words: carried through unchanged as an opaque value.
- Text-layer extraction (`page.get_text()`): each page's text layer is an input string.
- Exceptions inside the structured helper other than Textract's (such as a malformed answer missing `Text` or `Confidence`): the model's blocks always carry those fields.
