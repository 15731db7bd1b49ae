# PDF connector for Camunda 8, modelled in Dafny

This project models the control logic of the Camunda 8 PDF connector. The connector is one
outbound connector, `PdfFunction`. It dispatches each request to a sub-function by its type
string. The sub-functions are:

- extract pages by a page expression such as `1-3,5,n`;
- merge a list of PDFs, or merge two documents;
- watermark every page;
- render selected pages to PNG images;
- turn a list of images into a PDF.

All of them load their inputs from a file-storage backend and save their result there. Each
failure surfaces as a BPMN error code.

The model also covers three supporting parts:

- the parameter catalogue (`PdfParameter`, `ParameterToolbox.getParameters`), which feeds the
  element template;
- the shared load and save helpers, with their error classification;
- the Markdown table helpers of `DocumentationGenerator`.

The outside world is one `Library` value (`platform.dfy`) that every operation receives. It
holds the file repository, the storage-definition parser, the PDF library and the imaging
library. Each call is a function that may fail, and `Platform.RoundTrips` states the laws a
well-behaved library keeps.

Documents and their pages are values (`documents.dfy`). The objects the connector updates in
place are classes with `modifies` frames:

- `PdfDocument`;
- `PdfOutput`;
- `WriterOption`;
- `PdfParameter`;
- the Markdown file being written.

Every operation is specified by a function of its inputs, such as `ExtractPages.ExtractOutcome`
or `MergePdf.MergeSources`. The imperative method that follows the Java loop is proved to
return what that function gives. Lemmas then state what the function means:

- page order and page counts;
- which storage wins;
- which error code escapes;
- that every code raised is a declared one.

Java `int` arithmetic is modelled where it matters. This covers the page counter of
`isPageInRange` (`JavaLang.Wrap32`), `Integer.parseInt` bounds, and the truncating `%` of the
watermark rotation (`JavaLang.JavaRem360`).

Files, one module each:

| file | module |
|---|---|
| `wrappers.dfy` | `Wrappers` |
| `java_lang.dfy` | `JavaLang` |
| `documents.dfy` | `Documents` |
| `platform.dfy` | `Platform` |
| `toolbox.dfy` | `PdfToolbox` |
| `load_document.dfy` | `LoadDocument` |
| `load_pdf_document.dfy` | `LoadPdfDocument` |
| `save_pdf_document.dfy` | `SavePdfDocument` |
| `storage.dfy` | `RetrieveStorageDefinition` |
| `pdf_input.dfy` | `PdfInputs` |
| `page_expression.dfy` | `PageExpression` |
| `extract.dfy` | `ExtractPages` |
| `merge_pdf.dfy` | `MergePdf` |
| `merge_document.dfy` | `MergeDocument` |
| `image_to_pdf.dfy` | `ImageToPdf` |
| `pdf_to_image.dfy` | `PdfToImage` |
| `watermark.dfy` | `Watermark` |
| `parameters.dfy` | `Parameters` |
| `dispatch.dfy` | `PdfFunction` |
| `documentation.dfy` | `DocumentationGenerator` |

## Model

| member | source | states |
|---|---|---|
| PageExpression.BpmnErrorExtractExpression | src/main/java/io/camunda/connector/pdf/toolbox/ExtractPageExpression.java:32-34 | the only BPMN error a page expression declares is INVALID_EXPRESSION |
| PageExpression.ParseSegment | src/main/java/io/camunda/connector/pdf/toolbox/ExtractPageExpression.java:49-55 | a token that reads as a segment has 0 <= first <= last <= Integer.MAX_VALUE; a token without `-` is a single page |
| PageExpression.Tokens | src/main/java/io/camunda/connector/pdf/toolbox/ExtractPageExpression.java:22-23 | once `n` is replaced by the page count and the text split on `,`, no token holds an `n` or a `,` |
| PageExpression.InRange | src/main/java/io/camunda/connector/pdf/toolbox/ExtractPageExpression.java:43-67 | the only error the scan raises is INVALID_EXPRESSION |
| PageExpression.InRangeTrueIff | src/main/java/io/camunda/connector/pdf/toolbox/ExtractPageExpression.java:44-64 | the scan answers true exactly when a segment containing the page is reached before any malformed token |
| PageExpression.InRangeFalseIff | src/main/java/io/camunda/connector/pdf/toolbox/ExtractPageExpression.java:44-66 | the scan answers false exactly when every token is well formed and no segment contains the page |
| PageExpression.InRangeIgnoresRest | src/main/java/io/camunda/connector/pdf/toolbox/ExtractPageExpression.java:61-63 | the scan returns as soon as a segment contains the page: tokens after it, malformed or not, change nothing |
| PageExpression.SegmentOfNumbers | src/main/java/io/camunda/connector/pdf/toolbox/ExtractPageExpression.java:49-51 | `a` is the segment a..a and `a-b` the segment a..b for 0 <= a <= b <= Integer.MAX_VALUE |
| PageExpression.MalformedTokens | src/main/java/io/camunda/connector/pdf/toolbox/ExtractPageExpression.java:50-59 | an empty token and a bound with a space around it do not parse, so they raise INVALID_EXPRESSION |
| PageExpression.TrailingCommaIgnored | src/main/java/io/camunda/connector/pdf/toolbox/ExtractPageExpression.java:23 | `split(",", 0)` drops trailing empty tokens, so a trailing comma does not change the tokens |
| PageExpression.DefaultExpressionSelectsEveryPage | src/main/java/io/camunda/connector/pdf/toolbox/ExtractPageExpression.java:22-23 | `1-n` becomes the one token `1-N`, the segment 1..N when N >= 1, and the malformed `1-0` for an empty document |
| PageExpression.DefaultExpressionMembership | src/main/java/io/camunda/connector/pdf/toolbox/ExtractPageExpression.java:43-67 | with the expression `1-n` the scan answers exactly 1 <= page <= N |
| PageExpression.InRangeAsWritten | src/main/java/io/camunda/connector/pdf/toolbox/ExtractPageExpression.java:61-64 | the scan with the segment test the 32-bit counting loop performs; its only error is INVALID_EXPRESSION |
| PageExpression.AsWrittenAgreesBelowMax | src/main/java/io/camunda/connector/pdf/toolbox/ExtractPageExpression.java:61-64 | the counting loop answers like the comparison whenever no segment ends at Integer.MAX_VALUE |
| PageExpression.WrapAroundSelectsPageOutsideSegment | src/main/java/io/camunda/connector/pdf/toolbox/ExtractPageExpression.java:61-64 | page 1 is outside `5-2147483647`, yet the counting loop reports it in range |
| PageExpression.CountingLoopMeets | src/main/java/io/camunda/connector/pdf/toolbox/ExtractPageExpression.java:61-64 | the loop `for (pageIndex = first; pageIndex <= last; pageIndex++)` meets the page exactly when first <= page <= last, or when last is Integer.MAX_VALUE (the counter wraps and meets every int) |
| PageExpression.ExtractPageExpression.constructor | src/main/java/io/camunda/connector/pdf/toolbox/ExtractPageExpression.java:20-25 | the stored token list is the expression with `n` replaced by the page count, split on `,` |
| PageExpression.ExtractPageExpression.IsPageInRange | src/main/java/io/camunda/connector/pdf/toolbox/ExtractPageExpression.java:43-67 | the loop over the tokens and the counting loop compute the as-written scan |
| PageExpression.ExtractPageExpression.IsPageInRangeFixed | src/main/java/io/camunda/connector/pdf/toolbox/ExtractPageExpression.java:43-67 | the same loop with the range comparison computes the scan `InRange` |
| JavaLang.Wrap32 | src/main/java/io/camunda/connector/pdf/toolbox/ExtractPageExpression.java:61 | the result is an int congruent to the exact value modulo 2^32, as `pageIndex++` leaves it |
| JavaLang.Wrap32Boundaries | src/main/java/io/camunda/connector/pdf/toolbox/ExtractPageExpression.java:61 | Integer.MAX_VALUE + 1 wraps to Integer.MIN_VALUE and back |
| JavaLang.ParseInt | src/main/java/io/camunda/connector/pdf/toolbox/ExtractPageExpression.java:50-51 | a parsed value fits an int, comes from a non-empty text, and is not negative unless the text starts with `-` |
| JavaLang.ParseIntOfNatToString | src/main/java/io/camunda/connector/pdf/toolbox/ExtractPageExpression.java:22 | the page count written by `String.valueOf` parses back to itself |
| JavaLang.NatToString | src/main/java/io/camunda/connector/pdf/toolbox/ExtractPageExpression.java:22 | `String.valueOf` of a count is non-empty decimal digits without a leading zero |
| JavaLang.Replace | src/main/java/io/camunda/connector/pdf/toolbox/ExtractPageExpression.java:22 | after replacing every `n` with digits no `n` is left; a text without `n` is unchanged |
| JavaLang.SplitAll | src/main/java/io/camunda/connector/pdf/toolbox/ExtractPageExpression.java:23 | at least one piece, and no piece holds the separator |
| JavaLang.JoinSplitAll | src/main/java/io/camunda/connector/pdf/toolbox/ExtractPageExpression.java:23 | gluing the pieces back with the separator gives the text again |
| JavaLang.SplitAllJoin | src/main/java/io/camunda/connector/pdf/toolbox/ExtractPageExpression.java:23 | separator-free pieces glued and split again give the same pieces |
| JavaLang.DropTrailingEmpty | src/main/java/io/camunda/connector/pdf/toolbox/ExtractPageExpression.java:23 | keeps a prefix of the pieces whose last piece is non-empty and drops only empty pieces |
| JavaLang.Split | src/main/java/io/camunda/connector/pdf/toolbox/ExtractPageExpression.java:23 | no piece of `split(",")` holds a comma |
| JavaLang.SplitChars | src/main/java/io/camunda/connector/pdf/toolbox/ExtractPageExpression.java:23 | every character of every piece comes from the text |
| JavaLang.SplitFirst | src/main/java/io/camunda/connector/pdf/toolbox/ExtractPageExpression.java:49 | `split("-", 2)` gives the text alone when it has no `-`, else a `-`-free head and the tail that rebuild the text |
| JavaLang.BlankIffAllSpace | src/main/java/io/camunda/connector/pdf/PdfInput.java:136 | a text is blank after `trim()` exactly when every character is at or below U+0020 |
| JavaLang.IndexOfText | src/main/java/io/camunda/connector/pdf/sharedfunctions/SavePdfDocument.java:80-85 | `indexOf` finds the first occurrence, and `-1` means the text occurs nowhere |
| JavaLang.JavaRem360 | src/main/java/io/camunda/connector/pdf/watermark/PdfWatermarkFunction.java:105 | Java's `% 360`: same class modulo 360, strictly between -360 and 360, with the sign of the dividend |
| JavaLang.EqualsIgnoreCaseIffLowerEqual | src/main/java/io/camunda/connector/pdf/watermark/PdfWatermarkFunction.java:156-181 | `equalsIgnoreCase` holds exactly when both texts fold to the same lower case |
| PdfToolbox.ParseDocument | src/main/java/io/camunda/connector/pdf/toolbox/PdfToolbox.java:30-45 | loading succeeds exactly when the bytes are present, parse and are not encrypted; a parse failure raises the load code and an encrypted file ENCRYPTED_PDF_NOT_SUPPORTED |
| PdfToolbox.OpenDocument | src/main/java/io/camunda/connector/pdf/toolbox/PdfToolbox.java:30-45 | opens a fresh unencrypted document holding the parsed pages; an encrypted file leaves an open document behind |
| PdfToolbox.LoadPdfDocument | src/main/java/io/camunda/connector/pdf/toolbox/PdfToolbox.java:30-45 | `loadPdfDocument`: LOAD_ERROR, ENCRYPTED_PDF_NOT_SUPPORTED (leaving the parsed document open), or the open document with the file's pages |
| PdfToolbox.SaveToVariable | src/main/java/io/camunda/connector/pdf/toolbox/PdfToolbox.java:55-73 | the new file variable carries the serialised pages, the name and the storage; a serialisation failure raises the given code |
| PdfToolbox.SaveOutputPdfDocument | src/main/java/io/camunda/connector/pdf/toolbox/PdfToolbox.java:55-73 | `saveOutputPdfDocument`: the file variable with the name and storage, or SAVE_ERROR |
| PdfToolbox.SavedDocumentReloads | src/main/java/io/camunda/connector/pdf/toolbox/PdfToolbox.java:30-73 | a saved document loads back as the same, unencrypted, pages |
| PdfToolbox.PlacementFor | src/main/java/io/camunda/connector/pdf/toolbox/PdfToolbox.java:119-144 | the text is rotated exactly when the degree is non-zero and the position is CENTER; otherwise it is placed on its line |
| PdfToolbox.RotationIgnoredOffCentre | src/main/java/io/camunda/connector/pdf/toolbox/PdfToolbox.java:119-144 | at TOP or BOTTOM any rotation gives the same placement |
| PdfToolbox.WithOverlay | src/main/java/io/camunda/connector/pdf/toolbox/PdfToolbox.java:86-147 | drawing in append mode keeps the page content and adds the text after the earlier ones |
| PdfToolbox.WriterOption.GetInstance | src/main/java/io/camunda/connector/pdf/toolbox/PdfToolbox.java:152-160 | default options: Helvetica bold, gray, TOP, no rotation |
| PdfToolbox.WriterOption.SetFont | src/main/java/io/camunda/connector/pdf/toolbox/PdfToolbox.java:162-165 | sets the font, returns the same object, other fields unchanged |
| PdfToolbox.WriterOption.SetColor | src/main/java/io/camunda/connector/pdf/toolbox/PdfToolbox.java:167-170 | sets the colour, returns the same object, other fields unchanged |
| PdfToolbox.WriterOption.SetTextPosition | src/main/java/io/camunda/connector/pdf/toolbox/PdfToolbox.java:172-175 | sets the position, returns the same object, other fields unchanged |
| PdfToolbox.WriterOption.SetRotation | src/main/java/io/camunda/connector/pdf/toolbox/PdfToolbox.java:177-180 | sets the degree, returns the same object, other fields unchanged |
| PdfToolbox.WriterOption.OverlayOf | src/main/java/io/camunda/connector/pdf/toolbox/PdfToolbox.java:105-145 | the drawn text uses the options' font and colour, and the placement the options call for |
| PdfToolbox.AddWatermarkText | src/main/java/io/camunda/connector/pdf/toolbox/PdfToolbox.java:84-148 | on success only the target page changes, gaining the text; a drawing failure is an I/O exception and changes nothing |
| LoadDocument.LoadDocSourceFromReference | src/main/java/io/camunda/connector/pdf/sharedfunctions/LoadDocument.java:49-65 | succeeds exactly when the repository returns a file variable holding bytes; every failure, the LOAD_ERROR thrown inside the try included, ends as LOAD_DOCSOURCE |
| LoadDocument.LoadDocSource | src/main/java/io/camunda/connector/pdf/sharedfunctions/LoadDocument.java:35-47 | decodes the reference, then loads it; LOAD_DOCSOURCE is the only error |
| LoadDocument.StoredVariableLoadsBack | src/main/java/io/camunda/connector/pdf/sharedfunctions/LoadDocument.java:35-65 | a stored file variable holding bytes loads back from its JSON reference as itself |
| LoadDocument.EmptyVariableDoesNotLoad | src/main/java/io/camunda/connector/pdf/sharedfunctions/LoadDocument.java:53-63 | a stored file variable without bytes fails with LOAD_DOCSOURCE |
| LoadDocument.BpmnErrors | src/main/java/io/camunda/connector/pdf/sharedfunctions/LoadDocument.java:72-74 | declares exactly LOAD_ERROR and LOAD_DOCSOURCE |
| LoadPdfDocument.LoadPdfDocument | src/main/java/io/camunda/connector/pdf/sharedfunctions/LoadPdfDocument.java:34-54 | LOAD_PDF_ERROR when the bytes are missing or do not parse, ENCRYPTED_PDF_NOT_SUPPORTED (the parsed document left open) for an encrypted file, else a fresh open document with the parsed pages |
| LoadPdfDocument.BpmnErrors | src/main/java/io/camunda/connector/pdf/sharedfunctions/LoadPdfDocument.java:61-64 | declares exactly LOAD_PDF_ERROR and ENCRYPTED_PDF_NOT_SUPPORTED |
| SavePdfDocument.StoredReference | src/main/java/io/camunda/connector/pdf/sharedfunctions/SavePdfDocument.java:54-74 | the repository's reference for a file variable holding the serialised pages, the name and the storage; a failure of either step, ERROR_CREATE_FILEVARIABLE included, is caught and reported as SAVE_ERROR |
| SavePdfDocument.SavePdfFile | src/main/java/io/camunda/connector/pdf/sharedfunctions/SavePdfDocument.java:47-104 | on success the output's destination is the stored reference's JSON; on failure SAVE_ERROR and the output unchanged; the list of destinations is never touched |
| SavePdfDocument.RenamedName | src/main/java/io/camunda/connector/pdf/sharedfunctions/SavePdfDocument.java:78-87 | the rename fails exactly when the key holds neither ` - [` nor `.pdf`; otherwise the new name ends in `.pdf` |
| SavePdfDocument.SaveOutcomeAsWritten | src/main/java/io/camunda/connector/pdf/sharedfunctions/SavePdfDocument.java:54-103 | the store followed by the rename step; every failure, the rename's included, is SAVE_ERROR |
| SavePdfDocument.AsWrittenAgreesOnPdfKeys | src/main/java/io/camunda/connector/pdf/sharedfunctions/SavePdfDocument.java:78-94 | when the key names a PDF, the rename step does not change the outcome |
| SavePdfDocument.StoredFileReportedAsFailure | src/main/java/io/camunda/connector/pdf/sharedfunctions/SavePdfDocument.java:80-86 | a file stored under the key `invoice` is reported as SAVE_ERROR by the code as written |
| SavePdfDocument.StoreFile | src/main/java/io/camunda/connector/pdf/sharedfunctions/SavePdfDocument.java:121-130 | the stored file's reference, or SAVE_ERROR when storing fails |
| SavePdfDocument.SaveFile | src/main/java/io/camunda/connector/pdf/sharedfunctions/SavePdfDocument.java:115-132 | on success the reference's JSON is appended to the output's list; on failure SAVE_ERROR and the list unchanged; the single destination is never touched |
| SavePdfDocument.BpmnErrors | src/main/java/io/camunda/connector/pdf/sharedfunctions/SavePdfDocument.java:139-141 | declares exactly ERROR_CREATE_FILEVARIABLE and SAVE_ERROR |
| RetrieveStorageDefinition.ResolveStorage | src/main/java/io/camunda/connector/pdf/sharedfunctions/RetrieveStorageDefinition.java:39-54 | a null or blank override leaves the fallback; a non-blank override that parses yields the parsed storage, and one that does not parse raises the caller's code |
| RetrieveStorageDefinition.OverrideIgnoresFallback | src/main/java/io/camunda/connector/pdf/sharedfunctions/RetrieveStorageDefinition.java:42-51 | with a non-blank override the fallback plays no part: the result succeeds exactly when the override parses, and is then the parsed storage |
| RetrieveStorageDefinition.WhitespaceOverrideFallsBack | src/main/java/io/camunda/connector/pdf/sharedfunctions/RetrieveStorageDefinition.java:42 | an override made only of characters at or below U+0020 counts as absent |
| RetrieveStorageDefinition.GetStorageDefinition | src/main/java/io/camunda/connector/pdf/sharedfunctions/RetrieveStorageDefinition.java:35-62 | errors are BAD_STORAGE_DEFINITION or ERROR_NO_DESTINATION_STORAGE_DEFINITION_DEFINE; the latter only when asked to throw and no storage was found; when asked to throw, success means a storage; a non-blank definition that parses yields the parsed storage (or the missing-storage error when it is null and the caller asked to throw), and one that does not parse is BAD_STORAGE_DEFINITION |
| RetrieveStorageDefinition.NoOverrideUsesDefault | src/main/java/io/camunda/connector/pdf/sharedfunctions/RetrieveStorageDefinition.java:52-61 | without an override the default source's storage is used, and with no default source the result is null or the error |
| RetrieveStorageDefinition.BpmnErrors | src/main/java/io/camunda/connector/pdf/sharedfunctions/RetrieveStorageDefinition.java:69-72 | declares exactly the two codes the function can raise |
| PdfInputs.NewPdfInput | src/main/java/io/camunda/connector/pdf/PdfInput.java:101-121 | a new input has every field null except `dpi`, which is 300 |
| PdfInputs.ExtractExpressionOrDefault | src/main/java/io/camunda/connector/pdf/PdfInput.java:135-137 | a null or blank expression gives `1-n`; any other is returned unchanged, untrimmed |
| PdfInputs.ExtractExpressionDefaultIffSpaces | src/main/java/io/camunda/connector/pdf/PdfInput.java:136 | the default is chosen exactly when every character is at or below U+0020; otherwise the text itself comes back |
| PdfInputs.WithComplements | src/main/java/io/camunda/connector/pdf/PdfInput.java:217-223 | keeps the storage kind, copies the complement with an empty one made null, and puts the CMIS text into `complementInObject` |
| PdfInputs.GetDestinationStorageDefinitionObject | src/main/java/io/camunda/connector/pdf/PdfInput.java:204-229 | a non-blank JSON definition wins and succeeds exactly when it parses; else null when no string definition; else the parsed string definition with its complements, a null parse failing; every failure is INCORRECT_STORAGEDEFINITION |
| PdfInputs.BlankComplementKept | src/main/java/io/camunda/connector/pdf/PdfInput.java:218-220 | only the empty complement becomes null; a blank one is kept |
| ExtractPages.SegmentPages | src/main/java/io/camunda/connector/pdf/extractpages/PdfExtractPagesFunction.java:101-107 | the pages numbered first to last that the document has, in order: page k of the result is page first+k, and there are min(last, count) - first + 1 of them |
| ExtractPages.SegmentPagesStep | src/main/java/io/camunda/connector/pdf/extractpages/PdfExtractPagesFunction.java:101-107 | one more loop turn appends page k exactly when the document has it |
| ExtractPages.SegmentCopy | src/main/java/io/camunda/connector/pdf/extractpages/PdfExtractPagesFunction.java:101-107 | the copy loop fails exactly when the first page is 0 (getPage(-1)) or the last is Integer.MAX_VALUE (the counter wraps); otherwise it yields the segment's pages |
| ExtractPages.Extraction | src/main/java/io/camunda/connector/pdf/extractpages/PdfExtractPagesFunction.java:83-108 | succeeds exactly when every token parses and its copy succeeds; failures are INVALID_EXPRESSION or a PDF library exception |
| ExtractPages.ExtractionUnfold | src/main/java/io/camunda/connector/pdf/extractpages/PdfExtractPagesFunction.java:84-108 | the first token decides: malformed raises INVALID_EXPRESSION, a failed copy stops, else its pages come before the rest's |
| ExtractPages.SelectedByFirst | src/main/java/io/camunda/connector/pdf/extractpages/PdfExtractPagesFunction.java:84-108 | a page inside the first, well-formed segment is in range |
| ExtractPages.SelectedByRest | src/main/java/io/camunda/connector/pdf/extractpages/PdfExtractPagesFunction.java:84-108 | behind a well-formed first segment, a page the later segments select is in range |
| ExtractPages.ExtractedPagesAreSelected | src/main/java/io/camunda/connector/pdf/extractpages/PdfExtractPagesFunction.java:84-108 | every extracted page is a page of the document that the page-expression scan accepts |
| ExtractPages.CopiedIsSelected | src/main/java/io/camunda/connector/pdf/extractpages/PdfExtractPagesFunction.java:101-107 | a page the first segment copies is selected by the whole expression |
| ExtractPages.SelectedBehindFirst | src/main/java/io/camunda/connector/pdf/extractpages/PdfExtractPagesFunction.java:84-108 | selection by the later tokens carries over to the whole expression |
| ExtractPages.SelectedPagesAreExtracted | src/main/java/io/camunda/connector/pdf/extractpages/PdfExtractPagesFunction.java:84-108 | every page of the document that the page-expression scan accepts is extracted |
| ExtractPages.CopiesContainedPage | src/main/java/io/camunda/connector/pdf/extractpages/PdfExtractPagesFunction.java:101-107 | a copied segment holds every document page it contains |
| ExtractPages.SingleToken | src/main/java/io/camunda/connector/pdf/extractpages/PdfExtractPagesFunction.java:83-108 | a one-token expression fails with INVALID_EXPRESSION when malformed, else extracts its segment's pages |
| ExtractPages.DefaultExpressionExtractsAll | src/main/java/io/camunda/connector/pdf/extractpages/PdfExtractPagesFunction.java:81-108 | the default `1-n` extracts the whole document, and fails with INVALID_EXPRESSION on a document without pages (`1-0`) |
| ExtractPages.ExtractOutcome | src/main/java/io/camunda/connector/pdf/extractpages/PdfExtractPagesFunction.java:121-123 | every failure, named ones included, is reported as EXTRACTION_ERROR |
| ExtractPages.SourceOpenedOnSuccess | src/main/java/io/camunda/connector/pdf/extractpages/PdfExtractPagesFunction.java:49-81 | a successful run opened the source; a source refused as encrypted was never assigned |
| ExtractPages.ExtractStoresSelectedPages | src/main/java/io/camunda/connector/pdf/extractpages/PdfExtractPagesFunction.java:49-120 | when it succeeds, the source was not encrypted, and the returned reference loads back to exactly the extracted pages, under the destination file name, in the storage resolved from the destination definition or the source's |
| ExtractPages.CopySegment | src/main/java/io/camunda/connector/pdf/extractpages/PdfExtractPagesFunction.java:101-107 | the loop on Java ints appends the segment's pages to the destination and succeeds exactly when the copy is defined |
| ExtractPages.CopyToken | src/main/java/io/camunda/connector/pdf/extractpages/PdfExtractPagesFunction.java:84-107 | one turn of the token loop: the extraction from this token on, after the pages copied so far, equals the extraction from the next token on after the pages copied now, or is this turn's failure (INVALID_EXPRESSION or an unnamed exception); the destination stays open |
| ExtractPages.CopySegments | src/main/java/io/camunda/connector/pdf/extractpages/PdfExtractPagesFunction.java:83-108 | the loop over the tokens leaves in the destination exactly the extraction's pages, and fails with the extraction's error |
| ExtractPages.Attempt | src/main/java/io/camunda/connector/pdf/extractpages/PdfExtractPagesFunction.java:49-120 | computes the steps of the try block and hands back the documents it opened, fresh, open and distinct: the source and the destination exist exactly when the steps get as far as parsing the source (`ExtractPages.SourceOpened`); a loaded document is left unassigned exactly when it is refused as encrypted |
| ExtractPages.Execute | src/main/java/io/camunda/connector/pdf/extractpages/PdfExtractPagesFunction.java:36-141 | returns the outcome of the whole call; on every path it closes exactly the documents the try block opened, two when the source was opened and none otherwise, success or failure; only a document refused as encrypted stays open, and it comes with EXTRACTION_ERROR |
| MergePdf.BpmnErrors | src/main/java/io/camunda/connector/pdf/mergepdf/PdfMergePdfFunction.java:30-40 | declares exactly the codes of the four shared helpers plus ERROR_DURING_OPERATION, the missing-destination code among them |
| MergePdf.NoDestinationLabelReplaced | src/main/java/io/camunda/connector/pdf/mergepdf/PdfMergePdfFunction.java:34-39 | the function's own label for the missing-destination code replaces the storage helper's |
| MergePdf.References | src/main/java/io/camunda/connector/pdf/mergepdf/PdfMergePdfFunction.java:63-70 | decodes every element in order; succeeds exactly when each decodes, one reference per element |
| MergePdf.OpenSource | src/main/java/io/camunda/connector/pdf/mergepdf/PdfMergePdfFunction.java:81-87 | a source opens exactly when its file variable loads and its bytes parse; the failures are the two helpers' codes |
| MergePdf.MergeSteps | src/main/java/io/camunda/connector/pdf/mergepdf/PdfMergePdfFunction.java:62-113 | every failure is one of the helpers' codes, the missing-destination code, or an unnamed exception |
| MergePdf.OutcomeCodeDeclared | src/main/java/io/camunda/connector/pdf/mergepdf/PdfMergePdfFunction.java:114-119 | every failure of the sub-function is a ConnectorException whose code it declares |
| MergePdf.MergeConcatenates | src/main/java/io/camunda/connector/pdf/mergepdf/PdfMergePdfFunction.java:80-96 | the merge loop succeeds exactly when every source opens, then holds the earlier pages followed by all the sources' pages in list order, and keeps a chosen storage or else takes the first source's |
| MergePdf.OpenedPrefix | src/main/java/io/camunda/connector/pdf/mergepdf/PdfMergePdfFunction.java:80-96 | the number of sources opened: every source before it opens, and the one at it fails to |
| MergePdf.OpenedPrefixAll | src/main/java/io/camunda/connector/pdf/mergepdf/PdfMergePdfFunction.java:80-96 | every source opens exactly when the loop gets through the whole list |
| MergePdf.EmptyListNeedsStorage | src/main/java/io/camunda/connector/pdf/mergepdf/PdfMergePdfFunction.java:84-102 | an empty list with no storage in the input fails with ERROR_NO_DESTINATION_STORAGE_DEFINITION_DEFINE |
| MergePdf.MergeStoresAllPages | src/main/java/io/camunda/connector/pdf/mergepdf/PdfMergePdfFunction.java:62-113 | when it succeeds, every source opened, and the stored merge loads back as the concatenation of their pages, under the destination file name, in the destination storage or else the first source's |
| MergePdf.MergeSources | src/main/java/io/camunda/connector/pdf/mergepdf/PdfMergePdfFunction.java:80-96 | the loop fills the destination with exactly the merge's pages and returns its storage or the merge's error; it hands back the sources it opened, distinct, as many as open before the first that fails (`MergePdf.OpenedPrefix`) |
| MergePdf.Attempt | src/main/java/io/camunda/connector/pdf/mergepdf/PdfMergePdfFunction.java:62-113 | yields a fresh output holding the merge's reference, or the merge's error; the destination exists exactly when the list decodes and the destination storage is read (`MergePdf.DestinationCreated`), and it then comes with the sources opened before the first failure |
| MergePdf.ExecuteSubFunction | src/main/java/io/camunda/connector/pdf/mergepdf/PdfMergePdfFunction.java:52-137 | the output's destination is the outcome's reference, or the outcome's error; on every path it closes exactly `MergePdf.OpenedCount` documents: the destination and every source opened before a failure; only a source refused as encrypted stays open, and it comes with ENCRYPTED_PDF_NOT_SUPPORTED |
| MergeDocument.ReadVariable | src/main/java/io/camunda/connector/pdf/mergedocument/PdfMergeDocumentFunction.java:50-54 | succeeds exactly when the reference decodes and the repository loads it, giving the repository's (possibly null) file variable; failures are unnamed exceptions |
| MergeDocument.MergeDocumentOutcome | src/main/java/io/camunda/connector/pdf/mergedocument/PdfMergeDocumentFunction.java:125-127 | succeeds exactly when the try block does; every failure is MERGE_ERROR |
| MergeDocument.OpenedOnSuccess | src/main/java/io/camunda/connector/pdf/mergedocument/PdfMergeDocumentFunction.java:49-91 | a successful run opened both documents; a run refused for an encrypted document never opened the second |
| MergeDocument.MergeStoresBothDocuments | src/main/java/io/camunda/connector/pdf/mergedocument/PdfMergeDocumentFunction.java:49-124 | when it succeeds, neither document was encrypted, and the stored result loads back as the first document's pages followed by the second's, under the destination file name, in the storage resolved from the destination definition or the first document's |
| MergeDocument.EncryptedDocumentRefused | src/main/java/io/camunda/connector/pdf/mergedocument/PdfMergeDocumentFunction.java:81-91 | an encrypted document on either side makes the whole merge fail with MERGE_ERROR |
| MergeDocument.Attempt | src/main/java/io/camunda/connector/pdf/mergedocument/PdfMergeDocumentFunction.java:49-124 | computes the try block's steps and hands back the documents it opened, fresh, open and distinct: the first document exactly when it parses (`MergeDocument.SourceOpened`), the second and the destination exactly when both parse (`MergeDocument.AddedOpened`); a document is left unassigned exactly when it is refused as encrypted |
| MergeDocument.Execute | src/main/java/io/camunda/connector/pdf/mergedocument/PdfMergeDocumentFunction.java:35-151 | returns the outcome of the whole call; on every path it closes exactly the documents the try block opened (three, one or none); only a document refused as encrypted stays open, and it comes with MERGE_ERROR |
| ImageToPdf.BpmnErrors | src/main/java/io/camunda/connector/pdf/imagetopdf/ImageToPdfFunction.java:218-232 | declares exactly the document loader's codes, ACCESS_SOURCE_IMAGE, DRAW_IMAGE, the missing-destination code, DEFINITION_ERROR and ERROR_DURING_OPERATION |
| ImageToPdf.SourceReferences | src/main/java/io/camunda/connector/pdf/imagetopdf/ImageToPdfFunction.java:63-78 | succeeds exactly when every text decodes, a failure being ACCESS_SOURCE_IMAGE; on success the result is the non-null decoded entries in input order (`Present` of the decoded list): as many as there are non-null entries, and each one decoded from some text |
| ImageToPdf.ImageOf | src/main/java/io/camunda/connector/pdf/imagetopdf/ImageToPdfFunction.java:89-124 | an image succeeds only when its file variable loads, its bytes read as an image and the drawing succeeds; the failures are LOAD_DOCSOURCE, DRAW_IMAGE or an unnamed exception |
| ImageToPdf.ImagesFrom | src/main/java/io/camunda/connector/pdf/imagetopdf/ImageToPdfFunction.java:84-135 | the image loop fails only with the codes one image can raise |
| ImageToPdf.PagesOf | src/main/java/io/camunda/connector/pdf/imagetopdf/ImageToPdfFunction.java:103-104 | one page per image, in order, each the page made for its image |
| ImageToPdf.ImageToPdfOutcome | src/main/java/io/camunda/connector/pdf/imagetopdf/ImageToPdfFunction.java:168-170 | succeeds exactly when the try block does; every failure, named ones included, is ERROR_DURING_OPERATION |
| ImageToPdf.OutcomeCodeDeclared | src/main/java/io/camunda/connector/pdf/imagetopdf/ImageToPdfFunction.java:168-170 | every failure of the sub-function is a ConnectorException whose code it declares |
| ImageToPdf.ImagesInOrder | src/main/java/io/camunda/connector/pdf/imagetopdf/ImageToPdfFunction.java:84-135 | the image loop succeeds exactly when every image does, and then holds one result per reference, in order |
| ImageToPdf.ReferencesInOrder | src/main/java/io/camunda/connector/pdf/imagetopdf/ImageToPdfFunction.java:67-77 | without a null reference, every text gives one reference, in order |
| ImageToPdf.NoImageNoStorageIsOperationError | src/main/java/io/camunda/connector/pdf/imagetopdf/ImageToPdfFunction.java:139-170 | with no image and no storage, the try block raises the missing-destination code but the caller receives ERROR_DURING_OPERATION, though the former is declared |
| ImageToPdf.StoredPdfHoldsTheImages | src/main/java/io/camunda/connector/pdf/imagetopdf/ImageToPdfFunction.java:60-167 | when it succeeds, every image loaded, and the stored PDF loads back with one page per image, in list order, each the page made for its image, under the destination file name, in the storage resolved from the destination definition or the first image's |
| ImageToPdf.DecodeReferences | src/main/java/io/camunda/connector/pdf/imagetopdf/ImageToPdfFunction.java:63-78 | the decoding loop yields the references of the list |
| ImageToPdf.AddImagePages | src/main/java/io/camunda/connector/pdf/imagetopdf/ImageToPdfFunction.java:84-135 | the loop leaves in the destination exactly the pages of the images and returns the first file variable, or the loop's error |
| ImageToPdf.Attempt | src/main/java/io/camunda/connector/pdf/imagetopdf/ImageToPdfFunction.java:60-167 | yields a fresh output holding the stored PDF's reference, or the try block's error |
| ImageToPdf.ExecuteSubFunction | src/main/java/io/camunda/connector/pdf/imagetopdf/ImageToPdfFunction.java:54-180 | the output's destination is the outcome's reference, or the outcome's error; the one document it opens is closed |
| PdfToImage.BpmnErrorsAsWritten | src/main/java/io/camunda/connector/pdf/pdftoimage/PdfToImageFunction.java:157-165 | declares exactly the storage, document-loading, page-expression and saving helpers' codes and ERROR_DURING_OPERATION |
| PdfToImage.BpmnErrors | src/main/java/io/camunda/connector/pdf/pdftoimage/PdfToImageFunction.java:157-165 | the declared codes with the two codes of the PDF loader the function calls added |
| PdfToImage.ImageVariable | src/main/java/io/camunda/connector/pdf/pdftoimage/PdfToImageFunction.java:93-97 | the image's file variable holds the PNG bytes in the chosen storage and is named `<document>_<page number>.png`, counting pages from 1 |
| PdfToImage.RenderFrom | src/main/java/io/camunda/connector/pdf/pdftoimage/PdfToImageFunction.java:74-106 | the loop from a page on, with the scan as written, stores at most one image per remaining page; failures are INVALID_EXPRESSION, SAVE_ERROR or an unnamed exception |
| PdfToImage.ToImagesSteps | src/main/java/io/camunda/connector/pdf/pdftoimage/PdfToImageFunction.java:55-107 | every failure is one of the helpers' codes or an unnamed exception (pages chosen by the scan as written) |
| PdfToImage.ToImagesOutcome | src/main/java/io/camunda/connector/pdf/pdftoimage/PdfToImageFunction.java:108-113 | succeeds exactly when the try block does |
| PdfToImage.SourceOpenedOnSuccess | src/main/java/io/camunda/connector/pdf/pdftoimage/PdfToImageFunction.java:55-72 | a successful run opened the source; a source refused as encrypted was never assigned |
| PdfToImage.OutcomeCodeDeclared | src/main/java/io/camunda/connector/pdf/pdftoimage/PdfToImageFunction.java:108-113 | every failure is a ConnectorException whose code is among the declared ones once the PDF loader's codes are added |
| PdfToImage.Selection | src/main/java/io/camunda/connector/pdf/pdftoimage/PdfToImageFunction.java:74-80 | the zero-based pages from an index on that `isPageInRange` as written selects, in order; the scan of any page may fail |
| PdfToImage.SelectionExists | src/main/java/io/camunda/connector/pdf/pdftoimage/PdfToImageFunction.java:74-80 | the selection exists exactly when the as-written scan succeeds for every page from the index on |
| PdfToImage.SelectionIsSelected | src/main/java/io/camunda/connector/pdf/pdftoimage/PdfToImageFunction.java:74-80 | the selection holds, strictly increasing and within the document, exactly the pages the as-written scan accepts |
| PdfToImage.SelectionBelowMax | src/main/java/io/camunda/connector/pdf/toolbox/ExtractPageExpression.java:61-64 | when no segment of the expression ends at `Integer.MAX_VALUE`, the pages selected are exactly those the intended range test accepts |
| PdfToImage.FirstSegmentToMaxSelectsAll | src/main/java/io/camunda/connector/pdf/toolbox/ExtractPageExpression.java:61-64 | when the first segment ends at `Integer.MAX_VALUE`, every page from the index on is selected |
| PdfToImage.WrapAroundRendersEveryPage | src/main/java/io/camunda/connector/pdf/toolbox/ExtractPageExpression.java:61-64 | on a three-page document, `5-2147483647` selects pages 1, 2 and 3, none of which the segment contains |
| PdfToImage.PrependIncreasing | src/main/java/io/camunda/connector/pdf/pdftoimage/PdfToImageFunction.java:74-80 | putting the current page (or nothing) in front of later increasing pages keeps them increasing and adds only that page |
| PdfToImage.OneImagePerSelectedPage | src/main/java/io/camunda/connector/pdf/pdftoimage/PdfToImageFunction.java:74-106 | a successful loop stored one image per page the as-written scan selects, in page order, the k-th reference being the repository's answer for the k-th selected page's image; a non-empty selection needs a dpi |
| PdfToImage.StoredImagesPrepend | src/main/java/io/camunda/connector/pdf/pdftoimage/PdfToImageFunction.java:74-106 | the stored image of one more page, put in front, keeps references and pages paired |
| PdfToImage.ImagesLoadBack | src/main/java/io/camunda/connector/pdf/pdftoimage/PdfToImageFunction.java:55-107 | when it succeeds, each returned reference loads back as the PNG of a page that `isPageInRange` as written accepts, named after that page, in the chosen storage |
| PdfToImage.EncryptedSourceRaisesUndeclaredCode | src/main/java/io/camunda/connector/pdf/pdftoimage/PdfToImageFunction.java:64 | an encrypted source fails with ENCRYPTED_PDF_NOT_SUPPORTED, a code missing from the declared list as written |
| PdfToImage.EncryptedCodeDeclaredOnlyWhenAdded | src/main/java/io/camunda/connector/pdf/pdftoimage/PdfToImageFunction.java:157-165 | ENCRYPTED_PDF_NOT_SUPPORTED is declared only once the PDF loader's codes are added |
| PdfToImage.RenderStep | src/main/java/io/camunda/connector/pdf/pdftoimage/PdfToImageFunction.java:74-106 | one turn of the page loop: the loop's result from this page equals its result from the next with this turn's image (if any) stored; a failure is the loop's failure; the single destination is untouched |
| PdfToImage.RenderPages | src/main/java/io/camunda/connector/pdf/pdftoimage/PdfToImageFunction.java:74-106 | the page loop, asking the expression object `isPageInRange` for each page, leaves in the output's list exactly the references the loop computes, or fails with its error; the single destination is untouched |
| PdfToImage.Attempt | src/main/java/io/camunda/connector/pdf/pdftoimage/PdfToImageFunction.java:55-107 | yields a fresh output whose list holds the images' references and no single destination, or the try block's error; the source is handed back exactly when it was loaded and parsed (`PdfToImage.SourceOpened`) |
| PdfToImage.ExecuteSubFunction | src/main/java/io/camunda/connector/pdf/pdftoimage/PdfToImageFunction.java:47-124 | the output's list is the outcome's references, or the outcome's error; on every path it closes the source when the try block opened it, also after a render or save failure; only a source refused as encrypted stays open, and it comes with ENCRYPTED_PDF_NOT_SUPPORTED |
| Watermark.PositionText | src/main/java/io/camunda/connector/pdf/watermark/PdfWatermarkInput.java:34-38 | a null or blank position reads as `CENTER`; any other is returned as it is |
| Watermark.ParsePosition | src/main/java/io/camunda/connector/pdf/toolbox/PdfToolbox.java:150 | succeeds exactly on the three exact, case-sensitive names TOP, CENTER and BOTTOM |
| Watermark.PositionNamesRoundTrip | src/main/java/io/camunda/connector/pdf/toolbox/PdfToolbox.java:150 | a position's name parses back to it, and a name parses only to the position it names |
| Watermark.ColorFromString | src/main/java/io/camunda/connector/pdf/watermark/PdfWatermarkFunction.java:155-183 | a text matching none of the thirteen names, ignoring case, falls through to the system-property lookup |
| Watermark.ColorNamesDistinct | src/main/java/io/camunda/connector/pdf/watermark/PdfWatermarkFunction.java:155-181 | no text matches two colour names ignoring case, so the order of the tests does not matter |
| Watermark.NamedColorAccepted | src/main/java/io/camunda/connector/pdf/watermark/PdfWatermarkFunction.java:155-181 | any spelling of a colour's name, whatever its case, gives that colour |
| Watermark.ChosenColor | src/main/java/io/camunda/connector/pdf/watermark/PdfWatermarkFunction.java:94-102 | gray when no colour is given; otherwise success exactly when the text names a colour, a failure being INVALID_COLOR |
| Watermark.ChosenDegree | src/main/java/io/camunda/connector/pdf/watermark/PdfWatermarkFunction.java:103-106 | strictly between -360 and 360, congruent modulo 360 to the rotation cut to 32 bits, and not negative for a non-negative int rotation |
| Watermark.FullTurnIsNoRotation | src/main/java/io/camunda/connector/pdf/watermark/PdfWatermarkFunction.java:103-106 | a whole number of turns gives degree 0, so the text is placed as an unturned centred text |
| Watermark.Watermarked | src/main/java/io/camunda/connector/pdf/watermark/PdfWatermarkFunction.java:110-112 | succeeds exactly when every page can be drawn on, then gives each page with the overlay added, in order; a failure is an unnamed exception |
| Watermark.WatermarkOutcome | src/main/java/io/camunda/connector/pdf/watermark/PdfWatermarkFunction.java:124-128 | succeeds exactly when the try block does; every failure is OPERATION_ERROR |
| Watermark.SourceOpenedOnSuccess | src/main/java/io/camunda/connector/pdf/watermark/PdfWatermarkFunction.java:61-108 | a successful run opened the source; a source refused as encrypted was never assigned |
| Watermark.WatermarkStoresOverlaidPages | src/main/java/io/camunda/connector/pdf/watermark/PdfWatermarkFunction.java:61-122 | when it succeeds, the stored document loads back with the source's pages, each keeping its content and earlier overlays and gaining last the watermark text in bold Helvetica, in the chosen colour, at the placement of the chosen position and rotation; the file carries the destination file name and the storage resolved from the destination definition or the source's |
| Watermark.LowerCasePositionRejected | src/main/java/io/camunda/connector/pdf/watermark/PdfWatermarkFunction.java:89-90 | the position `center` makes the whole operation fail |
| Watermark.WatermarkPages | src/main/java/io/camunda/connector/pdf/watermark/PdfWatermarkFunction.java:110-112 | the page loop leaves in the document exactly the watermarked pages, or fails with an unnamed exception |
| Watermark.Attempt | src/main/java/io/camunda/connector/pdf/watermark/PdfWatermarkFunction.java:61-122 | computes the try block's steps and hands back the source document, fresh and open, exactly when the steps get as far as parsing it (`Watermark.SourceOpened`); a loaded document is left unassigned exactly when it is refused as encrypted |
| Watermark.Execute | src/main/java/io/camunda/connector/pdf/watermark/PdfWatermarkFunction.java:55-139 | returns the outcome of the whole call; on every path it closes the source when the try block opened it; only a source refused as encrypted stays open |
| Parameters.PdfParameter.constructor | src/main/java/io/camunda/connector/pdf/toolbox/PdfParameter.java:34-46 | the descriptive fields are those given, with no choice and no registered type |
| Parameters.PdfParameter.AddRegisteredType | src/main/java/io/camunda/connector/pdf/toolbox/PdfParameter.java:72-74 | the type is appended, a repeated one included; nothing else changes |
| Parameters.PdfParameter.AddChoice | src/main/java/io/camunda/connector/pdf/toolbox/PdfParameter.java:76-83 | the choice is appended and the same parameter returned |
| Parameters.PdfParameter.GetMap | src/main/java/io/camunda/connector/pdf/toolbox/PdfParameter.java:89-107 | the five descriptive entries and the choice list; the condition is the choice list while no type is registered, else the given field with the registered types as the values that show the parameter |
| Parameters.RegisteredParameterIsConditional | src/main/java/io/camunda/connector/pdf/toolbox/PdfParameter.java:100-103 | a parameter some sub-function registered is shown on the field condition, and that sub-function is among its values |
| Parameters.DeclarationsOf | src/main/java/io/camunda/connector/pdf/toolbox/ParameterToolbox.java:50-56 | one declaration per listed parameter, in order, each tagged with the sub-function's type |
| Parameters.FirstNamed | src/main/java/io/camunda/connector/pdf/toolbox/ParameterToolbox.java:59-61 | finds a listed parameter with the name exactly when one exists |
| Parameters.CountLe | src/main/java/io/camunda/connector/pdf/toolbox/ParameterToolbox.java:66-70 | the count of entries with a priority at most the given one never exceeds the list's length |
| Parameters.Registrant | src/main/java/io/camunda/connector/pdf/toolbox/ParameterToolbox.java:63-77 | the parameter the sub-function is registered with bears the declared name |
| Parameters.CountLeAll | src/main/java/io/camunda/connector/pdf/toolbox/ParameterToolbox.java:66-70 | when every entry's priority is at most the given one, the position is the end of the list |
| Parameters.CountLeSplitsSorted | src/main/java/io/camunda/connector/pdf/toolbox/ParameterToolbox.java:65-71 | in a list sorted by priority, the position splits it: entries before it have at most the priority, entries from it on a greater one |
| Parameters.InsertKeepsSortedUnique | src/main/java/io/camunda/connector/pdf/toolbox/ParameterToolbox.java:71 | inserting a new name at that split keeps the list sorted and free of duplicate names |
| Parameters.CollectMembers | src/main/java/io/camunda/connector/pdf/toolbox/ParameterToolbox.java:56-78 | taking in a declaration keeps every listed parameter and adds at most the declared one |
| Parameters.CollectKeepsOrder | src/main/java/io/camunda/connector/pdf/toolbox/ParameterToolbox.java:56-78 | taking in a declaration keeps the list sorted and unique, leaves it unchanged when the name is listed, and else inserts the parameter after every entry of at most its priority |
| Parameters.CollectAllSortedUnique | src/main/java/io/camunda/connector/pdf/toolbox/ParameterToolbox.java:45-82 | the collected list stays sorted by priority and free of duplicate names |
| Parameters.CollectAllNames | src/main/java/io/camunda/connector/pdf/toolbox/ParameterToolbox.java:45-82 | a name is collected exactly when it was listed to begin with or some declaration bears it |
| Parameters.DeclaredByFrontOrLast | src/main/java/io/camunda/connector/pdf/toolbox/ParameterToolbox.java:45-82 | some declaration bears a name exactly when an earlier one or the last one does |
| Parameters.CollectNames | src/main/java/io/camunda/connector/pdf/toolbox/ParameterToolbox.java:56-78 | taking in a declaration adds its own name and no other |
| Parameters.RegisteredOnlyByDeclarers | src/main/java/io/camunda/connector/pdf/toolbox/ParameterToolbox.java:63-77 | the types registered under a name are not empty exactly when some declaration bears it |
| Parameters.UniqueNamesCount | src/main/java/io/camunda/connector/pdf/toolbox/ParameterToolbox.java:59-63 | without duplicate names, a list has as many entries as names |
| Parameters.CollectAllLength | src/main/java/io/camunda/connector/pdf/toolbox/ParameterToolbox.java:45-82 | the collected list has exactly one entry per distinct name of the start list and of the declarations |
| Parameters.ChoicesFollowRegistry | src/main/java/io/camunda/connector/pdf/toolbox/ParameterToolbox.java:45-51 | the chooser gains a choice exactly for each sub-function whose parameters could be listed, with that function's type and name |
| Parameters.PositionToAdd | src/main/java/io/camunda/connector/pdf/toolbox/ParameterToolbox.java:66-70 | the counting loop yields the number of entries with a priority at most the parameter's |
| Parameters.CollectParameter | src/main/java/io/camunda/connector/pdf/toolbox/ParameterToolbox.java:59-77 | the new list is the collected list, and exactly the registrant gains the sub-function's type |
| Parameters.GetParameters | src/main/java/io/camunda/connector/pdf/toolbox/ParameterToolbox.java:30-90 | a fresh required chooser of priority 0 gains one choice per listable sub-function; the list is every declaration collected (behind the chooser for INPUT); each collected parameter gains the types of the declarations bearing its name, others keep theirs; the result is their maps in list order |
| Parameters.ParameterMaps | src/main/java/io/camunda/connector/pdf/toolbox/ParameterToolbox.java:88 | one map per parameter, in order, with `pdfFunction` as condition field |
| Parameters.CollectFunctions | src/main/java/io/camunda/connector/pdf/toolbox/ParameterToolbox.java:45-82 | the outer loop takes in every declaration of the registry, in order, and gives the chooser its choices |
| Parameters.CollectSubFunction | src/main/java/io/camunda/connector/pdf/toolbox/ParameterToolbox.java:56-78 | the inner loop takes in every parameter one sub-function lists, in order |
| Parameters.CollectStep | src/main/java/io/camunda/connector/pdf/toolbox/ParameterToolbox.java:56-78 | one declaration taken in keeps the collection invariant |
| Parameters.RegisteredAppend | src/main/java/io/camunda/connector/pdf/toolbox/ParameterToolbox.java:64-76 | one more declaration registers its type under its own name only |
| PdfFunction.Cast | src/main/java/io/camunda/connector/pdf/PdfFunction.java:126-134 | the cast to a sub-function fails exactly for the extract-pages and watermark classes |
| PdfFunction.Registry | src/main/java/io/camunda/connector/pdf/PdfFunction.java:123-137 | the classes that cast, in order, at most one per class |
| PdfFunction.RegistryMembers | src/main/java/io/camunda/connector/pdf/PdfFunction.java:123-137 | a sub-function is registered exactly when some class of the list casts to it |
| PdfFunction.RegistryOfAllFunctions | src/main/java/io/camunda/connector/pdf/PdfFunction.java:46-47 | the registry of `allFunctions` is merge, image to PDF and PDF to images, in that order |
| PdfFunction.RegisteredTypesDistinct | src/main/java/io/camunda/connector/pdf/PdfFunction.java:58-64 | no two registered sub-functions share a type |
| PdfFunction.GetListSubFunctions | src/main/java/io/camunda/connector/pdf/PdfFunction.java:123-137 | the instantiation loop yields the registry of `allFunctions` |
| PdfFunction.FirstMatch | src/main/java/io/camunda/connector/pdf/PdfFunction.java:58-64 | the index of the first sub-function whose type equals the request, none exactly when no type equals it (a null request equals none) |
| PdfFunction.ExecuteSubFunction | src/main/java/io/camunda/connector/pdf/PdfFunction.java:60 | the output delivers what the sub-function's outcome produced, or carries its error |
| PdfFunction.Execute | src/main/java/io/camunda/connector/pdf/PdfFunction.java:52-67 | the outcome is the selected sub-function's, unchanged, or UNKNOWN_FUNCTION; exactly the selected sub-function runs, or none |
| PdfFunction.TypeSelectsItsSubFunction | src/main/java/io/camunda/connector/pdf/PdfFunction.java:58-63 | a request runs the registered sub-function of exactly that type and passes its outcome on unchanged |
| PdfFunction.UnknownTypeRejected | src/main/java/io/camunda/connector/pdf/PdfFunction.java:58-65 | a request whose type no registered sub-function has, a null one included, runs nothing and fails with UNKNOWN_FUNCTION |
| PdfFunction.OnlyRegisteredTypesDispatched | src/main/java/io/camunda/connector/pdf/PdfFunction.java:46-65 | exactly the types `merge-pdfs`, `image-to-pdf` and `pdf-to-images` reach a sub-function, compared case-sensitively |
| PdfFunction.ErrorMaps | src/main/java/io/camunda/connector/pdf/PdfFunction.java:91-93 | one error map per sub-function, in order |
| PdfFunction.GatheredKeys | src/main/java/io/camunda/connector/pdf/PdfFunction.java:87-96 | the gathered codes are UNKNOWN_FUNCTION and the codes of every map, and no other |
| PdfFunction.LaterLabelWins | src/main/java/io/camunda/connector/pdf/PdfFunction.java:91-93 | for a code several maps hold, the label of the last of them is kept |
| PdfFunction.UnknownLabelKept | src/main/java/io/camunda/connector/pdf/PdfFunction.java:88-89 | when no map holds UNKNOWN_FUNCTION, its own label is kept |
| PdfFunction.GetListBpmnErrors | src/main/java/io/camunda/connector/pdf/PdfFunction.java:87-96 | the gathered errors of the registry of `allFunctions` |
| PdfFunction.PutAllErrors | src/main/java/io/camunda/connector/pdf/PdfFunction.java:88-95 | the loop gathers UNKNOWN_FUNCTION and then every sub-function's map, each put over the earlier ones |
| PdfFunction.GatheredStep | src/main/java/io/camunda/connector/pdf/PdfFunction.java:91-93 | one more map is put over the gathered ones |
| PdfFunction.SubFunctionCodeDeclared | src/main/java/io/camunda/connector/pdf/PdfFunction.java:60 | every failure of a registered sub-function is a named error among the codes it declares |
| PdfFunction.MergeCodeDeclared | src/main/java/io/camunda/connector/pdf/PdfFunction.java:60 | a failure of the merge is the sub-function's failure and carries a code it declares |
| PdfFunction.ImagesCodeDeclared | src/main/java/io/camunda/connector/pdf/PdfFunction.java:60 | a failure of image to PDF is the sub-function's failure and carries a code it declares |
| PdfFunction.PdfImagesCodeDeclared | src/main/java/io/camunda/connector/pdf/PdfFunction.java:60 | a failure of PDF to images is the sub-function's failure and carries a code it declares, once the PDF loader's codes are added |
| PdfFunction.EveryRaisedCodeDeclared | src/main/java/io/camunda/connector/pdf/PdfFunction.java:52-96 | every failure the connector reports is a named error whose code the connector declares |
| PdfFunction.DeclaredCodeGathered | src/main/java/io/camunda/connector/pdf/PdfFunction.java:91-93 | a code one sub-function declares is among the gathered codes |
| PdfFunction.Descriptions | src/main/java/io/camunda/connector/pdf/PdfFunction.java:71-72 | one description per sub-function, in order |
| PdfFunction.DescriptionSplitsBack | src/main/java/io/camunda/connector/pdf/PdfFunction.java:70-74 | the description starts with its prefix, and when no description holds a comma, splitting the rest on commas gives the descriptions back in order |
| PdfFunction.DescriptionOfRegistry | src/main/java/io/camunda/connector/pdf/PdfFunction.java:70-74 | the connector's description is the prefix, then the merge, image-to-PDF and PDF-to-images descriptions joined by commas |
| PdfFunction.JoinUnrolled | src/main/java/io/camunda/connector/pdf/PdfFunction.java:73 | joining three parts puts the separator between them |
| DocumentationGenerator.Repeat | src/test/java/io/camunda/pdf/DocumentationGenerator.java:199 | n copies of the character |
| DocumentationGenerator.Complete | src/test/java/io/camunda/pdf/DocumentationGenerator.java:195-200 | a value at least the size long comes back unchanged; a shorter one is extended to exactly the size and still starts with the value |
| DocumentationGenerator.CompletePads | src/test/java/io/camunda/pdf/DocumentationGenerator.java:199 | what `complete` adds after the value is the complement only |
| DocumentationGenerator.MaxLength | src/test/java/io/camunda/pdf/DocumentationGenerator.java:155-160 | the longest value the column has among the records holding it, 0 when none does |
| DocumentationGenerator.Width | src/test/java/io/camunda/pdf/DocumentationGenerator.java:154-161 | a column is wider than its header and than every value it holds |
| DocumentationGenerator.Widths | src/test/java/io/camunda/pdf/DocumentationGenerator.java:153-162 | one width per column, in order |
| DocumentationGenerator.Values | src/test/java/io/camunda/pdf/DocumentationGenerator.java:180 | the record's value for each column, in order |
| DocumentationGenerator.FirstIncomplete | src/test/java/io/camunda/pdf/DocumentationGenerator.java:176-184 | the first record lacking a column, before which every record holds them all, or the count of records |
| DocumentationGenerator.RecordLines | src/test/java/io/camunda/pdf/DocumentationGenerator.java:176-184 | one line per record up to the given one |
| DocumentationGenerator.CellsLength | src/test/java/io/camunda/pdf/DocumentationGenerator.java:164-184 | values no longer than their columns make cells as long as the widths, each widened by the lead |
| DocumentationGenerator.CharAt | src/test/java/io/camunda/pdf/DocumentationGenerator.java:179-181 | character k of the lead and value of column i sits at that cell's offset plus k |
| DocumentationGenerator.CellChar | src/test/java/io/camunda/pdf/DocumentationGenerator.java:180 | a cell holds its lead, then its value |
| DocumentationGenerator.AllLinesSameLength | src/test/java/io/camunda/pdf/DocumentationGenerator.java:151-186 | every line of a table, header, separator and records, has the same length: the widths each plus two, and the closing bar |
| DocumentationGenerator.RecordLinesSameLength | src/test/java/io/camunda/pdf/DocumentationGenerator.java:176-184 | every record line has that length |
| DocumentationGenerator.HeaderLength | src/test/java/io/camunda/pdf/DocumentationGenerator.java:164-172 | the header line has that length |
| DocumentationGenerator.SeparatorLength | src/test/java/io/camunda/pdf/DocumentationGenerator.java:164-173 | the separator line has that length |
| DocumentationGenerator.RecordLineLength | src/test/java/io/camunda/pdf/DocumentationGenerator.java:177-183 | a record line has that length |
| DocumentationGenerator.RecordFits | src/test/java/io/camunda/pdf/DocumentationGenerator.java:153-162 | every value of a record fits the width computed over all records |
| DocumentationGenerator.LineLength | src/test/java/io/camunda/pdf/DocumentationGenerator.java:164-183 | a line of fitting values is as long as its cells plus the closing bar |
| DocumentationGenerator.ValueReadsBack | src/test/java/io/camunda/pdf/DocumentationGenerator.java:179-183 | in a record line, the cell of column i holds the bar and a space, then the record's value, character by character |
| DocumentationGenerator.LineReadsBack | src/test/java/io/camunda/pdf/DocumentationGenerator.java:179-183 | in any line, the cell of column i holds the lead, then the value of column i |
| DocumentationGenerator.CellsReadBack | src/test/java/io/camunda/pdf/DocumentationGenerator.java:179-181 | the same, within the cells before the closing bar |
| DocumentationGenerator.SeparatorBarsAndDashes | src/test/java/io/camunda/pdf/DocumentationGenerator.java:168-171 | the separator line holds nothing but bars and dashes |
| DocumentationGenerator.MarkdownFile.constructor | src/test/java/io/camunda/pdf/DocumentationGenerator.java:82-86 | a new file holds no line |
| DocumentationGenerator.MarkdownFile.WriteLine | src/test/java/io/camunda/pdf/DocumentationGenerator.java:82-86 | the line is appended |
| DocumentationGenerator.WriteTable | src/test/java/io/camunda/pdf/DocumentationGenerator.java:151-186 | appends exactly the table's lines: header, separator, then one line per record up to the first record lacking a column, where it fails |
| DocumentationGenerator.WriteRecords | src/test/java/io/camunda/pdf/DocumentationGenerator.java:176-184 | appends the record lines up to the first record lacking a column, and fails exactly when there is one |
| DocumentationGenerator.SizeColumns | src/test/java/io/camunda/pdf/DocumentationGenerator.java:152-162 | each column's width, keyed by its header |
| DocumentationGenerator.HeaderAndSeparator | src/test/java/io/camunda/pdf/DocumentationGenerator.java:164-171 | the loop builds the header and separator lines |
| DocumentationGenerator.WriteRecordLine | src/test/java/io/camunda/pdf/DocumentationGenerator.java:177-182 | the loop builds the record's line, and fails exactly when the record lacks a column |
| DocumentationGenerator.Spaced | src/test/java/io/camunda/pdf/DocumentationGenerator.java:209 | the empty text stays empty, and the first character is kept |
| DocumentationGenerator.AddSpace | src/test/java/io/camunda/pdf/DocumentationGenerator.java:207-210 | null and empty text come back unchanged; otherwise a first `$` or backslash fails; a success keeps the first character, never shortens the text and leaves no upper-case letter after the first character |
| DocumentationGenerator.SpacedLength | src/test/java/io/camunda/pdf/DocumentationGenerator.java:209 | spacing never shortens a text |
| DocumentationGenerator.Unspaced | src/test/java/io/camunda/pdf/DocumentationGenerator.java:209 | the text without spaces has none |
| DocumentationGenerator.SpacedInsertsOnlySpaces | src/test/java/io/camunda/pdf/DocumentationGenerator.java:209 | spaces are the only thing inserted: removing them gives the text without its spaces |
| DocumentationGenerator.UnspacedAppend | src/test/java/io/camunda/pdf/DocumentationGenerator.java:209 | removing spaces distributes over concatenation |
| DocumentationGenerator.AddSpaceIdempotent | src/test/java/io/camunda/pdf/DocumentationGenerator.java:207-210 | applied to its own result, `addSpace` changes nothing |
| DocumentationGenerator.NoBoundaryNoSpace | src/test/java/io/camunda/pdf/DocumentationGenerator.java:209 | a text with no upper-case letter after its first character is not changed by the spacing |
| DocumentationGenerator.SpacedWord | src/test/java/io/camunda/pdf/DocumentationGenerator.java:209 | a run of lower-case letters before an upper-case letter gets exactly one space between them |
| DocumentationGenerator.SpacedStep | src/test/java/io/camunda/pdf/DocumentationGenerator.java:209 | the spacing puts a space after the first character exactly at a lower-upper boundary, then spaces the rest |
| DocumentationGenerator.CamelCaseExample | src/test/java/io/camunda/pdf/DocumentationGenerator.java:202-206 | `ToTest` becomes `To test` |
| Documents.PdfDocument.Open | src/main/java/io/camunda/connector/pdf/sharedfunctions/LoadPdfDocument.java:38 | a loaded document holds the parsed pages and encryption flag and is open |
| Documents.PdfDocument.Empty | src/main/java/io/camunda/connector/pdf/extractpages/PdfExtractPagesFunction.java:79 | a new document has no page, is not encrypted and is open |
| Documents.PdfDocument.GetPage | src/main/java/io/camunda/connector/pdf/extractpages/PdfExtractPagesFunction.java:104 | succeeds exactly for a zero-based index within the pages, giving that page |
| Documents.PdfDocument.AddPage | src/main/java/io/camunda/connector/pdf/extractpages/PdfExtractPagesFunction.java:104 | the page goes after the last one; nothing else changes |
| Documents.PdfDocument.SetPage | src/main/java/io/camunda/connector/pdf/toolbox/PdfToolbox.java:86-147 | drawing over a page replaces that page only |
| Documents.PdfDocument.Close | src/main/java/io/camunda/connector/pdf/extractpages/PdfExtractPagesFunction.java:124-139 | the document is closed and keeps its pages |
| Documents.PdfOutput.constructor | src/main/java/io/camunda/connector/pdf/PdfOutput.java:26-27 | a new output has no destination and an empty list |
| Documents.PdfOutput.AddDestinationFileInList | src/main/java/io/camunda/connector/pdf/PdfOutput.java:29-31 | the reference is appended to the list; the single destination is untouched |
| Platform.CatchAll | src/main/java/io/camunda/connector/pdf/extractpages/PdfExtractPagesFunction.java:121-123 | a success passes unchanged; every failure, named or not, becomes the given code |
| Platform.CatchOther | src/main/java/io/camunda/connector/pdf/mergepdf/PdfMergePdfFunction.java:114-119 | a success and a named error pass unchanged; any other exception becomes the given code |
| Platform.Unexpected | src/main/java/io/camunda/connector/pdf/extractpages/PdfExtractPagesFunction.java:50-51 | a foreign call's value passes; its failure is an exception that is not a ConnectorException |
| PdfToolbox.CopyAllPages | src/main/java/io/camunda/connector/pdf/mergepdf/PdfMergePdfFunction.java:91-95 | the page loop appends every page of the source after the destination's pages, in order |

## Left out

- File storage, PDF parsing, rendering, image decoding and `Color.getColor` are foreign code. Each is a function field of `Platform.Library` that may fail. Their own behaviour is not modelled beyond the laws of `Platform.RoundTrips`.
- `PdfToolbox.getDocumentName` is not part of this model. It is the `documentName` field of the library.
- The floating-point geometry of `addWatermarkText` is not modelled: font size, text width, page box and the rotation matrix. Only the choice between rotated placement and plain offset is kept, as `PdfToolbox.PlacementFor`.
- The content stream drawn by `addWatermarkText` is not modelled. A watermarked page is the original page with one overlay appended.
- Reflection-based construction of sub-functions is replaced by an explicit sequence of optional values. A failed construction is a `None` and is skipped.
- Host binding is left out: `OutboundConnectorContext`, `bindVariables`, the `@OutboundConnector` annotations, the logo and the other `CherryConnector`/`CherryInput` constants.
- Logging and the `System.currentTimeMillis` timing are left out. They change no result.
- Exception messages are not modelled. An exception is its BPMN code, or "some other exception".
- Failures of `close()` in the `finally` blocks are swallowed by every caller. `Documents.PdfDocument.Close` therefore cannot fail.
- The rename block of `SavePdfDocument.savePdfFile` is left out as a filesystem operation on a hard-coded debug directory. Only the way it can throw after the file was stored is modelled (see Findings).
- `PdfParameter.getListRegisteredType` returns the live internal list in Java. In the model the list is a `seq` field, so the aliasing of that list is not captured. The sharing of the parameter objects themselves is captured: `Parameters.GetParameters` works on `PdfParameter` references, and registrations accumulate across calls.
- `MergePdf.BpmnErrors` models `getSubFunctionListBpmnErrors`. `PdfMergePdfFunction.getBpmnErrors`, which returns an empty map, is not modelled.
- `ElementTemplateGenerator` is not part of this model. Neither is the file writing of `DocumentationGenerator.generate`.
- `writeErrors` lists errors in `HashMap` iteration order, which is unspecified. It is not modelled. `DocumentationGenerator.WriteTable` takes its records as a sequence in a given order.
- `DocumentationGenerator.AddSpace`, `Watermark.ColorFromString` and `JavaLang.EqualsIgnoreCaseIffLowerEqual` fold case for ASCII letters only. Java's `toLowerCase`/`equalsIgnoreCase` also fold other Unicode letters.
- `DocumentationGenerator.MaxLength`, `DocumentationGenerator.Width`, `DocumentationGenerator.Complete`, `DocumentationGenerator.AddSpace` and the line-length lemmas treat a string as a sequence of Unicode characters (`|s|`). Java's `String.length()` counts UTF-16 code units, so a character outside the Basic Multilingual Plane counts once here and twice in Java. In `addSpace`, the regex `.` matches such a character as a whole surrogate pair, while `substring(0, 1)` keeps only its high surrogate. The model differs from Java for text outside that plane only.
- `PdfToImage` renders with `isPageInRange` as written (`PageExpression.InRangeAsWritten`), so it keeps the wrap-around of the Findings. `ExtractPages` copies each segment's pages instead, and `ExtractPages.ExtractedPagesAreSelected` relates its result to the range test `PageExpression.InRange`. `PdfToImage.SelectionBelowMax` states that the two agree when no segment ends at `Integer.MAX_VALUE`.
- `JavaLang.ParseInt` accepts ASCII digits only. Java's `Integer.parseInt` also accepts other Unicode decimal digits.
- `DocumentationGenerator.ValueReadsBack` states cell contents element-wise (each cell holds its padded value at its offset) rather than as a slice equality.
- `Watermark.Execute` takes the watermark text as present. A null text, which the library would reject, is not modelled separately.
- `ExtractPages.Attempt` and `MergeDocument.Attempt` leave out the `isEncrypted()` tests after loading (`PdfMergeDocumentFunction.java` lines 83-91 for the latter). The loader has already refused encrypted documents, so those tests can never fire.
- `PdfToolbox.ERROR_DURING_OPERATION` and `PdfToolbox.ERROR_DURING_OPERATION_LABEL` are referenced by the sub-functions, but no file of the repository revision modelled defines them. Their string values, `ERROR_DURING_OPERATION` and `An error occurs during the operation`, are assumed. The model relies only on the code differing from every other code.
- `PdfInputs.NewPdfInput` models the `PdfInput` record without its watermark fields (`waterMark`, `watermarkPosition`, `watermarkRotation`, `watermarkFontHeight`, `watermarkColor`). The watermark operation reads them from its own record, `Watermark.WatermarkInput`, which leaves out the font height with the rest of the text geometry.
- `ImageToPdf.ExecuteSubFunction` reports every failure as ERROR_DURING_OPERATION, as the code does. The named codes it raises internally are re-wrapped by its `catch (Exception)` block, and `ImageToPdf.NoImageNoStorageIsOperationError` states this.
- `PdfFunction.Cast` models the `PdfSubFunction` cast. The extract-pages and watermark classes do not implement that interface, so the registry never dispatches to them. `PdfFunction.Registry` keeps this as written.
- Concurrency is not modelled. The connector has none.

## Findings

| source | as written | input that shows it | evidently intended | confidence | as-written member | corrected member |
|---|---|---|---|---|---|---|
| src/main/java/io/camunda/connector/pdf/toolbox/ExtractPageExpression.java:61-64 | the `int` counter `pageIndex <= lastPage` never fails when `lastPage` is `Integer.MAX_VALUE`; it wraps to `Integer.MIN_VALUE` and meets every page number | expression `5-2147483647`, page 1: answers true | page 1 is outside 5..2147483647, so the answer is false | not executed | PageExpression.WrapAroundSelectsPageOutsideSegment | PageExpression.InRange |
| src/main/java/io/camunda/connector/pdf/sharedfunctions/SavePdfDocument.java:76-91 | after the file is stored, the rename block calls `substring(0, -1)` when the stored key holds neither ` - [` nor `.pdf`; the exception becomes SAVE_ERROR | the repository stores the file under the key `invoice` | the file was stored, so the save succeeds and reports its reference | not executed | SavePdfDocument.StoredFileReportedAsFailure | SavePdfDocument.SavePdfFile |
| src/main/java/io/camunda/connector/pdf/pdftoimage/PdfToImageFunction.java:157-165 | the declared BPMN errors omit the `LoadPdfDocument` codes, although the function loads its source through `LoadPdfDocument` | an encrypted source PDF: raises ENCRYPTED_PDF_NOT_SUPPORTED, which is not declared | every code the function raises is declared | not executed | PdfToImage.EncryptedSourceRaisesUndeclaredCode | PdfToImage.BpmnErrors |
