/** `LoadPdfDocument`: opening a PDF from a loaded file variable, with its own error codes. */
module LoadPdfDocument {
  import opened Wrappers
  import opened Documents
  import opened Platform
  import PdfToolbox

  const LOAD_PDF_ERROR := "LOAD_PDF_ERROR"
  const LOAD_PDF_ERROR_LABEL := "Error reading the document - is that a PDF?"
  const ENCRYPTED_PDF_NOT_SUPPORTED := PdfToolbox.ENCRYPTED_PDF_NOT_SUPPORTED
  const ENCRYPTED_PDF_NOT_SUPPORTED_LABEL := "Encrypted PDF is not supported"

  /** `loadPdfDocument`: LOAD_PDF_ERROR when the bytes are missing or do not parse,
      ENCRYPTED_PDF_NOT_SUPPORTED when the parsed document is encrypted (that document stays
      open: `leaked`), and otherwise the open document with the parsed pages. */
  method LoadPdfDocument(lib: Library, sourceFileVariable: FileVariable)
    returns (r: Result<PdfDocument, Thrown>, ghost leaked: Option<PdfDocument>)
    ensures r.Success? <==> PdfToolbox.ParseDocument(lib, sourceFileVariable.value, LOAD_PDF_ERROR).Success?
    ensures r.Success? ==> fresh(r.value) && !r.value.closed && !r.value.encrypted
    ensures r.Success? ==> r.value.pages == PdfToolbox.ParseDocument(lib, sourceFileVariable.value, LOAD_PDF_ERROR).value.pages
    ensures r.Failure? ==> r.error in {ConnectorException(LOAD_PDF_ERROR), ConnectorException(ENCRYPTED_PDF_NOT_SUPPORTED)}
    ensures r.Failure? ==> r.error == PdfToolbox.ParseDocument(lib, sourceFileVariable.value, LOAD_PDF_ERROR).error
    ensures leaked.Some? <==> r == Failure(ConnectorException(ENCRYPTED_PDF_NOT_SUPPORTED))
    ensures leaked.Some? ==> fresh(leaked.value) && !leaked.value.closed
  {
    r, leaked := PdfToolbox.OpenDocument(lib, sourceFileVariable, LOAD_PDF_ERROR);
  }

  /** `getBpmnErrors`. */
  function BpmnErrors(): (m: map<string, string>)
    ensures m.Keys == {LOAD_PDF_ERROR, ENCRYPTED_PDF_NOT_SUPPORTED}
  {
    map[LOAD_PDF_ERROR := LOAD_PDF_ERROR_LABEL, ENCRYPTED_PDF_NOT_SUPPORTED := ENCRYPTED_PDF_NOT_SUPPORTED_LABEL]
  }
}
