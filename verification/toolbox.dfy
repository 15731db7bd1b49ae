/** `PdfToolbox`: loading a PDF from a file variable, saving a document into a new file
    variable, and the options and layout choice used to draw a watermark text. */
module PdfToolbox {
  import opened Wrappers
  import opened JavaLang
  import opened Documents
  import opened Platform

  const SAVE_ERROR := "SAVE_ERROR"
  const LOAD_ERROR := "LOAD_ERROR"
  const ENCRYPTED_PDF_NOT_SUPPORTED := "ENCRYPTED_PDF_NOT_SUPPORTED"
  /** The code the operations raise for an exception that carries no code of its own. */
  const ERROR_DURING_OPERATION := "ERROR_DURING_OPERATION"
  const ERROR_DURING_OPERATION_LABEL := "An error occurs during the operation"

  // ---------------------------------------------------------------- loading

  /** What loading a file variable's bytes comes to: the parse must succeed (a null value
      makes it throw) and the document must not be encrypted. A parse failure raises
      `loadErrorCode`; encryption is checked only on a parsed document. */
  function ParseDocument(lib: Library, value: Option<Content>, loadErrorCode: string): (r: Result<LoadedPdf, Thrown>)
    ensures r.Success? <==> value.Some? && lib.loadPdf(value.value).Success? && !lib.loadPdf(value.value).value.encrypted
    ensures r.Success? ==> r.value == lib.loadPdf(value.value).value && !r.value.encrypted
    ensures r.Failure? ==> r.error == ConnectorException(
      if value.Some? && lib.loadPdf(value.value).Success? then ENCRYPTED_PDF_NOT_SUPPORTED else loadErrorCode)
  {
    if value.None? then Failure(ConnectorException(loadErrorCode))
    else match lib.loadPdf(value.value)
      case Failure(_) => Failure(ConnectorException(loadErrorCode))
      case Success(parsed) =>
        if parsed.encrypted then Failure(ConnectorException(ENCRYPTED_PDF_NOT_SUPPORTED)) else Success(parsed)
  }

  /** Opens the document behind a file variable. On an encrypted file the document has
      been opened before the check refuses it, and it is never closed: `leaked` is that
      handle. */
  method OpenDocument(lib: Library, fileVariable: FileVariable, loadErrorCode: string)
    returns (r: Result<PdfDocument, Thrown>, ghost leaked: Option<PdfDocument>)
    requires loadErrorCode != ENCRYPTED_PDF_NOT_SUPPORTED
    ensures r.Success? <==> ParseDocument(lib, fileVariable.value, loadErrorCode).Success?
    ensures r.Success? ==> fresh(r.value) && !r.value.closed && !r.value.encrypted
    ensures r.Success? ==> r.value.pages == ParseDocument(lib, fileVariable.value, loadErrorCode).value.pages
    ensures r.Failure? ==> r.error == ParseDocument(lib, fileVariable.value, loadErrorCode).error
    ensures leaked.Some? <==> r == Failure(ConnectorException(ENCRYPTED_PDF_NOT_SUPPORTED))
    ensures leaked.Some? ==> fresh(leaked.value) && !leaked.value.closed && leaked.value.encrypted
  {
    leaked := None;
    if fileVariable.value.None? {
      return Failure(ConnectorException(loadErrorCode)), leaked;
    }
    var loaded := lib.loadPdf(fileVariable.value.value);
    if loaded.Failure? {
      return Failure(ConnectorException(loadErrorCode)), leaked;
    }
    var document := new PdfDocument.Open(loaded.value);
    if document.encrypted {
      leaked := Some(document);
      return Failure(ConnectorException(ENCRYPTED_PDF_NOT_SUPPORTED)), leaked;
    }
    r := Success(document);
  }

  /** `loadPdfDocument`: LOAD_ERROR when the bytes do not parse, ENCRYPTED_PDF_NOT_SUPPORTED
      for an encrypted document, and otherwise the open document. */
  method LoadPdfDocument(lib: Library, fileVariable: FileVariable)
    returns (r: Result<PdfDocument, Thrown>, ghost leaked: Option<PdfDocument>)
    ensures r.Success? <==> ParseDocument(lib, fileVariable.value, LOAD_ERROR).Success?
    ensures r.Success? ==> fresh(r.value) && !r.value.closed && !r.value.encrypted
    ensures r.Success? ==> r.value.pages == ParseDocument(lib, fileVariable.value, LOAD_ERROR).value.pages
    ensures r.Failure? ==> r.error == ParseDocument(lib, fileVariable.value, LOAD_ERROR).error
    ensures leaked.Some? <==> r == Failure(ConnectorException(ENCRYPTED_PDF_NOT_SUPPORTED))
    ensures leaked.Some? ==> fresh(leaked.value) && !leaked.value.closed
  {
    r, leaked := OpenDocument(lib, fileVariable, LOAD_ERROR);
  }

  // ---------------------------------------------------------------- saving

  /** Serialises pages into a new file variable with the given name and storage; a failure
      to serialise raises `code`. */
  function SaveToVariable(lib: Library, pages: seq<Page>, fileName: Option<string>,
                          storage: Option<StorageDefinition>, code: string): (r: Result<FileVariable, Thrown>)
    ensures r.Success? <==> lib.savePdf(pages).Success?
    ensures r.Success? ==> r.value.name == fileName && r.value.storageDefinition == storage
    ensures r.Success? ==> r.value.value == Some(lib.savePdf(pages).value)
    ensures r.Failure? ==> r.error == ConnectorException(code)
  {
    match lib.savePdf(pages)
    case Success(bytes) => Success(FileVariable(fileName, Some(bytes), storage))
    case Failure(_) => Failure(ConnectorException(code))
  }

  /** `saveOutputPdfDocument`: the document's pages as a file variable, or SAVE_ERROR. */
  function SaveOutputPdfDocument(lib: Library, pages: seq<Page>, fileName: Option<string>,
                                 storage: Option<StorageDefinition>): (r: Result<FileVariable, Thrown>)
    ensures r.Success? <==> lib.savePdf(pages).Success?
    ensures r.Success? ==> r.value.name == fileName && r.value.storageDefinition == storage
    ensures r.Failure? ==> r.error == ConnectorException(SAVE_ERROR)
  {
    SaveToVariable(lib, pages, fileName, storage, SAVE_ERROR)
  }

  /** Saved pages, handed back to the loader, open as the same unencrypted pages. */
  lemma SavedDocumentReloads(lib: Library, pages: seq<Page>, fileName: Option<string>,
                             storage: Option<StorageDefinition>, loadErrorCode: string)
    requires RoundTrips(lib)
    requires SaveOutputPdfDocument(lib, pages, fileName, storage).Success?
    ensures ParseDocument(lib, SaveOutputPdfDocument(lib, pages, fileName, storage).value.value, loadErrorCode).Success?
    ensures ParseDocument(lib, SaveOutputPdfDocument(lib, pages, fileName, storage).value.value, loadErrorCode).value.pages == pages
  {
    var bytes := lib.savePdf(pages).value;
    assert lib.savePdf(pages) == Success(bytes);
    assert lib.loadPdf(bytes).Success? && lib.loadPdf(bytes).value == ParsedPdf(pages, false);
  }

  /** The loop both merge functions write out to copy a whole document:
      `for (pageIndex = 0; pageIndex < getNumberOfPages(); pageIndex++) addPage(getPage(pageIndex))`. */
  method CopyAllPages(source: PdfDocument, destination: PdfDocument)
    requires source != destination
    modifies destination
    ensures destination.pages == old(destination.pages) + source.pages
    ensures destination.closed == old(destination.closed)
  {
    var pageIndex := 0;
    while pageIndex < |source.pages|
      invariant 0 <= pageIndex <= |source.pages|
      invariant destination.pages == old(destination.pages) + source.pages[..pageIndex]
      invariant destination.closed == old(destination.closed)
    {
      var page := source.GetPage(pageIndex);
      assert source.pages[..pageIndex + 1] == source.pages[..pageIndex] + [source.pages[pageIndex]];
      destination.AddPage(page.value);
      pageIndex := pageIndex + 1;
    }
    assert source.pages[..pageIndex] == source.pages;
  }

  // ---------------------------------------------------------------- watermark text

  /** How `addWatermarkText` lays the text out: turned about the page centre only when
      there is a rotation and the position is CENTER, otherwise moved to its line. */
  function PlacementFor(position: TextPosition, degree: int): (p: Placement)
    ensures p.Rotation? <==> degree != 0 && position == CENTER
    ensures p.Rotation? ==> p.degree == degree
    ensures p.Offset? ==> p.position == position
  {
    if degree != 0 && position == CENTER then Rotation(degree) else Offset(position)
  }

  /** A rotation asked for at TOP or BOTTOM is ignored: the text stays on its line. */
  lemma RotationIgnoredOffCentre(position: TextPosition, d1: int, d2: int)
    requires position != CENTER
    ensures PlacementFor(position, d1) == PlacementFor(position, d2) == Offset(position)
  {
  }

  /** The page with one more text drawn over it. */
  function WithOverlay(page: Page, overlay: Overlay): (r: Page)
    ensures r.content == page.content
    ensures r.overlays == page.overlays + [overlay]
  {
    Page(page.content, page.overlays + [overlay])
  }

  /** `WriterOption`: the font, colour, position and rotation a watermark is drawn with.
      Each setter changes its own field and returns the same object. */
  class WriterOption {
    var font: Font
    var color: Color
    var textPosition: TextPosition
    var degree: Int32

    /** `getInstance()`: Helvetica bold, gray, at the top, not rotated. */
    constructor GetInstance()
      ensures font == HelveticaBold && color == Gray && textPosition == TOP && degree == 0
    {
      font := HelveticaBold;
      color := Gray;
      textPosition := TOP;
      degree := 0;
    }

    method SetFont(f: Font) returns (r: WriterOption)
      modifies this
      ensures r == this && font == f
      ensures color == old(color) && textPosition == old(textPosition) && degree == old(degree)
    {
      font := f;
      r := this;
    }

    method SetColor(c: Color) returns (r: WriterOption)
      modifies this
      ensures r == this && color == c
      ensures font == old(font) && textPosition == old(textPosition) && degree == old(degree)
    {
      color := c;
      r := this;
    }

    method SetTextPosition(p: TextPosition) returns (r: WriterOption)
      modifies this
      ensures r == this && textPosition == p
      ensures font == old(font) && color == old(color) && degree == old(degree)
    {
      textPosition := p;
      r := this;
    }

    method SetRotation(d: Int32) returns (r: WriterOption)
      modifies this
      ensures r == this && degree == d
      ensures font == old(font) && color == old(color) && textPosition == old(textPosition)
    {
      degree := d;
      r := this;
    }

    /** The text as these options draw it. */
    function OverlayOf(text: string): (o: Overlay)
      reads this
      ensures o.text == text && o.font == font && o.color == color
      ensures o.placement == PlacementFor(textPosition, degree)
    {
      Overlay(text, font, color, PlacementFor(textPosition, degree))
    }
  }

  /** `addWatermarkText(doc, doc.getPage(index), option, text)`: draws the text over one
      page; a drawing failure is an I/O exception and leaves the page as it was. */
  method AddWatermarkText(lib: Library, doc: PdfDocument, index: nat, option: WriterOption, text: string)
    returns (r: Result<(), Thrown>)
    requires index < |doc.pages|
    modifies doc
    ensures r.Success? <==> lib.drawText(old(doc.pages[index]), option.OverlayOf(text))
    ensures r.Success? ==> doc.pages == old(doc.pages)[index := WithOverlay(old(doc.pages[index]), option.OverlayOf(text))]
    ensures r.Failure? ==> r.error == OtherException && doc.pages == old(doc.pages)
    ensures doc.closed == old(doc.closed)
  {
    var overlay := option.OverlayOf(text);
    var page := doc.pages[index];
    if !lib.drawText(page, overlay) {
      return Failure(OtherException);
    }
    doc.SetPage(index, WithOverlay(page, overlay));
    r := Success(());
  }
}
