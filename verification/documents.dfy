/** The values and objects the connector moves around: storage definitions, file variables and
    their references, PDF pages, and the two objects it updates in place — an open PDF document
    (a PDFBox `PDDocument`) and the result holder `PdfOutput`. */
module Documents {
  import opened Wrappers
  import JavaLang

  /** Where and how a file is stored (the filestorage library's `StorageDefinition`). Only the
      two fields the connector assigns itself are spelled out. */
  datatype StorageDefinition = StorageDefinition(
    kind: string,
    complement: Option<string>,
    complementInObject: Option<string>)

  type Content = seq<bv8>

  /** A file as the file repository hands it over: a name, the bytes (possibly absent) and the
      storage it came from or goes to (possibly absent). */
  datatype FileVariable = FileVariable(
    name: Option<string>,
    value: Option<Content>,
    storageDefinition: Option<StorageDefinition>)

  /** The handle under which the file repository stores a file variable; `content` is its
      storage key as text (`content.toString()`). */
  datatype FileReference = FileReference(content: string)

  // ---------------------------------------------------------------- pages

  datatype Color =
    | Red | Green | Black | Blue | Cyan | Gray | DarkGray | LightGray
    | Magenta | Orange | Pink | White | Yellow
    | SystemColor(rgb: int)

  datatype TextPosition = TOP | CENTER | BOTTOM

  datatype Font = HelveticaBold

  /** How a watermark text is laid out: moved to the top, centre or bottom line of the page,
      or turned by `degree` degrees about the page centre. */
  datatype Placement = Offset(position: TextPosition) | Rotation(degree: int)

  /** One piece of text drawn over a page. */
  datatype Overlay = Overlay(text: string, font: Font, color: Color, placement: Placement)

  datatype Image = Image(id: nat, width: int, height: int)

  /** What a page shows underneath any watermark: a page of a loaded PDF, identified by
      `id`, or a page made to hold one image, its media box the image's size. */
  datatype PageContent = Original(id: nat) | Picture(image: Image)

  /** A page and the texts drawn over it, in drawing order. */
  datatype Page = Page(content: PageContent, overlays: seq<Overlay>)

  /** What the PDF library reads from a file's bytes. A page count is a Java `int`. */
  datatype ParsedPdf = ParsedPdf(pages: seq<Page>, encrypted: bool)

  predicate PageCountFits(pages: seq<Page>) { |pages| <= JavaLang.INT_MAX }

  type LoadedPdf = p: ParsedPdf | PageCountFits(p.pages) witness ParsedPdf([], false)

  // ---------------------------------------------------------------- an open PDF document

  /** An open `PDDocument`: its pages, whether the file was encrypted, and whether it has
      been closed. */
  class PdfDocument {
    var pages: seq<Page>
    const encrypted: bool
    var closed: bool

    /** `PDDocument.load`: a document holding the parsed pages. */
    constructor Open(parsed: ParsedPdf)
      ensures pages == parsed.pages && encrypted == parsed.encrypted && !closed
    {
      pages := parsed.pages;
      encrypted := parsed.encrypted;
      closed := false;
    }

    /** `new PDDocument()`: an empty, unencrypted document. */
    constructor Empty()
      ensures pages == [] && !encrypted && !closed
    {
      pages := [];
      encrypted := false;
      closed := false;
    }

    /** `getPage(index)`: the page at a zero-based index; any other index throws. */
    method GetPage(index: int) returns (r: Result<Page, ()>)
      ensures r.Success? <==> 0 <= index < |pages|
      ensures r.Success? ==> r.value == pages[index]
    {
      if 0 <= index < |pages| {
        r := Success(pages[index]);
      } else {
        r := Failure(());
      }
    }

    /** `addPage(page)`: the page goes after the last one. */
    method AddPage(page: Page)
      modifies this
      ensures pages == old(pages) + [page]
      ensures closed == old(closed)
    {
      pages := pages + [page];
    }

    /** Replaces one page; this is what drawing over a page in place does to the document. */
    method SetPage(index: nat, page: Page)
      requires index < |pages|
      modifies this
      ensures pages == old(pages)[index := page]
      ensures closed == old(closed)
    {
      pages := pages[index := page];
    }

    /** `close()`. A failure to close is swallowed by every caller, so it is not modelled. */
    method Close()
      modifies this
      ensures closed && pages == old(pages)
    {
      closed := true;
    }
  }

  /** No document appears twice. */
  predicate Distinct(docs: seq<PdfDocument>)
  {
    forall j, k :: 0 <= j < k < |docs| ==> docs[j] != docs[k]
  }

  /** Every document of `docs` has been closed. */
  predicate AllClosed(docs: seq<PdfDocument>)
    reads set d | d in docs
  {
    forall d :: d in docs ==> d.closed
  }

  // ---------------------------------------------------------------- the result holder

  /** `PdfOutput`: the reference of one produced file, or a list of references. */
  class PdfOutput {
    var destinationFile: Option<string>
    var listDestinationsFile: seq<string>

    constructor ()
      ensures destinationFile.None? && listDestinationsFile == []
    {
      destinationFile := None;
      listDestinationsFile := [];
    }

    /** `addDestinationFileInList`: appends one reference. */
    method AddDestinationFileInList(reference: string)
      modifies this
      ensures listDestinationsFile == old(listDestinationsFile) + [reference]
      ensures destinationFile == old(destinationFile)
    {
      listDestinationsFile := listDestinationsFile + [reference];
    }
  }
}
