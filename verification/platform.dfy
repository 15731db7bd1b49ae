/** The code outside the connector that it calls: the file repository, the file-storage
    library, the PDF library and the imaging library. Each call is a function that may fail
    (`Failure(())` stands for "throws"); the bundle of them is a `Library` value every
    operation receives. The module also fixes how exceptions are represented and the two
    shapes of `catch` block the connector uses. */
module Platform {
  import opened Wrappers
  import opened Documents

  /** An exception escaping a connector method: a `ConnectorException` carrying a BPMN error
      code, or any other exception (I/O, null pointer, illegal argument, ...). */
  datatype Thrown = ConnectorException(code: string) | OtherException

  /** The outcome of a foreign call: a value, or an exception. */
  type Call<T> = Result<T, ()>

  datatype Library = Library(
    /** `FileVariableReference.fromJson` on a possibly null text; `None` is a null reference. */
    referenceFromJson: Option<string> -> Call<Option<FileReference>>,
    /** `FileVariableReference.fromObject`. */
    referenceFromObject: string -> Call<Option<FileReference>>,
    /** `FileVariableReference.toJson`. */
    referenceToJson: FileReference -> string,
    /** `FileRepoFactory.loadFileVariable`; `None` is a null file variable. */
    loadFileVariable: Option<FileReference> -> Call<Option<FileVariable>>,
    /** `FileRepoFactory.saveFileVariable`. */
    saveFileVariable: FileVariable -> Call<FileReference>,
    /** `StorageDefinition.getFromString`. */
    storageFromString: string -> Call<Option<StorageDefinition>>,
    /** `StorageDefinition.getFromObject`, given the object's text. */
    storageFromObject: string -> Call<Option<StorageDefinition>>,
    /** `StorageDefinition.getFromStorageDefinition`. */
    storageFromStorageDefinition: string -> Call<Option<StorageDefinition>>,
    /** `PDDocument.load(bytes)`. */
    loadPdf: Content -> Call<LoadedPdf>,
    /** `PDDocument.save` into a byte stream. */
    savePdf: seq<Page> -> Call<Content>,
    /** `PdfToolbox.getDocumentName(fileVariable, true)`: the document's base name. */
    documentName: FileVariable -> string,
    /** `PDFRenderer.renderImageWithDPI` followed by `ImageIO.write(..., "png", ...)`. */
    renderPage: (Page, int) -> Call<Content>,
    /** `ImageIO.read` followed by `JPEGFactory.createFromImage`. */
    readImage: Content -> Call<Image>,
    /** Whether drawing this image over a page of its size succeeds. */
    drawImage: Image -> bool,
    /** Whether drawing this watermark text over this page succeeds. */
    drawText: (Page, Overlay) -> bool,
    /** `java.awt.Color.getColor(name)`; `None` is null. */
    colorFromProperty: string -> Option<Color>)

  /** The laws a well-behaved library keeps: a stored file variable loads back from its
      reference, a reference read back from its JSON text is the same reference, and saved
      pages parse back to the same, unencrypted, pages. */
  ghost predicate RoundTrips(lib: Library)
  {
    (forall v: FileVariable, ref: FileReference {:trigger lib.saveFileVariable(v), lib.loadFileVariable(Some(ref))} ::
       lib.saveFileVariable(v) == Success(ref) ==> lib.loadFileVariable(Some(ref)) == Success(Some(v)))
    && (forall ref: FileReference :: lib.referenceFromJson(Some(lib.referenceToJson(ref))) == Success(Some(ref)))
    && (forall pages: seq<Page>, bytes: Content {:trigger lib.savePdf(pages), lib.loadPdf(bytes)} ::
          lib.savePdf(pages) == Success(bytes) ==>
            lib.loadPdf(bytes).Success? && lib.loadPdf(bytes).value == ParsedPdf(pages, false))
  }

  /** A `catch (Exception e)` that turns every exception into one ConnectorException. */
  function CatchAll<T>(r: Result<T, Thrown>, code: string): (s: Result<T, Thrown>)
    ensures s.Success? <==> r.Success?
    ensures s.Success? ==> s == r
    ensures s.Failure? ==> s.error == ConnectorException(code)
  {
    if r.Success? then r else Failure(ConnectorException(code))
  }

  /** `catch (ConnectorException ce) { throw ce; } catch (Exception e) { throw new
      ConnectorException(code) }`: named errors pass, anything else gets `code`. */
  function CatchOther<T>(r: Result<T, Thrown>, code: string): (s: Result<T, Thrown>)
    ensures s.Success? <==> r.Success?
    ensures s.Success? ==> s == r
    ensures r.Failure? && r.error.ConnectorException? ==> s == r
    ensures r.Failure? && r.error.OtherException? ==> s.error == ConnectorException(code)
  {
    if r.Failure? && r.error.OtherException? then Failure(ConnectorException(code)) else r
  }

  /** A foreign failure seen as a Java exception that is not a ConnectorException. */
  function Unexpected<T>(c: Call<T>): (r: Result<T, Thrown>)
    ensures r.Success? <==> c.Success?
    ensures r.Success? ==> r.value == c.value
    ensures r.Failure? ==> r.error == OtherException
  {
    if c.Success? then Success(c.value) else Failure(OtherException)
  }
}
