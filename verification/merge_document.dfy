/** `PdfMergeDocumentFunction` ("c-pdf-mergepages"): appends the pages of a second PDF after
    the pages of a first one, stores the result and returns its reference. */
module MergeDocument {
  import opened Wrappers
  import opened Documents
  import opened Platform
  import opened PdfToolbox
  import opened RetrieveStorageDefinition
  import LoadDocument
  import SavePdfDocument

  const MERGE_ERROR := "MERGE_ERROR"
  const DEFINITION_ERROR := "DEFINITION_ERROR"
  const TYPE_PDF_MERGEPAGES := "c-pdf-mergepages"
  const NAME := "PDF Merge document"

  /** `PdfMergeDocumentInput`: every field may be null. */
  datatype MergeDocumentInput = MergeDocumentInput(
    sourceFile: Option<string>,
    fileToAdd: Option<string>,
    destinationFileName: Option<string>,
    destinationStorageDefinition: Option<string>)

  /** `fileRepoFactory.loadFileVariable(FileVariableReference.fromJson(text))`: either call may
      throw, and the file variable may be null. */
  function ReadVariable(lib: Library, text: Option<string>): (r: Result<Option<FileVariable>, Thrown>)
    ensures r.Success? <==> lib.referenceFromJson(text).Success?
                            && lib.loadFileVariable(lib.referenceFromJson(text).value).Success?
    ensures r.Success? ==> r.value == lib.loadFileVariable(lib.referenceFromJson(text).value).value
    ensures r.Failure? ==> r.error == OtherException
  {
    var reference :- Unexpected(lib.referenceFromJson(text));
    Unexpected(lib.loadFileVariable(reference))
  }

  /** A file variable the function can work on: present, and holding bytes. */
  predicate Readable(v: Option<FileVariable>)
  {
    v.Some? && v.value.value.Some?
  }

  // ---------------------------------------------------------------- the specification

  /** The `try` block of `execute`. Both file variables are read before either is checked;
      the destination storage is the override, or else the first document's. */
  function MergeDocumentSteps(lib: Library, input: MergeDocumentInput): Result<string, Thrown>
  {
    var docSource :- ReadVariable(lib, input.sourceFile);
    var docFileToAdd :- ReadVariable(lib, input.fileToAdd);
    if !Readable(docSource) || !Readable(docFileToAdd) then Failure(ConnectorException(LOAD_ERROR))
    else
      var storage :- ResolveStorage(lib, input.destinationStorageDefinition, docSource.value.storageDefinition, DEFINITION_ERROR);
      var sourcePdf :- ParseDocument(lib, docSource.value.value, LOAD_ERROR);
      var addedPdf :- ParseDocument(lib, docFileToAdd.value.value, LOAD_ERROR);
      var fileVariable :- SaveOutputPdfDocument(lib, sourcePdf.pages + addedPdf.pages, input.destinationFileName, storage);
      var outputReference :- SavePdfDocument.StoreFile(lib, fileVariable);
      Success(lib.referenceToJson(outputReference))
  }

  /** The `try` block gets as far as opening the first document: both variables read and
      hold content, the storage resolves, and the first PDF parses and is not encrypted. */
  predicate SourceOpened(lib: Library, input: MergeDocumentInput)
  {
    ReadVariable(lib, input.sourceFile).Success? && ReadVariable(lib, input.fileToAdd).Success?
    && Readable(ReadVariable(lib, input.sourceFile).value) && Readable(ReadVariable(lib, input.fileToAdd).value)
    && ResolveStorage(lib, input.destinationStorageDefinition,
                      ReadVariable(lib, input.sourceFile).value.value.storageDefinition, DEFINITION_ERROR).Success?
    && ParseDocument(lib, ReadVariable(lib, input.sourceFile).value.value.value, LOAD_ERROR).Success?
  }

  /** It then opens the second document too, and creates the destination, when that PDF
      parses and is not encrypted. */
  predicate AddedOpened(lib: Library, input: MergeDocumentInput)
  {
    SourceOpened(lib, input)
    && ParseDocument(lib, ReadVariable(lib, input.fileToAdd).value.value.value, LOAD_ERROR).Success?
  }

  /** A successful run opened both documents; a run refused for an encrypted document
      never opened the second one. */
  lemma OpenedOnSuccess(lib: Library, input: MergeDocumentInput)
    ensures MergeDocumentSteps(lib, input).Success? ==> AddedOpened(lib, input)
    ensures MergeDocumentSteps(lib, input) == Failure(ConnectorException(ENCRYPTED_PDF_NOT_SUPPORTED)) ==> !AddedOpened(lib, input)
  {
  }

  /** `execute`: every exception, named or not, is reported as MERGE_ERROR. */
  function MergeDocumentOutcome(lib: Library, input: MergeDocumentInput): (r: Result<string, Thrown>)
    ensures r.Success? <==> MergeDocumentSteps(lib, input).Success?
    ensures r.Failure? ==> r == Failure(ConnectorException(MERGE_ERROR))
  {
    CatchAll(MergeDocumentSteps(lib, input), MERGE_ERROR)
  }

  // ---------------------------------------------------------------- properties

  /** With a well-behaved library, the stored result opens as the first document's pages
      followed by the second document's pages, and the merge needed both to parse. */
  lemma MergeStoresBothDocuments(lib: Library, input: MergeDocumentInput,
                                 docSource: FileVariable, docFileToAdd: FileVariable,
                                 sourcePdf: LoadedPdf, addedPdf: LoadedPdf)
    requires RoundTrips(lib)
    requires ReadVariable(lib, input.sourceFile) == Success(Some(docSource))
    requires ReadVariable(lib, input.fileToAdd) == Success(Some(docFileToAdd))
    requires docSource.value.Some? && lib.loadPdf(docSource.value.value) == Success(sourcePdf)
    requires docFileToAdd.value.Some? && lib.loadPdf(docFileToAdd.value.value) == Success(addedPdf)
    requires MergeDocumentOutcome(lib, input).Success?
    ensures !sourcePdf.encrypted && !addedPdf.encrypted
    ensures LoadDocument.LoadDocSource(lib, Some(MergeDocumentOutcome(lib, input).value)).Success?
    ensures ParseDocument(lib, LoadDocument.LoadDocSource(lib, Some(MergeDocumentOutcome(lib, input).value)).value.value, LOAD_ERROR).Success?
    ensures ParseDocument(lib, LoadDocument.LoadDocSource(lib, Some(MergeDocumentOutcome(lib, input).value)).value.value, LOAD_ERROR).value.pages
            == sourcePdf.pages + addedPdf.pages
    ensures ResolveStorage(lib, input.destinationStorageDefinition, docSource.storageDefinition, DEFINITION_ERROR).Success?
    ensures var stored := LoadDocument.LoadDocSource(lib, Some(MergeDocumentOutcome(lib, input).value)).value;
            stored.name == input.destinationFileName
            && stored.storageDefinition
               == ResolveStorage(lib, input.destinationStorageDefinition, docSource.storageDefinition, DEFINITION_ERROR).value
  {
    var storage := ResolveStorage(lib, input.destinationStorageDefinition, docSource.storageDefinition, DEFINITION_ERROR).value;
    var pages := sourcePdf.pages + addedPdf.pages;
    var fileVariable := SaveOutputPdfDocument(lib, pages, input.destinationFileName, storage).value;
    var outputReference := lib.saveFileVariable(fileVariable).value;
    assert MergeDocumentOutcome(lib, input).value == lib.referenceToJson(outputReference);
    LoadDocument.StoredVariableLoadsBack(lib, fileVariable, outputReference);
    SavedDocumentReloads(lib, pages, input.destinationFileName, storage, LOAD_ERROR);
  }

  /** An encrypted document on either side makes the whole merge fail. */
  lemma EncryptedDocumentRefused(lib: Library, input: MergeDocumentInput, doc: FileVariable)
    requires ReadVariable(lib, input.sourceFile) == Success(Some(doc))
             || ReadVariable(lib, input.fileToAdd) == Success(Some(doc))
    requires doc.value.Some? && lib.loadPdf(doc.value.value).Success? && lib.loadPdf(doc.value.value).value.encrypted
    ensures MergeDocumentOutcome(lib, input) == Failure(ConnectorException(MERGE_ERROR))
  {
    assert ParseDocument(lib, doc.value, LOAD_ERROR).Failure?;
  }

  // ---------------------------------------------------------------- the method

  /** The `try` block: the reference of the stored merge, with the documents handed back for
      the `finally` block. */
  method Attempt(lib: Library, input: MergeDocumentInput)
    returns (r: Result<string, Thrown>, source: Option<PdfDocument>, added: Option<PdfDocument>,
             destination: Option<PdfDocument>, ghost leaked: Option<PdfDocument>)
    ensures r == MergeDocumentSteps(lib, input)
    ensures source.Some? ==> fresh(source.value) && !source.value.closed
    ensures added.Some? ==> fresh(added.value) && !added.value.closed && source.Some? && added != source
    ensures destination.Some? ==> fresh(destination.value) && !destination.value.closed
    ensures destination.Some? ==> destination != source && destination != added
    ensures leaked.Some? <==> r == Failure(ConnectorException(ENCRYPTED_PDF_NOT_SUPPORTED))
    ensures leaked.Some? ==> fresh(leaked.value) && !leaked.value.closed && Some(leaked.value) != source
    ensures leaked.Some? ==> added.None? && destination.None?
    ensures r.Success? ==> source.Some? && added.Some? && destination.Some?
    ensures source.Some? <==> SourceOpened(lib, input)
    ensures added.Some? <==> AddedOpened(lib, input)
    ensures destination.Some? <==> AddedOpened(lib, input)
  {
    source, added, destination, leaked := None, None, None, None;
    var docSource := ReadVariable(lib, input.sourceFile);
    if docSource.Failure? {
      return Failure(docSource.error), source, added, destination, leaked;
    }
    var docFileToAdd := ReadVariable(lib, input.fileToAdd);
    if docFileToAdd.Failure? {
      return Failure(docFileToAdd.error), source, added, destination, leaked;
    }
    if !Readable(docSource.value) || !Readable(docFileToAdd.value) {
      return Failure(ConnectorException(LOAD_ERROR)), source, added, destination, leaked;
    }
    var storage := ResolveStorage(lib, input.destinationStorageDefinition, docSource.value.value.storageDefinition, DEFINITION_ERROR);
    if storage.Failure? {
      return Failure(storage.error), source, added, destination, leaked;
    }
    var loadedPdf: Result<PdfDocument, Thrown>;
    loadedPdf, leaked := PdfToolbox.LoadPdfDocument(lib, docSource.value.value);
    if loadedPdf.Failure? {
      return Failure(loadedPdf.error), source, added, destination, leaked;
    }
    var src := loadedPdf.value;
    source := Some(src);
    loadedPdf, leaked := PdfToolbox.LoadPdfDocument(lib, docFileToAdd.value.value);
    if loadedPdf.Failure? {
      return Failure(loadedPdf.error), source, added, destination, leaked;
    }
    var add := loadedPdf.value;
    added := Some(add);
    var dest := new PdfDocument.Empty();
    destination := Some(dest);
    CopyAllPages(src, dest);
    CopyAllPages(add, dest);
    assert dest.pages == src.pages + add.pages;
    var saved := SaveOutputPdfDocument(lib, dest.pages, input.destinationFileName, storage.value);
    if saved.Failure? {
      return Failure(saved.error), source, added, destination, leaked;
    }
    var outputReference := lib.saveFileVariable(saved.value);
    if outputReference.Failure? {
      return Failure(ConnectorException(SAVE_ERROR)), source, added, destination, leaked;
    }
    r := Success(lib.referenceToJson(outputReference.value));
  }

  /** `execute`: the attempt with every exception reported as MERGE_ERROR, and the `finally`
      block closing whichever of the three documents were opened (`handles`, the documents it
      closed). */
  method Execute(lib: Library, input: MergeDocumentInput)
    returns (r: Result<string, Thrown>, ghost leaked: Option<PdfDocument>, ghost handles: seq<PdfDocument>)
    ensures r == MergeDocumentOutcome(lib, input)
    ensures leaked.Some? ==> r == Failure(ConnectorException(MERGE_ERROR)) && !leaked.value.closed
    ensures leaked.Some? ==> leaked.value !in handles
    ensures (forall d :: d in handles ==> fresh(d)) && Distinct(handles) && AllClosed(handles)
    ensures r.Success? ==> |handles| == 3
    ensures |handles| == if AddedOpened(lib, input) then 3 else if SourceOpened(lib, input) then 1 else 0
  {
    var raw: Result<string, Thrown>;
    var source: Option<PdfDocument>;
    var added: Option<PdfDocument>;
    var destination: Option<PdfDocument>;
    raw, source, added, destination, leaked := Attempt(lib, input);
    handles := [];
    if source.Some? {
      source.value.Close();
      handles := handles + [source.value];
    }
    if added.Some? {
      added.value.Close();
      handles := handles + [added.value];
    }
    if destination.Some? {
      destination.value.Close();
      handles := handles + [destination.value];
    }
    r := CatchAll(raw, MERGE_ERROR);
  }
}
