/** `SavePdfDocument`: storing a produced PDF, or any file variable, in the file repository
    and recording the reference in the `PdfOutput`. */
module SavePdfDocument {
  import opened Wrappers
  import opened JavaLang
  import opened Documents
  import opened Platform
  import PdfToolbox

  const ERROR_CREATE_FILEVARIABLE := "ERROR_CREATE_FILEVARIABLE"
  const ERROR_CREATE_FILEVARIABLE_LABEL := "Error when reading the PDF to create a fileVariable to save"
  const SAVE_ERROR := "SAVE_ERROR"
  const SAVE_ERROR_LABEL := "An error occurs during the save"

  /** The two steps of `savePdfFile`: serialise the pages into a file variable (a failure is
      ERROR_CREATE_FILEVARIABLE), then store it (the reference's JSON text is the result).
      The outer `catch (Exception e)` reports every failure of either step as SAVE_ERROR. */
  function StoredReference(lib: Library, pages: seq<Page>, fileName: Option<string>,
                           storage: Option<StorageDefinition>): (r: Result<FileReference, Thrown>)
    ensures r.Success? <==> lib.savePdf(pages).Success?
                            && lib.saveFileVariable(FileVariable(fileName, Some(lib.savePdf(pages).value), storage)).Success?
    ensures r.Success? ==> r.value == lib.saveFileVariable(FileVariable(fileName, Some(lib.savePdf(pages).value), storage)).value
    ensures r.Failure? ==> r.error == ConnectorException(SAVE_ERROR)
  {
    var stored: Result<FileReference, Thrown> :=
      match PdfToolbox.SaveToVariable(lib, pages, fileName, storage, ERROR_CREATE_FILEVARIABLE)
      case Failure(e) => Failure(e)
      case Success(fileVariableOut) => Unexpected(lib.saveFileVariable(fileVariableOut));
    CatchAll(stored, SAVE_ERROR)
  }

  /** `savePdfFile`, without the renaming of a local file that follows the store (see
      `SaveOutcomeAsWritten`): on success the output's `destinationFile` is the JSON text of
      the stored reference and the same output object is returned; on failure the output is
      left as it was. */
  method SavePdfFile(lib: Library, pdfOutput: PdfOutput, destinationDocument: PdfDocument,
                     fileName: Option<string>, storage: Option<StorageDefinition>)
    returns (r: Result<PdfOutput, Thrown>)
    modifies pdfOutput
    ensures r.Success? <==> StoredReference(lib, destinationDocument.pages, fileName, storage).Success?
    ensures r.Success? ==> r.value == pdfOutput
    ensures r.Success? ==>
      pdfOutput.destinationFile == Some(lib.referenceToJson(StoredReference(lib, destinationDocument.pages, fileName, storage).value))
    ensures r.Failure? ==> r.error == ConnectorException(SAVE_ERROR)
    ensures r.Failure? ==> pdfOutput.destinationFile == old(pdfOutput.destinationFile)
    ensures pdfOutput.listDestinationsFile == old(pdfOutput.listDestinationsFile)
  {
    var stored := StoredReference(lib, destinationDocument.pages, fileName, storage);
    if stored.Failure? {
      return Failure(stored.error);
    }
    pdfOutput.destinationFile := Some(lib.referenceToJson(stored.value));
    r := Success(pdfOutput);
  }

  /** The file name the rename step computes from the stored reference's key: the part
      before " - [" followed by ".pdf", else the part before ".pdf" followed by ".pdf". When
      the key holds neither, `substring(0, -1)` throws: `None`. */
  function RenamedName(key: string): (r: Option<string>)
    ensures r.None? <==> IndexOfText(key, " - [").None? && IndexOfText(key, ".pdf").None?
    ensures r.Some? ==> |r.value| >= 4 && r.value[|r.value| - 4..] == ".pdf"
  {
    match IndexOfText(key, " - [")
    case Some(index) => Some(key[..index] + ".pdf")
    case None =>
      match IndexOfText(key, ".pdf")
      case Some(index) => Some(key[..index] + ".pdf")
      case None => None
  }

  /** What `savePdfFile` reports as written: the store, then the rename step, whose failure
      is caught like any other and reported as SAVE_ERROR although the file is stored. */
  function SaveOutcomeAsWritten(lib: Library, pages: seq<Page>, fileName: Option<string>,
                                storage: Option<StorageDefinition>): (r: Result<string, Thrown>)
    ensures r.Success? <==> StoredReference(lib, pages, fileName, storage).Success?
                            && RenamedName(StoredReference(lib, pages, fileName, storage).value.content).Some?
    ensures r.Failure? ==> r.error == ConnectorException(SAVE_ERROR)
  {
    match StoredReference(lib, pages, fileName, storage)
    case Failure(e) => Failure(e)
    case Success(reference) =>
      CatchAll(if RenamedName(reference.content).None? then Failure(OtherException)
               else Success(lib.referenceToJson(reference)), SAVE_ERROR)
  }

  /** Where the key names a PDF, the rename step changes nothing the caller sees. */
  lemma AsWrittenAgreesOnPdfKeys(lib: Library, pages: seq<Page>, fileName: Option<string>,
                                 storage: Option<StorageDefinition>)
    requires StoredReference(lib, pages, fileName, storage).Success?
    requires ".pdf" <= StoredReference(lib, pages, fileName, storage).value.content
    ensures SaveOutcomeAsWritten(lib, pages, fileName, storage)
      == Success(lib.referenceToJson(StoredReference(lib, pages, fileName, storage).value))
  {
    var key := StoredReference(lib, pages, fileName, storage).value.content;
    assert OccursAt(key, ".pdf", 0);
  }

  /** A file stored under the key "invoice" is in the repository, yet the save as written
      reports SAVE_ERROR; without the rename step it succeeds. */
  lemma StoredFileReportedAsFailure(lib: Library, pages: seq<Page>, fileName: Option<string>,
                                    storage: Option<StorageDefinition>)
    requires lib.savePdf(pages).Success?
    requires lib.saveFileVariable(FileVariable(fileName, Some(lib.savePdf(pages).value), storage))
             == Success(FileReference("invoice"))
    ensures StoredReference(lib, pages, fileName, storage) == Success(FileReference("invoice"))
    ensures SaveOutcomeAsWritten(lib, pages, fileName, storage) == Failure(ConnectorException(SAVE_ERROR))
  {
    NotFoundWithoutFirstChar("invoice", " - [");
    NotFoundWithoutFirstChar("invoice", ".pdf");
  }

  /** The `try` of `saveFile` as a value: the stored file's reference, or SAVE_ERROR. */
  function StoreFile(lib: Library, fileVariable: FileVariable): (r: Result<FileReference, Thrown>)
    ensures r.Success? <==> lib.saveFileVariable(fileVariable).Success?
    ensures r.Success? ==> lib.saveFileVariable(fileVariable) == Success(r.value)
    ensures r.Failure? ==> r.error == ConnectorException(SAVE_ERROR)
  {
    match lib.saveFileVariable(fileVariable)
    case Success(reference) => Success(reference)
    case Failure(_) => Failure(ConnectorException(SAVE_ERROR))
  }

  /** `saveFile`: stores a file variable and appends its reference's JSON text to the
      output's list; on failure SAVE_ERROR and the list is unchanged. */
  method SaveFile(lib: Library, pdfOutput: PdfOutput, fileVariable: FileVariable) returns (r: Result<(), Thrown>)
    modifies pdfOutput
    ensures r.Success? <==> lib.saveFileVariable(fileVariable).Success?
    ensures r.Success? ==>
      pdfOutput.listDestinationsFile == old(pdfOutput.listDestinationsFile) + [lib.referenceToJson(lib.saveFileVariable(fileVariable).value)]
    ensures r.Failure? ==> r.error == ConnectorException(SAVE_ERROR)
    ensures r.Failure? ==> pdfOutput.listDestinationsFile == old(pdfOutput.listDestinationsFile)
    ensures pdfOutput.destinationFile == old(pdfOutput.destinationFile)
  {
    var saved := lib.saveFileVariable(fileVariable);
    if saved.Failure? {
      return Failure(ConnectorException(SAVE_ERROR));
    }
    pdfOutput.AddDestinationFileInList(lib.referenceToJson(saved.value));
    r := Success(());
  }

  /** `getBpmnErrors`. */
  function BpmnErrors(): (m: map<string, string>)
    ensures m.Keys == {ERROR_CREATE_FILEVARIABLE, SAVE_ERROR}
  {
    map[ERROR_CREATE_FILEVARIABLE := ERROR_CREATE_FILEVARIABLE_LABEL, SAVE_ERROR := SAVE_ERROR_LABEL]
  }
}
