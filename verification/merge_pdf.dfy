/** `PdfMergePdfFunction` ("merge-pdfs"): concatenates the pages of a list of PDFs, in list
    order, into one new PDF and stores it. */
module MergePdf {
  import opened Wrappers
  import opened JavaLang
  import opened Documents
  import opened Platform
  import opened PdfInputs
  import opened PdfToolbox
  import RetrieveStorageDefinition
  import LoadDocument
  import LoadPdfDocument
  import SavePdfDocument

  const TYPE := "merge-pdfs"
  const NAME := "Merge documents"
  const DESCRIPTION := "Merge two PDFs document in one PDF"
  const NO_DESTINATION := "ERROR_NO_DESTINATION_STORAGE_DEFINITION_DEFINE"
  const NO_DESTINATION_LABEL := "A storage definition must be set to store the result document"

  /** The BPMN errors the function declares: the lists of the shared helpers, merged in
      order, so that a later label replaces an earlier one for the same code. */
  function BpmnErrors(): (m: map<string, string>)
    ensures m.Keys == {LoadDocument.LOAD_ERROR, LoadDocument.LOAD_DOCSOURCE,
                       RetrieveStorageDefinition.NO_DESTINATION, RetrieveStorageDefinition.BAD_STORAGE_DEFINITION,
                       LoadPdfDocument.LOAD_PDF_ERROR, ENCRYPTED_PDF_NOT_SUPPORTED,
                       SavePdfDocument.ERROR_CREATE_FILEVARIABLE, SavePdfDocument.SAVE_ERROR,
                       ERROR_DURING_OPERATION}
  {
    LoadDocument.BpmnErrors() + RetrieveStorageDefinition.BpmnErrors() + LoadPdfDocument.BpmnErrors()
    + SavePdfDocument.BpmnErrors() + map[ERROR_DURING_OPERATION := ERROR_DURING_OPERATION]
    + map[NO_DESTINATION := NO_DESTINATION_LABEL]
  }

  /** The function's own label for a missing destination replaces the storage helper's. */
  lemma NoDestinationLabelReplaced()
    ensures RetrieveStorageDefinition.BpmnErrors()[NO_DESTINATION] != NO_DESTINATION_LABEL
    ensures BpmnErrors()[NO_DESTINATION] == NO_DESTINATION_LABEL
  {
  }

  // ---------------------------------------------------------------- the specification

  /** `FileVariableReference.fromObject` on every element, in order. */
  function References(lib: Library, objects: seq<string>): (r: Result<seq<Option<FileReference>>, Thrown>)
    ensures r.Success? <==> forall i :: 0 <= i < |objects| ==> lib.referenceFromObject(objects[i]).Success?
    ensures r.Success? ==> |r.value| == |objects|
    ensures r.Success? ==> forall i :: 0 <= i < |objects| ==> r.value[i] == lib.referenceFromObject(objects[i]).value
    ensures r.Failure? ==> r.error == OtherException
    decreases |objects|
  {
    if objects == [] then Success([])
    else
      var rest := References(lib, objects[1..]);
      assert forall i :: 1 <= i < |objects| ==> objects[i] == objects[1..][i - 1];
      match lib.referenceFromObject(objects[0])
      case Failure(_) => Failure(OtherException)
      case Success(reference) =>
        if rest.Failure? then rest else Success([reference] + rest.value)
  }

  /** One source: its file variable, then its PDF. */
  function OpenSource(lib: Library, reference: Option<FileReference>): (r: Result<(FileVariable, LoadedPdf), Thrown>)
    ensures r.Success? ==> LoadDocument.LoadDocSourceFromReference(lib, reference) == Success(r.value.0)
    ensures r.Success? ==> ParseDocument(lib, r.value.0.value, LoadPdfDocument.LOAD_PDF_ERROR) == Success(r.value.1)
    ensures r.Failure? ==> r.error in {ConnectorException(LoadDocument.LOAD_DOCSOURCE),
                                       ConnectorException(LoadPdfDocument.LOAD_PDF_ERROR),
                                       ConnectorException(ENCRYPTED_PDF_NOT_SUPPORTED)}
  {
    var docFile :- LoadDocument.LoadDocSourceFromReference(lib, reference);
    var parsed :- ParseDocument(lib, docFile.value, LoadPdfDocument.LOAD_PDF_ERROR);
    Success((docFile, parsed))
  }

  /** The pages merged so far and the storage chosen so far. */
  datatype Merged = Merged(pages: seq<Page>, storage: Option<StorageDefinition>)

  /** The merge loop from some point on: each source is opened, lends its storage when none
      is chosen yet, and has all its pages appended. */
  function MergeFrom(lib: Library, references: seq<Option<FileReference>>, merged: Merged): (r: Result<Merged, Thrown>)
    ensures r.Failure? ==> r.error in {ConnectorException(LoadDocument.LOAD_DOCSOURCE),
                                       ConnectorException(LoadPdfDocument.LOAD_PDF_ERROR),
                                       ConnectorException(ENCRYPTED_PDF_NOT_SUPPORTED)}
    decreases |references|
  {
    if references == [] then Success(merged)
    else
      match OpenSource(lib, references[0])
      case Failure(e) => Failure(e)
      case Success(source) =>
        var storage := if merged.storage.None? then source.0.storageDefinition else merged.storage;
        MergeFrom(lib, references[1..], Merged(merged.pages + source.1.pages, storage))
  }

  /** The `try` block of `executeSubFunction`: the reference of the stored merge. */
  function MergeSteps(lib: Library, input: PdfInput): (r: Result<string, Thrown>)
    ensures r.Failure? ==> r.error in {OtherException, ConnectorException(LoadDocument.LOAD_DOCSOURCE),
                                       ConnectorException(LoadPdfDocument.LOAD_PDF_ERROR),
                                       ConnectorException(ENCRYPTED_PDF_NOT_SUPPORTED),
                                       ConnectorException(RetrieveStorageDefinition.BAD_STORAGE_DEFINITION),
                                       ConnectorException(RetrieveStorageDefinition.NO_DESTINATION),
                                       ConnectorException(NO_DESTINATION),
                                       ConnectorException(SavePdfDocument.SAVE_ERROR)}
  {
    if input.listSourceFile.None? then Failure(OtherException)
    else
      var references :- References(lib, input.listSourceFile.value);
      var storage :- RetrieveStorageDefinition.GetStorageDefinition(lib, input.destinationStorageDefinition, None, false);
      var merged :- MergeFrom(lib, references, Merged([], storage));
      if merged.storage.None? then Failure(ConnectorException(NO_DESTINATION))
      else
        var stored :- SavePdfDocument.StoredReference(lib, merged.pages, input.destinationFileName, merged.storage);
        Success(lib.referenceToJson(stored))
  }

  /** The `try` block gets as far as creating the destination: the list is present, every
      reference decodes and the destination storage is read. */
  predicate DestinationCreated(lib: Library, input: PdfInput)
  {
    input.listSourceFile.Some? && References(lib, input.listSourceFile.value).Success?
    && RetrieveStorageDefinition.GetStorageDefinition(lib, input.destinationStorageDefinition, None, false).Success?
  }

  /** The documents the `try` block opens: the destination, then the sources up to the first
      one that fails to open. */
  function OpenedCount(lib: Library, input: PdfInput): nat
  {
    if DestinationCreated(lib, input) then 1 + OpenedPrefix(lib, References(lib, input.listSourceFile.value).value) else 0
  }

  /** `executeSubFunction`: named errors pass, anything else is ERROR_DURING_OPERATION; every
      code it can raise is one the function declares. */
  function MergeOutcome(lib: Library, input: PdfInput): Result<string, Thrown>
  {
    CatchOther(MergeSteps(lib, input), ERROR_DURING_OPERATION)
  }

  /** Every failure of the sub-function carries a code it declares. */
  lemma OutcomeCodeDeclared(lib: Library, input: PdfInput)
    ensures var r := MergeOutcome(lib, input);
            r.Failure? ==> r.error.ConnectorException? && r.error.code in BpmnErrors().Keys
  {
  }

  // ---------------------------------------------------------------- properties

  /** Every source opens. */
  predicate AllOpen(lib: Library, references: seq<Option<FileReference>>)
  {
    forall i :: 0 <= i < |references| ==> OpenSource(lib, references[i]).Success?
  }

  /** How many sources the loop opens before the first one that fails to open: the
      references before that point all open, and the one at it does not. */
  function OpenedPrefix(lib: Library, references: seq<Option<FileReference>>): (n: nat)
    ensures n <= |references|
    ensures forall i :: 0 <= i < n ==> OpenSource(lib, references[i]).Success?
    ensures n < |references| ==> OpenSource(lib, references[n]).Failure?
    decreases |references|
  {
    if references == [] || OpenSource(lib, references[0]).Failure? then 0
    else
      assert forall i :: 1 <= i < |references| ==> references[1..][i - 1] == references[i];
      1 + OpenedPrefix(lib, references[1..])
  }

  /** Every source opens exactly when the loop gets through the whole list. */
  lemma OpenedPrefixAll(lib: Library, references: seq<Option<FileReference>>)
    ensures AllOpen(lib, references) <==> OpenedPrefix(lib, references) == |references|
  {
  }

  /** The sources' pages one after the other. */
  function AllPages(lib: Library, references: seq<Option<FileReference>>): seq<Page>
    requires AllOpen(lib, references)
    decreases |references|
  {
    if references == [] then []
    else
      assert forall i :: 1 <= i < |references| ==> references[1..][i - 1] == references[i];
      OpenSource(lib, references[0]).value.1.pages + AllPages(lib, references[1..])
  }

  /** The storage of the first source that has one. */
  function FirstStorage(lib: Library, references: seq<Option<FileReference>>): Option<StorageDefinition>
    requires AllOpen(lib, references)
    decreases |references|
  {
    if references == [] then None
    else
      assert forall i :: 1 <= i < |references| ==> references[1..][i - 1] == references[i];
      var here := OpenSource(lib, references[0]).value.0.storageDefinition;
      if here.Some? then here else FirstStorage(lib, references[1..])
  }

  /** The merge succeeds exactly when every source opens; it then holds all their pages, in
      list order, after the pages already merged, and keeps an already chosen storage or
      else takes the first one a source has. */
  lemma {:induction false} MergeConcatenates(lib: Library, references: seq<Option<FileReference>>, merged: Merged)
    ensures MergeFrom(lib, references, merged).Success? <==> AllOpen(lib, references)
    ensures AllOpen(lib, references) ==>
      MergeFrom(lib, references, merged).value.pages == merged.pages + AllPages(lib, references)
    ensures AllOpen(lib, references) ==>
      MergeFrom(lib, references, merged).value.storage
        == (if merged.storage.Some? then merged.storage else FirstStorage(lib, references))
    decreases |references|
  {
    if references != [] {
      var tail := references[1..];
      assert forall i :: 1 <= i < |references| ==> tail[i - 1] == references[i];
      assert AllOpen(lib, references) <==> OpenSource(lib, references[0]).Success? && AllOpen(lib, tail);
      match OpenSource(lib, references[0])
      case Failure(_) =>
      case Success(source) =>
        var storage := if merged.storage.None? then source.0.storageDefinition else merged.storage;
        var next := Merged(merged.pages + source.1.pages, storage);
        MergeConcatenates(lib, tail, next);
        if AllOpen(lib, references) {
          assert merged.pages + source.1.pages + AllPages(lib, tail) == merged.pages + (source.1.pages + AllPages(lib, tail));
        }
    }
  }

  /** With no source and no storage in the input there is nowhere to store the result. */
  lemma EmptyListNeedsStorage(lib: Library, input: PdfInput)
    requires input.listSourceFile == Some([])
    requires NullOrBlank(input.destinationStorageDefinition)
    ensures MergeOutcome(lib, input) == Failure(ConnectorException(NO_DESTINATION))
  {
    RetrieveStorageDefinition.NoOverrideUsesDefault(lib, input.destinationStorageDefinition, None, false);
  }

  /** With a well-behaved library, the stored merge opens as the concatenation of the
      sources' pages. */
  lemma MergeStoresAllPages(lib: Library, input: PdfInput)
    requires RoundTrips(lib)
    requires MergeOutcome(lib, input).Success?
    ensures input.listSourceFile.Some? && References(lib, input.listSourceFile.value).Success?
    ensures AllOpen(lib, References(lib, input.listSourceFile.value).value)
    ensures LoadDocument.LoadDocSource(lib, Some(MergeOutcome(lib, input).value)).Success?
    ensures ParseDocument(lib, LoadDocument.LoadDocSource(lib, Some(MergeOutcome(lib, input).value)).value.value,
                          LoadPdfDocument.LOAD_PDF_ERROR).Success?
    ensures ParseDocument(lib, LoadDocument.LoadDocSource(lib, Some(MergeOutcome(lib, input).value)).value.value,
                          LoadPdfDocument.LOAD_PDF_ERROR).value.pages
            == AllPages(lib, References(lib, input.listSourceFile.value).value)
    ensures RetrieveStorageDefinition.GetStorageDefinition(lib, input.destinationStorageDefinition, None, false).Success?
    ensures var stored := LoadDocument.LoadDocSource(lib, Some(MergeOutcome(lib, input).value)).value;
            var storage := RetrieveStorageDefinition.GetStorageDefinition(lib, input.destinationStorageDefinition, None, false).value;
            stored.name == input.destinationFileName
            && stored.storageDefinition
               == (if storage.Some? then storage else FirstStorage(lib, References(lib, input.listSourceFile.value).value))
  {
    var references := References(lib, input.listSourceFile.value).value;
    var storage := RetrieveStorageDefinition.GetStorageDefinition(lib, input.destinationStorageDefinition, None, false).value;
    MergeConcatenates(lib, references, Merged([], storage));
    var merged := MergeFrom(lib, references, Merged([], storage)).value;
    assert merged.pages == AllPages(lib, references);
    var bytes := lib.savePdf(merged.pages).value;
    var fileVariable := FileVariable(input.destinationFileName, Some(bytes), merged.storage);
    var stored := lib.saveFileVariable(fileVariable).value;
    LoadDocument.StoredVariableLoadsBack(lib, fileVariable, stored);
    assert lib.savePdf(merged.pages) == Success(bytes);
  }

  // ---------------------------------------------------------------- the method

  /** The loop over the references: load each, take its storage when none is chosen,
      open it (it joins the list of sources, closed at the end), and copy its pages. */
  method MergeSources(lib: Library, references: seq<Option<FileReference>>, destination: PdfDocument,
                      storage0: Option<StorageDefinition>)
    returns (r: Result<Option<StorageDefinition>, Thrown>, sources: seq<PdfDocument>, ghost leaked: Option<PdfDocument>)
    requires destination.pages == [] && !destination.closed
    modifies destination
    ensures r.Success? <==> MergeFrom(lib, references, Merged([], storage0)).Success?
    ensures r.Success? ==> destination.pages == MergeFrom(lib, references, Merged([], storage0)).value.pages
    ensures r.Success? ==> r.value == MergeFrom(lib, references, Merged([], storage0)).value.storage
    ensures r.Failure? ==> r.error == MergeFrom(lib, references, Merged([], storage0)).error
    ensures forall s :: s in sources ==> fresh(s) && !s.closed && s != destination
    ensures leaked.Some? ==> fresh(leaked.value) && !leaked.value.closed && leaked.value !in sources
    ensures leaked.Some? ==> leaked.value != destination
    ensures leaked.Some? ==> r == Failure(ConnectorException(ENCRYPTED_PDF_NOT_SUPPORTED))
    ensures !destination.closed
    ensures Distinct(sources)
    ensures r.Success? ==> |sources| == |references|
    ensures |sources| == OpenedPrefix(lib, references)
  {
    sources, leaked := [], None;
    var storage := storage0;
    var i := 0;
    assert references[i..] == references;
    while i < |references|
      invariant 0 <= i <= |references|
      invariant MergeFrom(lib, references, Merged([], storage0)) == MergeFrom(lib, references[i..], Merged(destination.pages, storage))
      invariant forall s :: s in sources ==> fresh(s) && !s.closed && s != destination
      invariant !destination.closed && leaked.None?
      invariant Distinct(sources) && |sources| == i
      invariant forall k :: 0 <= k < i ==> OpenSource(lib, references[k]).Success?
    {
      assert references[i..][0] == references[i] && references[i..][1..] == references[i + 1..];
      var docFile := LoadDocument.LoadDocSourceFromReference(lib, references[i]);
      if docFile.Failure? {
        return Failure(docFile.error), sources, leaked;
      }
      if storage.None? {
        storage := docFile.value.storageDefinition;
      }
      var loadedPdf: Result<PdfDocument, Thrown>;
      loadedPdf, leaked := LoadPdfDocument.LoadPdfDocument(lib, docFile.value);
      if loadedPdf.Failure? {
        return Failure(loadedPdf.error), sources, leaked;
      }
      sources := sources + [loadedPdf.value];
      CopyAllPages(loadedPdf.value, destination);
      i := i + 1;
    }
    r := Success(storage);
  }

  /** The `try` block: the output holding the stored merge's reference, with the documents
      handed back for the `finally` block. */
  method Attempt(lib: Library, input: PdfInput)
    returns (r: Result<PdfOutput, Thrown>, destination: Option<PdfDocument>, sources: seq<PdfDocument>,
             ghost leaked: Option<PdfDocument>)
    ensures r.Success? <==> MergeSteps(lib, input).Success?
    ensures r.Success? ==> fresh(r.value) && r.value.destinationFile == Some(MergeSteps(lib, input).value)
    ensures r.Success? ==> r.value.listDestinationsFile == []
    ensures r.Failure? ==> r.error == MergeSteps(lib, input).error
    ensures destination.Some? ==> fresh(destination.value) && !destination.value.closed
    ensures destination.None? ==> sources == []
    ensures forall s :: s in sources ==> fresh(s) && !s.closed && Some(s) != destination
    ensures leaked.Some? ==> fresh(leaked.value) && !leaked.value.closed && leaked.value !in sources
    ensures leaked.Some? ==> Some(leaked.value) != destination
    ensures leaked.Some? ==> r == Failure(ConnectorException(ENCRYPTED_PDF_NOT_SUPPORTED))
    ensures Distinct(sources)
    ensures r.Success? ==> destination.Some? && |sources| == |input.listSourceFile.value|
    ensures destination.Some? <==> DestinationCreated(lib, input)
    ensures destination.Some? ==> |sources| == OpenedPrefix(lib, References(lib, input.listSourceFile.value).value)
  {
    destination, sources, leaked := None, [], None;
    if input.listSourceFile.None? {
      return Failure(OtherException), destination, sources, leaked;
    }
    var references := References(lib, input.listSourceFile.value);
    if references.Failure? {
      return Failure(references.error), destination, sources, leaked;
    }
    var storage := RetrieveStorageDefinition.GetStorageDefinition(lib, input.destinationStorageDefinition, None, false);
    if storage.Failure? {
      return Failure(storage.error), destination, sources, leaked;
    }
    var dest := new PdfDocument.Empty();
    destination := Some(dest);
    var merged: Result<Option<StorageDefinition>, Thrown>;
    merged, sources, leaked := MergeSources(lib, references.value, dest, storage.value);
    if merged.Failure? {
      return Failure(merged.error), destination, sources, leaked;
    }
    if merged.value.None? {
      return Failure(ConnectorException(NO_DESTINATION)), destination, sources, leaked;
    }
    var output := new PdfOutput();
    r := SavePdfDocument.SavePdfFile(lib, output, dest, input.destinationFileName, merged.value);
  }

  /** The `finally` block's loop over the sources: each one is closed. */
  method CloseSources(sources: seq<PdfDocument>)
    modifies set s | s in sources
    ensures forall s :: s in sources ==> s.closed
  {
    var i := 0;
    while i < |sources|
      invariant 0 <= i <= |sources|
      invariant forall k :: 0 <= k < i ==> sources[k].closed
    {
      sources[i].Close();
      i := i + 1;
    }
  }

  /** `executeSubFunction`: the attempt with its unnamed exceptions reported as
      ERROR_DURING_OPERATION; the `finally` block closes the destination and every source
      opened, when the destination was created (`handles`, the documents it closed). */
  method ExecuteSubFunction(lib: Library, input: PdfInput)
    returns (r: Result<PdfOutput, Thrown>, ghost leaked: Option<PdfDocument>, ghost handles: seq<PdfDocument>)
    ensures r.Success? <==> MergeOutcome(lib, input).Success?
    ensures r.Success? ==> fresh(r.value) && r.value.destinationFile == Some(MergeOutcome(lib, input).value)
    ensures r.Failure? ==> r.error == MergeOutcome(lib, input).error
    ensures leaked.Some? ==> !leaked.value.closed
    ensures leaked.Some? ==> MergeOutcome(lib, input) == Failure(ConnectorException(ENCRYPTED_PDF_NOT_SUPPORTED))
    ensures leaked.Some? ==> leaked.value !in handles
    ensures (forall d :: d in handles ==> fresh(d)) && Distinct(handles) && AllClosed(handles)
    ensures r.Success? ==> |handles| == 1 + |input.listSourceFile.value|
    ensures |handles| == OpenedCount(lib, input)
  {
    var raw: Result<PdfOutput, Thrown>;
    var destination: Option<PdfDocument>;
    var sources: seq<PdfDocument>;
    raw, destination, sources, leaked := Attempt(lib, input);
    handles := [];
    if destination.Some? {
      handles := [destination.value] + sources;
      destination.value.Close();
      CloseSources(sources);
    }
    ghost var steps := MergeSteps(lib, input);
    assert MergeOutcome(lib, input) == CatchOther(steps, ERROR_DURING_OPERATION);
    r := CatchOther(raw, ERROR_DURING_OPERATION);
    if raw.Failure? {
      assert raw.error == steps.error;
    }
  }
}
