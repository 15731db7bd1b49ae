/** `ImageToPdfFunction` ("image-to-pdf"): builds a PDF holding one page per source image,
    each page the size of its image, stores it and returns its reference. */
module ImageToPdf {
  import opened Wrappers
  import opened JavaLang
  import opened Documents
  import opened Platform
  import opened PdfInputs
  import opened PdfToolbox
  import opened RetrieveStorageDefinition
  import LoadDocument
  import SavePdfDocument

  const ACCESS_SOURCE_IMAGE := "ACCESS_SOURCE_IMAGE"
  const DRAW_IMAGE := "DRAW_IMAGE"
  const DEFINITION_ERROR := "DEFINITION_ERROR"
  const TYPE := "image-to-pdf"
  const NAME := "Image(s) to PDF"
  const DESCRIPTION := "From one or a list of image, return a PDF"

  /** The BPMN errors the function declares. */
  function BpmnErrors(): (m: map<string, string>)
    ensures m.Keys == {LoadDocument.LOAD_ERROR, LoadDocument.LOAD_DOCSOURCE, ACCESS_SOURCE_IMAGE, DRAW_IMAGE,
                       NO_DESTINATION, DEFINITION_ERROR, ERROR_DURING_OPERATION}
  {
    LoadDocument.BpmnErrors()
    + map[ACCESS_SOURCE_IMAGE := "Impossible to access a source image"]
    + map[DRAW_IMAGE := "Error during draw the image"]
    + map[NO_DESTINATION := "A storage definition must be set"]
    + map[DEFINITION_ERROR := "Definition error"]
    + map[ERROR_DURING_OPERATION := ERROR_DURING_OPERATION_LABEL]
  }

  // ---------------------------------------------------------------- the specification

  /** Every text of the list decodes (to a reference or to null). */
  predicate AllDecode(lib: Library, texts: seq<string>)
  {
    forall i :: 0 <= i < |texts| ==> lib.referenceFromJson(Some(texts[i])).Success?
  }

  /** The decoded entries of the list, position by position. */
  function Decoded(lib: Library, texts: seq<string>): (r: seq<Option<FileReference>>)
    requires AllDecode(lib, texts)
    ensures |r| == |texts|
    ensures forall i :: 0 <= i < |texts| ==> r[i] == lib.referenceFromJson(Some(texts[i])).value
  {
    seq(|texts|, i requires 0 <= i < |texts| => lib.referenceFromJson(Some(texts[i])).value)
  }

  /** How many entries are not null. */
  function CountPresent<T>(entries: seq<Option<T>>): nat
  {
    if entries == [] then 0 else (if entries[0].Some? then 1 else 0) + CountPresent(entries[1..])
  }

  /** The non-null entries, in order. */
  function Present<T(!new)>(entries: seq<Option<T>>): (r: seq<T>)
    ensures |r| == CountPresent(entries) <= |entries|
    ensures forall x :: x in r <==> Some(x) in entries
  {
    if entries == [] then []
    else
      assert forall x :: Some(x) in entries <==> Some(x) == entries[0] || Some(x) in entries[1..];
      (if entries[0].Some? then [entries[0].value] else []) + Present(entries[1..])
  }

  /** The references of the list, decoded in order: a text that does not decode is
      ACCESS_SOURCE_IMAGE, a null reference is skipped, and a null list is empty. On success
      the result is exactly the non-null decoded entries in input order. */
  function SourceReferences(lib: Library, texts: seq<string>): (r: Result<seq<FileReference>, Thrown>)
    ensures r.Success? <==> AllDecode(lib, texts)
    ensures r.Success? ==> r.value == Present(Decoded(lib, texts))
    ensures r.Success? ==> |r.value| == CountPresent(Decoded(lib, texts)) <= |texts|
    ensures r.Success? ==> forall x :: x in r.value <==> exists i :: 0 <= i < |texts| && lib.referenceFromJson(Some(texts[i])) == Success(Some(x))
    ensures r.Failure? ==> r.error == ConnectorException(ACCESS_SOURCE_IMAGE)
    decreases |texts|
  {
    if texts == [] then Success([])
    else
      assert forall i :: 1 <= i < |texts| ==> texts[1..][i - 1] == texts[i];
      match lib.referenceFromJson(Some(texts[0]))
      case Failure(_) => Failure(ConnectorException(ACCESS_SOURCE_IMAGE))
      case Success(reference) =>
        var rest := SourceReferences(lib, texts[1..]);
        assert rest.Success? ==> Decoded(lib, texts) == [reference] + Decoded(lib, texts[1..]);
        Prepend(if reference.Some? then [reference.value] else [], rest)
  }

  /** One image: its file variable is loaded, its bytes are read as an image, and the image
      is drawn on a new page; a failed drawing is DRAW_IMAGE. */
  function ImageOf(lib: Library, reference: FileReference): (r: Result<(FileVariable, Image), Thrown>)
    ensures r.Success? ==> LoadDocument.LoadDocSourceFromReference(lib, Some(reference)) == Success(r.value.0)
    ensures r.Success? ==> lib.readImage(r.value.0.value.value) == Success(r.value.1) && lib.drawImage(r.value.1)
    ensures r.Failure? ==> r.error in {ConnectorException(LoadDocument.LOAD_DOCSOURCE), OtherException,
                                       ConnectorException(DRAW_IMAGE)}
  {
    var fileVariable :- LoadDocument.LoadDocSourceFromReference(lib, Some(reference));
    var image :- Unexpected(lib.readImage(fileVariable.value.value));
    if !lib.drawImage(image) then Failure(ConnectorException(DRAW_IMAGE)) else Success((fileVariable, image))
  }

  /** The image loop: every reference in order, stopping at the first failure. */
  function ImagesFrom(lib: Library, references: seq<FileReference>): (r: Result<seq<(FileVariable, Image)>, Thrown>)
    ensures r.Failure? ==> r.error in {ConnectorException(LoadDocument.LOAD_DOCSOURCE), OtherException,
                                       ConnectorException(DRAW_IMAGE)}
    decreases |references|
  {
    if references == [] then Success([])
    else
      var first :- ImageOf(lib, references[0]);
      Prepend([first], ImagesFrom(lib, references[1..]))
  }

  /** The page made for an image: the image's size, nothing drawn over it. */
  function PictureOf(image: Image): Page
  {
    Page(Picture(image), [])
  }

  /** The pages of the images, in order. */
  function PagesOf(images: seq<(FileVariable, Image)>): (pages: seq<Page>)
    ensures |pages| == |images|
    ensures forall i :: 0 <= i < |images| ==> pages[i] == PictureOf(images[i].1)
  {
    seq(|images|, i requires 0 <= i < |images| => PictureOf(images[i].1))
  }

  /** The storage of the first image, which plays the part of the default source. */
  function FirstImageStorage(images: seq<(FileVariable, Image)>): Option<StorageDefinition>
  {
    if images == [] then None else images[0].0.storageDefinition
  }

  /** The `try` block of `executeSubFunction`: the reference of the stored PDF. */
  function ImageToPdfSteps(lib: Library, input: PdfInput): Result<string, Thrown>
  {
    var references :- SourceReferences(lib, if input.listSourceFile.None? then [] else input.listSourceFile.value);
    var images :- ImagesFrom(lib, references);
    var storage :- ResolveStorage(lib, input.destinationStorageDefinition, FirstImageStorage(images), DEFINITION_ERROR);
    if storage.None? then Failure(ConnectorException(NO_DESTINATION))
    else
      var stored :- SavePdfDocument.StoredReference(lib, PagesOf(images), input.destinationFileName, storage);
      Success(lib.referenceToJson(stored))
  }

  /** `executeSubFunction`: its `catch (Exception e)` catches the ConnectorExceptions raised in
      the `try` block too, so every failure is ERROR_DURING_OPERATION. */
  function ImageToPdfOutcome(lib: Library, input: PdfInput): (r: Result<string, Thrown>)
    ensures r.Success? <==> ImageToPdfSteps(lib, input).Success?
    ensures r.Failure? ==> r == Failure(ConnectorException(ERROR_DURING_OPERATION))
  {
    CatchAll(ImageToPdfSteps(lib, input), ERROR_DURING_OPERATION)
  }

  /** Every failure of the sub-function carries a code it declares. */
  lemma OutcomeCodeDeclared(lib: Library, input: PdfInput)
    ensures var r := ImageToPdfOutcome(lib, input);
            r.Failure? ==> r.error.ConnectorException? && r.error.code in BpmnErrors().Keys
  {
  }

  // ---------------------------------------------------------------- properties

  /** The image loop succeeds exactly when every image does, and then holds them in order. */
  lemma {:induction false} ImagesInOrder(lib: Library, references: seq<FileReference>)
    ensures ImagesFrom(lib, references).Success? <==> forall i :: 0 <= i < |references| ==> ImageOf(lib, references[i]).Success?
    ensures ImagesFrom(lib, references).Success? ==> |ImagesFrom(lib, references).value| == |references|
    ensures ImagesFrom(lib, references).Success? ==>
      forall i :: 0 <= i < |references| ==> ImagesFrom(lib, references).value[i] == ImageOf(lib, references[i]).value
    decreases |references|
  {
    if references != [] {
      var tail := references[1..];
      ImagesInOrder(lib, tail);
      assert forall i :: 1 <= i < |references| ==> references[i] == tail[i - 1];
    }
  }

  /** Without a null reference, every text of the list gives one reference, in order. */
  lemma {:induction false} ReferencesInOrder(lib: Library, texts: seq<string>)
    requires forall i :: 0 <= i < |texts| ==> lib.referenceFromJson(Some(texts[i])).Success?
    requires forall i :: 0 <= i < |texts| ==> lib.referenceFromJson(Some(texts[i])).value.Some?
    ensures |SourceReferences(lib, texts).value| == |texts|
    ensures forall i :: 0 <= i < |texts| ==> SourceReferences(lib, texts).value[i] == lib.referenceFromJson(Some(texts[i])).value.value
    decreases |texts|
  {
    if texts != [] {
      var tail := texts[1..];
      assert forall i :: 1 <= i < |texts| ==> texts[i] == tail[i - 1];
      ReferencesInOrder(lib, tail);
    }
  }

  /** The named codes the function declares never reach the caller: with no image and no
      storage override the missing storage is reported as ERROR_DURING_OPERATION, not as
      ERROR_NO_DESTINATION_STORAGE_DEFINITION_DEFINE. */
  lemma NoImageNoStorageIsOperationError(lib: Library, input: PdfInput)
    requires input.listSourceFile.None? || input.listSourceFile == Some([])
    requires NullOrBlank(input.destinationStorageDefinition)
    ensures ImageToPdfSteps(lib, input) == Failure(ConnectorException(NO_DESTINATION))
    ensures ImageToPdfOutcome(lib, input) == Failure(ConnectorException(ERROR_DURING_OPERATION))
    ensures NO_DESTINATION in BpmnErrors().Keys
  {
  }

  /** With a well-behaved library, the stored PDF opens as one page per image, in list
      order, each page showing its image. */
  lemma StoredPdfHoldsTheImages(lib: Library, input: PdfInput)
    requires RoundTrips(lib)
    requires ImageToPdfOutcome(lib, input).Success?
    ensures SourceReferences(lib, if input.listSourceFile.None? then [] else input.listSourceFile.value).Success?
    ensures var references := SourceReferences(lib, if input.listSourceFile.None? then [] else input.listSourceFile.value).value;
            (forall i :: 0 <= i < |references| ==> ImageOf(lib, references[i]).Success?)
            && LoadDocument.LoadDocSource(lib, Some(ImageToPdfOutcome(lib, input).value)).Success?
            && ParseDocument(lib, LoadDocument.LoadDocSource(lib, Some(ImageToPdfOutcome(lib, input).value)).value.value, LOAD_ERROR).Success?
            && var pages := ParseDocument(lib, LoadDocument.LoadDocSource(lib, Some(ImageToPdfOutcome(lib, input).value)).value.value, LOAD_ERROR).value.pages;
               |pages| == |references|
               && forall i :: 0 <= i < |references| ==> pages[i] == PictureOf(ImageOf(lib, references[i]).value.1)
    ensures var references := SourceReferences(lib, if input.listSourceFile.None? then [] else input.listSourceFile.value).value;
            var stored := LoadDocument.LoadDocSource(lib, Some(ImageToPdfOutcome(lib, input).value)).value;
            ImagesFrom(lib, references).Success?
            && ResolveStorage(lib, input.destinationStorageDefinition, FirstImageStorage(ImagesFrom(lib, references).value), DEFINITION_ERROR).Success?
            && stored.name == input.destinationFileName
            && stored.storageDefinition
               == ResolveStorage(lib, input.destinationStorageDefinition, FirstImageStorage(ImagesFrom(lib, references).value), DEFINITION_ERROR).value
  {
    var references := SourceReferences(lib, if input.listSourceFile.None? then [] else input.listSourceFile.value).value;
    ImagesInOrder(lib, references);
    var images := ImagesFrom(lib, references).value;
    var storage := ResolveStorage(lib, input.destinationStorageDefinition, FirstImageStorage(images), DEFINITION_ERROR).value;
    var pages := PagesOf(images);
    var bytes := lib.savePdf(pages).value;
    var fileVariable := FileVariable(input.destinationFileName, Some(bytes), storage);
    var stored := lib.saveFileVariable(fileVariable).value;
    assert ImageToPdfOutcome(lib, input).value == lib.referenceToJson(stored);
    LoadDocument.StoredVariableLoadsBack(lib, fileVariable, stored);
    assert lib.savePdf(pages) == Success(bytes);
  }

  // ---------------------------------------------------------------- the method

  /** The loop over the list: decode each text, keep the references that are not null. */
  method DecodeReferences(lib: Library, texts: seq<string>) returns (r: Result<seq<FileReference>, Thrown>)
    ensures r == SourceReferences(lib, texts)
  {
    var listImages: seq<FileReference> := [];
    var i := 0;
    assert texts[0..] == texts;
    assert SourceReferences(lib, texts).Success? ==> [] + SourceReferences(lib, texts).value == SourceReferences(lib, texts).value;
    while i < |texts|
      invariant 0 <= i <= |texts|
      invariant SourceReferences(lib, texts) == Prepend(listImages, SourceReferences(lib, texts[i..]))
    {
      assert texts[i..][0] == texts[i] && texts[i..][1..] == texts[i + 1..];
      var docSourceReference := lib.referenceFromJson(Some(texts[i]));
      if docSourceReference.Failure? {
        return Failure(ConnectorException(ACCESS_SOURCE_IMAGE));
      }
      var added := if docSourceReference.value.Some? then [docSourceReference.value.value] else [];
      PrependAssoc(listImages, added, SourceReferences(lib, texts[i + 1..]));
      listImages := listImages + added;
      i := i + 1;
    }
    assert listImages + [] == listImages;
    r := Success(listImages);
  }

  /** The loop over the images: load each file variable (the first one becomes the default
      source), read the image, add a page of its size to the destination and draw it. */
  method AddImagePages(lib: Library, references: seq<FileReference>, destination: PdfDocument)
    returns (r: Result<Option<FileVariable>, Thrown>)
    requires destination.pages == []
    modifies destination
    ensures r.Success? <==> ImagesFrom(lib, references).Success?
    ensures r.Success? ==> destination.pages == PagesOf(ImagesFrom(lib, references).value)
    ensures r.Success? ==> r.value == (if references == [] then None else Some(ImagesFrom(lib, references).value[0].0))
    ensures r.Failure? ==> r.error == ImagesFrom(lib, references).error
    ensures destination.closed == old(destination.closed)
  {
    ghost var done: seq<(FileVariable, Image)> := [];
    var defaultDocSource: Option<FileVariable> := None;
    var i := 0;
    assert references[0..] == references;
    assert ImagesFrom(lib, references).Success? ==> [] + ImagesFrom(lib, references).value == ImagesFrom(lib, references).value;
    while i < |references|
      invariant 0 <= i <= |references| && |done| == i
      invariant ImagesFrom(lib, references) == Prepend(done, ImagesFrom(lib, references[i..]))
      invariant destination.pages == PagesOf(done)
      invariant defaultDocSource == (if i == 0 then None else Some(done[0].0))
      invariant destination.closed == old(destination.closed)
    {
      assert references[i..][0] == references[i] && references[i..][1..] == references[i + 1..];
      var fileVariable := LoadDocument.LoadDocSourceFromReference(lib, Some(references[i]));
      if fileVariable.Failure? {
        return Failure(fileVariable.error);
      }
      if defaultDocSource.None? {
        defaultDocSource := Some(fileVariable.value);
      }
      var image := lib.readImage(fileVariable.value.value.value);
      if image.Failure? {
        return Failure(OtherException);
      }
      destination.AddPage(PictureOf(image.value));
      if !lib.drawImage(image.value) {
        return Failure(ConnectorException(DRAW_IMAGE));
      }
      PrependAssoc(done, [(fileVariable.value, image.value)], ImagesFrom(lib, references[i + 1..]));
      done := done + [(fileVariable.value, image.value)];
      i := i + 1;
    }
    assert done + [] == done;
    r := Success(defaultDocSource);
  }

  /** The `try` block, on the destination document created before it. */
  method Attempt(lib: Library, input: PdfInput, destination: PdfDocument) returns (r: Result<PdfOutput, Thrown>)
    requires destination.pages == []
    modifies destination
    ensures r.Success? <==> ImageToPdfSteps(lib, input).Success?
    ensures r.Success? ==> fresh(r.value) && r.value.destinationFile == Some(ImageToPdfSteps(lib, input).value)
    ensures r.Success? ==> r.value.listDestinationsFile == []
    ensures r.Failure? ==> r.error == ImageToPdfSteps(lib, input).error
    ensures destination.closed == old(destination.closed)
  {
    var texts := if input.listSourceFile.None? then [] else input.listSourceFile.value;
    var listImages := DecodeReferences(lib, texts);
    if listImages.Failure? {
      return Failure(listImages.error);
    }
    var defaultDocSource := AddImagePages(lib, listImages.value, destination);
    if defaultDocSource.Failure? {
      return Failure(defaultDocSource.error);
    }
    var images := ImagesFrom(lib, listImages.value).value;
    assert DefaultStorage(defaultDocSource.value) == FirstImageStorage(images);
    var storage := ResolveStorage(lib, input.destinationStorageDefinition, DefaultStorage(defaultDocSource.value), DEFINITION_ERROR);
    if storage.Failure? {
      return Failure(storage.error);
    }
    if storage.value.None? {
      return Failure(ConnectorException(NO_DESTINATION));
    }
    var output := new PdfOutput();
    r := SavePdfDocument.SavePdfFile(lib, output, destination, input.destinationFileName, storage.value);
  }

  /** `executeSubFunction`: a new destination document, the attempt with every exception
      reported as ERROR_DURING_OPERATION, and the destination closed in the `finally` block
      on every path (`handles`, the documents it closed). */
  method ExecuteSubFunction(lib: Library, input: PdfInput)
    returns (r: Result<PdfOutput, Thrown>, ghost handles: seq<PdfDocument>)
    ensures r.Success? <==> ImageToPdfOutcome(lib, input).Success?
    ensures r.Success? ==> fresh(r.value) && r.value.destinationFile == Some(ImageToPdfOutcome(lib, input).value)
    ensures r.Failure? ==> r.error == ImageToPdfOutcome(lib, input).error
    ensures |handles| == 1 && fresh(handles[0]) && AllClosed(handles)
  {
    var destinationDocument := new PdfDocument.Empty();
    var raw := Attempt(lib, input, destinationDocument);
    destinationDocument.Close();
    handles := [destinationDocument];
    r := CatchAll(raw, ERROR_DURING_OPERATION);
  }
}
