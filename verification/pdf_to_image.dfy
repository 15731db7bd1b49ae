/** `PdfToImageFunction` ("pdf-to-images"): renders every page a page expression selects as a
    PNG image, stores each image as a file and returns the list of their references. */
module PdfToImage {
  import opened Wrappers
  import opened JavaLang
  import opened Documents
  import opened Platform
  import opened PdfInputs
  import opened PageExpression
  import opened PdfToolbox
  import RetrieveStorageDefinition
  import LoadDocument
  import LoadPdfDocument
  import SavePdfDocument

  const TYPE := "pdf-to-images"
  const NAME := "Pdf To Images"
  const DESCRIPTION := "Return a list of images, one per page"

  /** The BPMN errors the function declares, as written: the lists of the storage, loading,
      page-expression and saving helpers and ERROR_DURING_OPERATION. */
  function BpmnErrorsAsWritten(): (m: map<string, string>)
    ensures m.Keys == {RetrieveStorageDefinition.NO_DESTINATION, RetrieveStorageDefinition.BAD_STORAGE_DEFINITION,
                       LoadDocument.LOAD_ERROR, LoadDocument.LOAD_DOCSOURCE, INVALID_EXPRESSION,
                       SavePdfDocument.ERROR_CREATE_FILEVARIABLE, SavePdfDocument.SAVE_ERROR,
                       ERROR_DURING_OPERATION}
  {
    RetrieveStorageDefinition.BpmnErrors() + LoadDocument.BpmnErrors() + BpmnErrorExtractExpression()
    + SavePdfDocument.BpmnErrors() + map[ERROR_DURING_OPERATION := ERROR_DURING_OPERATION_LABEL]
  }

  /** The declared errors with the list of `loadPdfDocument`, which the function calls, added
      as the other functions that call it do. */
  function BpmnErrors(): (m: map<string, string>)
    ensures m.Keys == BpmnErrorsAsWritten().Keys + {LoadPdfDocument.LOAD_PDF_ERROR, ENCRYPTED_PDF_NOT_SUPPORTED}
  {
    RetrieveStorageDefinition.BpmnErrors() + LoadDocument.BpmnErrors() + LoadPdfDocument.BpmnErrors()
    + BpmnErrorExtractExpression() + SavePdfDocument.BpmnErrors()
    + map[ERROR_DURING_OPERATION := ERROR_DURING_OPERATION_LABEL]
  }

  // ---------------------------------------------------------------- the specification

  /** The file variable of the image of page `index` (zero-based): named after the source
      document and the page number, `<name>_<index + 1>.png`. */
  function ImageVariable(documentName: string, index: nat, image: Content,
                         storage: Option<StorageDefinition>): (v: FileVariable)
    ensures v.value == Some(image) && v.storageDefinition == storage
    ensures v.name == Some(documentName + "_" + NatToString(index + 1) + ".png")
  {
    FileVariable(Some(documentName + "_" + NatToString(index + 1) + ".png"), Some(image), storage)
  }

  /** What the page loop produces from page `index` on: a page the expression does not
      select is skipped; a selected page is rendered at `dpi` (a null `dpi` cannot be
      unboxed), stored, and its reference appended. The expression is read page by page, so
      a malformed segment fails only once a page reaches it. */
  function RenderFrom(lib: Library, pages: seq<Page>, tokens: seq<string>, index: nat, documentName: string,
                      storage: Option<StorageDefinition>, dpi: Option<int>): (r: Result<seq<string>, Thrown>)
    requires index <= |pages|
    ensures r.Success? ==> |r.value| <= |pages| - index
    ensures r.Failure? ==> r.error in {ConnectorException(INVALID_EXPRESSION), OtherException,
                                       ConnectorException(SavePdfDocument.SAVE_ERROR)}
    decreases |pages| - index
  {
    if index == |pages| then Success([])
    else
      var inRange :- ScanOfPage(tokens, index);
      if !inRange then RenderFrom(lib, pages, tokens, index + 1, documentName, storage, dpi)
      else if dpi.None? then Failure(OtherException)
      else
        var image :- Unexpected(lib.renderPage(pages[index], dpi.value));
        var stored :- SavePdfDocument.StoreFile(lib, ImageVariable(documentName, index, image, storage));
        Prepend([lib.referenceToJson(stored)], RenderFrom(lib, pages, tokens, index + 1, documentName, storage, dpi))
  }

  /** The `try` block of `executeSubFunction`: the references of the stored images. */
  function ToImagesSteps(lib: Library, input: PdfInput): (r: Result<seq<string>, Thrown>)
    ensures r.Failure? ==> r.error in {OtherException, ConnectorException(LoadDocument.LOAD_DOCSOURCE),
                                       ConnectorException(RetrieveStorageDefinition.BAD_STORAGE_DEFINITION),
                                       ConnectorException(RetrieveStorageDefinition.NO_DESTINATION),
                                       ConnectorException(LoadPdfDocument.LOAD_PDF_ERROR),
                                       ConnectorException(ENCRYPTED_PDF_NOT_SUPPORTED),
                                       ConnectorException(INVALID_EXPRESSION),
                                       ConnectorException(SavePdfDocument.SAVE_ERROR)}
  {
    var docSource :- LoadDocument.LoadDocSource(lib, input.sourceFile);
    var storage :- RetrieveStorageDefinition.GetStorageDefinition(lib, input.destinationStorageDefinition, Some(docSource), true);
    var parsed :- ParseDocument(lib, docSource.value, LoadPdfDocument.LOAD_PDF_ERROR);
    var tokens := Tokens(ExtractExpressionOrDefault(input.extractExpression), |parsed.pages|);
    RenderFrom(lib, parsed.pages, tokens, 0, lib.documentName(docSource), storage, input.dpi)
  }

  /** The `try` block gets as far as opening the source: the document source loads, the
      storage is found, and the PDF parses and is not encrypted. */
  predicate SourceOpened(lib: Library, input: PdfInput)
  {
    LoadDocument.LoadDocSource(lib, input.sourceFile).Success?
    && RetrieveStorageDefinition.GetStorageDefinition(lib, input.destinationStorageDefinition,
                                                      Some(LoadDocument.LoadDocSource(lib, input.sourceFile).value), true).Success?
    && ParseDocument(lib, LoadDocument.LoadDocSource(lib, input.sourceFile).value.value, LoadPdfDocument.LOAD_PDF_ERROR).Success?
  }

  /** A successful run opened the source; a source refused as encrypted was never opened. */
  lemma SourceOpenedOnSuccess(lib: Library, input: PdfInput)
    ensures ToImagesSteps(lib, input).Success? ==> SourceOpened(lib, input)
    ensures ToImagesSteps(lib, input) == Failure(ConnectorException(ENCRYPTED_PDF_NOT_SUPPORTED)) ==> !SourceOpened(lib, input)
  {
  }

  /** `executeSubFunction`: named errors pass, anything else is ERROR_DURING_OPERATION; every
      code it raises is among the declared ones once `loadPdfDocument`'s are added. */
  function ToImagesOutcome(lib: Library, input: PdfInput): (r: Result<seq<string>, Thrown>)
    ensures r.Success? <==> ToImagesSteps(lib, input).Success?
  {
    CatchOther(ToImagesSteps(lib, input), ERROR_DURING_OPERATION)
  }

  /** Every failure of the sub-function carries a code it declares. */
  lemma OutcomeCodeDeclared(lib: Library, input: PdfInput)
    ensures var r := ToImagesOutcome(lib, input);
            r.Failure? ==> r.error.ConnectorException? && r.error.code in BpmnErrors().Keys
  {
  }

  // ---------------------------------------------------------------- properties

  /** The scan for the page at zero-based `index`: `isPageInRange(index + 1)` as written, with
      its counting loop that wraps at `Integer.MAX_VALUE`. */
  function ScanOfPage(tokens: seq<string>, index: int): Result<bool, Thrown>
  {
    InRangeAsWritten(tokens, index + 1)
  }

  /** The pages from `index` on that the expression selects, zero-based and in order; the
      scan of any page may fail. */
  function Selection(tokens: seq<string>, count: nat, index: nat): (r: Result<seq<nat>, Thrown>)
    requires index <= count
    decreases count - index
  {
    if index == count then Success([])
    else
      var inRange :- ScanOfPage(tokens, index);
      Prepend(if inRange then [index] else [], Selection(tokens, count, index + 1))
  }

  /** The selection exists exactly when the scan succeeds for every page from `index` on. */
  lemma {:induction false} SelectionExists(tokens: seq<string>, count: nat, index: nat)
    requires index <= count
    ensures Selection(tokens, count, index).Success? <==> forall p :: index <= p < count ==> ScanOfPage(tokens, p).Success?
    decreases count - index
  {
    if index < count {
      SelectionExists(tokens, count, index + 1);
    }
  }

  /** The selection holds, in increasing order, exactly the pages from `index` on that the
      expression selects. */
  lemma {:induction false} SelectionIsSelected(tokens: seq<string>, count: nat, index: nat)
    requires index <= count
    requires Selection(tokens, count, index).Success?
    ensures forall p :: index <= p < count ==> (p in Selection(tokens, count, index).value <==> ScanOfPage(tokens, p) == Success(true))
    ensures forall k :: 0 <= k < |Selection(tokens, count, index).value| ==> index <= Selection(tokens, count, index).value[k] < count
    ensures forall j, k :: 0 <= j < k < |Selection(tokens, count, index).value| ==>
      Selection(tokens, count, index).value[j] < Selection(tokens, count, index).value[k]
    decreases count - index
  {
    if index < count {
      var here := ScanOfPage(tokens, index).value;
      var rest := Selection(tokens, count, index + 1).value;
      SelectionIsSelected(tokens, count, index + 1);
      var sel := Selection(tokens, count, index).value;
      assert sel == (if here then [index] else []) + rest;
      PrependIncreasing(index, count, here, rest, sel);
    }
  }

  /** When no segment runs up to `Integer.MAX_VALUE`, the selection holds exactly the pages
      the expression contains, as intended. */
  lemma SelectionBelowMax(tokens: seq<string>, count: nat)
    requires forall i :: 0 <= i < |tokens| && ParseSegment(tokens[i]).Some? ==>
      ParseSegment(tokens[i]).value.last < INT_MAX
    requires Selection(tokens, count, 0).Success?
    ensures forall p :: 0 <= p < count ==>
      (p in Selection(tokens, count, 0).value <==> InRange(tokens, p + 1) == Success(true))
  {
    SelectionIsSelected(tokens, count, 0);
    forall page | 1 <= page <= count
      ensures InRangeAsWritten(tokens, page) == InRange(tokens, page)
    {
      AsWrittenAgreesBelowMax(tokens, page);
    }
  }

  /** A segment running up to `Integer.MAX_VALUE` selects every page, those before it too:
      on a three-page document, `5-2147483647` renders pages 1, 2 and 3 although none of
      them is in the segment. */
  lemma WrapAroundRendersEveryPage()
    ensures Selection(["5-2147483647"], 3, 0) == Success([0, 1, 2])
    ensures forall page :: 1 <= page <= 3 ==> InRange(["5-2147483647"], page) == Success(false)
  {
    var tokens := ["5-2147483647"];
    WrapAroundSegment(tokens);
    forall page | 1 <= page <= 3
      ensures InRange(tokens, page) == Success(false)
    {
      InRangeOfOne(tokens, page);
    }
    FirstSegmentToMaxSelectsAll(tokens, 3, 0);
    assert seq(3, k => 0 + k) == [0, 1, 2];
  }

  lemma WrapAroundSegment(tokens: seq<string>)
    requires tokens == ["5-2147483647"]
    ensures ParseSegment(tokens[0]) == Some(Segment(5, INT_MAX))
  {
    WrapAroundToken();
    SegmentOfNumbers(5, INT_MAX);
  }

  /** When the first segment runs up to `Integer.MAX_VALUE`, its counting loop meets every
      page, so every page from `index` on is selected, in order. */
  lemma {:induction false} FirstSegmentToMaxSelectsAll(tokens: seq<string>, count: nat, index: nat)
    requires tokens != [] && ParseSegment(tokens[0]).Some? && ParseSegment(tokens[0]).value.last == INT_MAX
    requires index <= count
    ensures Selection(tokens, count, index) == Success(seq(count - index, k => index + k))
    decreases count - index
  {
    if index == count {
      assert seq(count - index, k => index + k) == [];
    } else {
      FirstSegmentToMaxSelectsAll(tokens, count, index + 1);
      ScanAtMax(tokens, index);
      assert Selection(tokens, count, index) == Prepend([index], Selection(tokens, count, index + 1));
      RunFrom(index, count);
    }
  }

  lemma ScanAtMax(tokens: seq<string>, index: int)
    requires tokens != [] && ParseSegment(tokens[0]).Some? && ParseSegment(tokens[0]).value.last == INT_MAX
    ensures ScanOfPage(tokens, index) == Success(true)
  {
  }

  lemma RunFrom(index: nat, count: nat)
    requires index < count
    ensures [index] + seq(count - (index + 1), k => index + 1 + k) == seq(count - index, k => index + k)
  {
  }

  /** Putting `index` (or nothing) in front of increasing pages after it keeps them increasing
      and adds no page but `index`. */
  lemma PrependIncreasing(index: nat, count: nat, here: bool, rest: seq<nat>, sel: seq<nat>)
    requires index < count && sel == (if here then [index] else []) + rest
    requires forall k :: 0 <= k < |rest| ==> index < rest[k] < count
    requires forall j, k :: 0 <= j < k < |rest| ==> rest[j] < rest[k]
    ensures forall k :: 0 <= k < |sel| ==> index <= sel[k] < count
    ensures forall j, k :: 0 <= j < k < |sel| ==> sel[j] < sel[k]
    ensures forall p :: index < p ==> (p in sel <==> p in rest)
    ensures index in sel <==> here
  {
    if here {
      assert forall k :: 1 <= k < |sel| ==> sel[k] == rest[k - 1];
    }
  }

  /** The image of the `index`-th page, as the loop stores it. */
  function RenderedVariable(lib: Library, pages: seq<Page>, index: nat, documentName: string,
                            storage: Option<StorageDefinition>, dpi: int): FileVariable
    requires index < |pages| && lib.renderPage(pages[index], dpi).Success?
  {
    ImageVariable(documentName, index, lib.renderPage(pages[index], dpi).value, storage)
  }

  /** `reference` is what the repository returned for the image of page `page`. */
  predicate StoredImage(lib: Library, pages: seq<Page>, page: nat, documentName: string,
                        storage: Option<StorageDefinition>, dpi: int, reference: string)
  {
    page < |pages| && lib.renderPage(pages[page], dpi).Success?
    && lib.saveFileVariable(RenderedVariable(lib, pages, page, documentName, storage, dpi)).Success?
    && reference == lib.referenceToJson(lib.saveFileVariable(RenderedVariable(lib, pages, page, documentName, storage, dpi)).value)
  }

  /** A successful loop stored one image per selected page, in page order: the `k`-th
      reference is the one the repository gave the image of the `k`-th selected page. */
  lemma {:induction false} OneImagePerSelectedPage(lib: Library, pages: seq<Page>, tokens: seq<string>, index: nat,
                                                   documentName: string, storage: Option<StorageDefinition>, dpi: Option<int>)
    requires index <= |pages|
    requires RenderFrom(lib, pages, tokens, index, documentName, storage, dpi).Success?
    ensures Selection(tokens, |pages|, index).Success?
    ensures |RenderFrom(lib, pages, tokens, index, documentName, storage, dpi).value| == |Selection(tokens, |pages|, index).value|
    ensures Selection(tokens, |pages|, index).value != [] ==> dpi.Some?
    ensures forall k :: 0 <= k < |Selection(tokens, |pages|, index).value| ==>
      StoredImage(lib, pages, Selection(tokens, |pages|, index).value[k], documentName, storage, dpi.value,
                  RenderFrom(lib, pages, tokens, index, documentName, storage, dpi).value[k])
    decreases |pages| - index
  {
    if index < |pages| {
      var here := ScanOfPage(tokens, index).value;
      OneImagePerSelectedPage(lib, pages, tokens, index + 1, documentName, storage, dpi);
      var next := RenderFrom(lib, pages, tokens, index + 1, documentName, storage, dpi).value;
      var rest := Selection(tokens, |pages|, index + 1).value;
      var images := RenderFrom(lib, pages, tokens, index, documentName, storage, dpi).value;
      var sel := Selection(tokens, |pages|, index).value;
      if here {
        var d := dpi.value;
        var image := lib.renderPage(pages[index], d).value;
        var reference := lib.saveFileVariable(ImageVariable(documentName, index, image, storage)).value;
        assert images == [lib.referenceToJson(reference)] + next;
        assert sel == [index] + rest;
        assert StoredImage(lib, pages, index, documentName, storage, d, images[0]);
        StoredImagesPrepend(lib, pages, documentName, storage, d, index, images[0], next, rest, images, sel);
      } else {
        assert images == next;
        assert sel == [] + rest == rest;
      }
    }
  }

  /** The stored image of one more page, put in front, keeps references and pages paired. */
  lemma StoredImagesPrepend(lib: Library, pages: seq<Page>, documentName: string, storage: Option<StorageDefinition>,
                            dpi: int, index: nat, first: string, next: seq<string>, rest: seq<nat>,
                            images: seq<string>, sel: seq<nat>)
    requires images == [first] + next && sel == [index] + rest && |next| == |rest|
    requires StoredImage(lib, pages, index, documentName, storage, dpi, first)
    requires forall k :: 0 <= k < |rest| ==> StoredImage(lib, pages, rest[k], documentName, storage, dpi, next[k])
    ensures forall k :: 0 <= k < |sel| ==> StoredImage(lib, pages, sel[k], documentName, storage, dpi, images[k])
  {
    forall k | 0 <= k < |sel|
      ensures StoredImage(lib, pages, sel[k], documentName, storage, dpi, images[k])
    {
      if k > 0 {
        assert sel[k] == rest[k - 1] && images[k] == next[k - 1];
      }
    }
  }

  /** With a well-behaved library, each returned reference loads back as the PNG of a page
      the expression selects, named after that page, in the chosen storage. */
  lemma ImagesLoadBack(lib: Library, input: PdfInput, docSource: FileVariable, parsed: LoadedPdf, k: nat)
    requires RoundTrips(lib)
    requires LoadDocument.LoadDocSource(lib, input.sourceFile) == Success(docSource)
    requires lib.loadPdf(docSource.value.value) == Success(parsed)
    requires ToImagesOutcome(lib, input).Success? && k < |ToImagesOutcome(lib, input).value|
    ensures input.dpi.Some?
    ensures Selection(Tokens(ExtractExpressionOrDefault(input.extractExpression), |parsed.pages|), |parsed.pages|, 0).Success?
    ensures var selected := Selection(Tokens(ExtractExpressionOrDefault(input.extractExpression), |parsed.pages|), |parsed.pages|, 0).value;
            k < |selected| && selected[k] < |parsed.pages|
            && InRangeAsWritten(Tokens(ExtractExpressionOrDefault(input.extractExpression), |parsed.pages|), selected[k] + 1) == Success(true)
            && lib.renderPage(parsed.pages[selected[k]], input.dpi.value).Success?
            && LoadDocument.LoadDocSource(lib, Some(ToImagesOutcome(lib, input).value[k]))
               == Success(ImageVariable(lib.documentName(docSource), selected[k],
                                        lib.renderPage(parsed.pages[selected[k]], input.dpi.value).value,
                                        RetrieveStorageDefinition.GetStorageDefinition(lib, input.destinationStorageDefinition, Some(docSource), true).value))
  {
    var storage := RetrieveStorageDefinition.GetStorageDefinition(lib, input.destinationStorageDefinition, Some(docSource), true).value;
    var tokens := Tokens(ExtractExpressionOrDefault(input.extractExpression), |parsed.pages|);
    var name := lib.documentName(docSource);
    OneImagePerSelectedPage(lib, parsed.pages, tokens, 0, name, storage, input.dpi);
    SelectionIsSelected(tokens, |parsed.pages|, 0);
    assert ScanOfPage(tokens, Selection(tokens, |parsed.pages|, 0).value[k]) == Success(true);
    var selected := Selection(tokens, |parsed.pages|, 0).value;
    assert selected[k] in selected;
    var v := RenderedVariable(lib, parsed.pages, selected[k], name, storage, input.dpi.value);
    LoadDocument.StoredVariableLoadsBack(lib, v, lib.saveFileVariable(v).value);
  }

  /** An encrypted source raises ENCRYPTED_PDF_NOT_SUPPORTED, a code missing from the
      declared list as written. */
  lemma EncryptedSourceRaisesUndeclaredCode(lib: Library, input: PdfInput, docSource: FileVariable)
    requires LoadDocument.LoadDocSource(lib, input.sourceFile) == Success(docSource)
    requires RetrieveStorageDefinition.GetStorageDefinition(lib, input.destinationStorageDefinition, Some(docSource), true).Success?
    requires lib.loadPdf(docSource.value.value).Success? && lib.loadPdf(docSource.value.value).value.encrypted
    ensures ToImagesOutcome(lib, input) == Failure(ConnectorException(ENCRYPTED_PDF_NOT_SUPPORTED))
    ensures ENCRYPTED_PDF_NOT_SUPPORTED !in BpmnErrorsAsWritten().Keys
    ensures ENCRYPTED_PDF_NOT_SUPPORTED in BpmnErrors().Keys
  {
    EncryptedCodeDeclaredOnlyWhenAdded();
    assert ParseDocument(lib, docSource.value, LoadPdfDocument.LOAD_PDF_ERROR) == Failure(ConnectorException(ENCRYPTED_PDF_NOT_SUPPORTED));
    assert ToImagesSteps(lib, input) == Failure(ConnectorException(ENCRYPTED_PDF_NOT_SUPPORTED));
  }

  lemma EncryptedCodeDeclaredOnlyWhenAdded()
    ensures ENCRYPTED_PDF_NOT_SUPPORTED !in BpmnErrorsAsWritten().Keys
    ensures ENCRYPTED_PDF_NOT_SUPPORTED in BpmnErrors().Keys
  {
    // no code declared as written is as long as this one
    var e := ENCRYPTED_PDF_NOT_SUPPORTED;
    assert |e| == 27;
    assert e != RetrieveStorageDefinition.NO_DESTINATION && e != RetrieveStorageDefinition.BAD_STORAGE_DEFINITION;
    assert e != LoadDocument.LOAD_ERROR && e != LoadDocument.LOAD_DOCSOURCE && e != INVALID_EXPRESSION;
    assert e != SavePdfDocument.ERROR_CREATE_FILEVARIABLE && e != SavePdfDocument.SAVE_ERROR && e != ERROR_DURING_OPERATION;
    var codes := {RetrieveStorageDefinition.NO_DESTINATION, RetrieveStorageDefinition.BAD_STORAGE_DEFINITION,
                  LoadDocument.LOAD_ERROR, LoadDocument.LOAD_DOCSOURCE, INVALID_EXPRESSION,
                  SavePdfDocument.ERROR_CREATE_FILEVARIABLE, SavePdfDocument.SAVE_ERROR, ERROR_DURING_OPERATION};
    assert e !in codes;
    assert BpmnErrorsAsWritten().Keys == codes;
  }

  // ---------------------------------------------------------------- the method

  /** One turn of the page loop: the page at zero-based `pageIndex` is tested with
      `isPageInRange`; when selected it is rendered and saved with `saveFile`, which appends
      its reference to the output. */
  method RenderStep(lib: Library, source: PdfDocument, expression: ExtractPageExpression, output: PdfOutput,
                    documentName: string, storage: Option<StorageDefinition>, dpi: Option<int>, pageIndex: Int32)
    returns (r: Result<(), Thrown>)
    requires 0 <= pageIndex < |source.pages| <= INT_MAX
    modifies output
    ensures r.Success? ==>
      Prepend(old(output.listDestinationsFile), RenderFrom(lib, source.pages, expression.expressionsList, pageIndex, documentName, storage, dpi))
      == Prepend(output.listDestinationsFile, RenderFrom(lib, source.pages, expression.expressionsList, pageIndex + 1, documentName, storage, dpi))
    ensures r.Failure? ==>
      Prepend(old(output.listDestinationsFile), RenderFrom(lib, source.pages, expression.expressionsList, pageIndex, documentName, storage, dpi))
      == Failure(r.error)
    ensures output.destinationFile == old(output.destinationFile)
  {
    var tokens := expression.expressionsList;
    var inRange := expression.IsPageInRange(pageIndex + 1);
    assert inRange == ScanOfPage(tokens, pageIndex);
    if inRange.Failure? {
      return Failure(inRange.error);
    }
    if !inRange.value {
      return Success(());
    }
    if dpi.None? {
      return Failure(OtherException);
    }
    var image := lib.renderPage(source.pages[pageIndex], dpi.value);
    if image.Failure? {
      return Failure(OtherException);
    }
    var fileVariableOut := ImageVariable(documentName, pageIndex, image.value, storage);
    ghost var before := output.listDestinationsFile;
    var saved := SavePdfDocument.SaveFile(lib, output, fileVariableOut);
    if saved.Failure? {
      return Failure(saved.error);
    }
    PrependAssoc(before, [lib.referenceToJson(lib.saveFileVariable(fileVariableOut).value)],
                 RenderFrom(lib, source.pages, tokens, pageIndex + 1, documentName, storage, dpi));
    r := Success(());
  }

  /** The page loop: `pageIndex` runs over the source's pages, in order. */
  method RenderPages(lib: Library, source: PdfDocument, expression: ExtractPageExpression, output: PdfOutput,
                     documentName: string, storage: Option<StorageDefinition>, dpi: Option<int>)
    returns (r: Result<(), Thrown>)
    requires |source.pages| <= INT_MAX && output.listDestinationsFile == []
    modifies output
    ensures r.Success? <==> RenderFrom(lib, source.pages, expression.expressionsList, 0, documentName, storage, dpi).Success?
    ensures r.Success? ==> output.listDestinationsFile
                           == RenderFrom(lib, source.pages, expression.expressionsList, 0, documentName, storage, dpi).value
    ensures r.Failure? ==> r.error == RenderFrom(lib, source.pages, expression.expressionsList, 0, documentName, storage, dpi).error
    ensures output.destinationFile == old(output.destinationFile)
  {
    var tokens := expression.expressionsList;
    var pageIndex: Int32 := 0;
    var all := RenderFrom(lib, source.pages, tokens, 0, documentName, storage, dpi);
    assert all.Success? ==> [] + all.value == all.value;
    while pageIndex < |source.pages|
      invariant 0 <= pageIndex <= |source.pages|
      invariant all == Prepend(output.listDestinationsFile, RenderFrom(lib, source.pages, tokens, pageIndex, documentName, storage, dpi))
      invariant output.destinationFile == old(output.destinationFile)
    {
      var step := RenderStep(lib, source, expression, output, documentName, storage, dpi, pageIndex);
      if step.Failure? {
        return Failure(step.error);
      }
      pageIndex := pageIndex + 1;
    }
    assert output.listDestinationsFile + [] == output.listDestinationsFile;
    r := Success(());
  }

  /** The `try` block: the output holding the images' references, with the source document
      handed back for the `finally` block. */
  method Attempt(lib: Library, input: PdfInput)
    returns (r: Result<PdfOutput, Thrown>, source: Option<PdfDocument>, ghost leaked: Option<PdfDocument>)
    ensures r.Success? <==> ToImagesSteps(lib, input).Success?
    ensures r.Success? ==> fresh(r.value) && r.value.listDestinationsFile == ToImagesSteps(lib, input).value
    ensures r.Success? ==> r.value.destinationFile.None?
    ensures r.Failure? ==> r.error == ToImagesSteps(lib, input).error
    ensures source.Some? ==> fresh(source.value) && !source.value.closed
    ensures leaked.Some? <==> r == Failure(ConnectorException(ENCRYPTED_PDF_NOT_SUPPORTED))
    ensures leaked.Some? ==> fresh(leaked.value) && !leaked.value.closed && source.None?
    ensures r.Success? ==> source.Some?
    ensures source.Some? <==> SourceOpened(lib, input)
  {
    source, leaked := None, None;
    var docSource := LoadDocument.LoadDocSource(lib, input.sourceFile);
    if docSource.Failure? {
      return Failure(docSource.error), source, leaked;
    }
    var storage := RetrieveStorageDefinition.GetStorageDefinition(lib, input.destinationStorageDefinition, Some(docSource.value), true);
    if storage.Failure? {
      return Failure(storage.error), source, leaked;
    }
    var loadedPdf: Result<PdfDocument, Thrown>;
    loadedPdf, leaked := LoadPdfDocument.LoadPdfDocument(lib, docSource.value);
    if loadedPdf.Failure? {
      return Failure(loadedPdf.error), source, leaked;
    }
    var src := loadedPdf.value;
    source := Some(src);
    var expression := new ExtractPageExpression(ExtractExpressionOrDefault(input.extractExpression), |src.pages|);
    var output := new PdfOutput();
    var rendered := RenderPages(lib, src, expression, output, lib.documentName(docSource.value), storage.value, input.dpi);
    if rendered.Failure? {
      return Failure(rendered.error), source, leaked;
    }
    r := Success(output);
  }

  /** `executeSubFunction`: the attempt with unnamed exceptions reported as
      ERROR_DURING_OPERATION, and the `finally` block closing the source when it was opened
      (`handles`, the documents it closed). */
  method ExecuteSubFunction(lib: Library, input: PdfInput)
    returns (r: Result<PdfOutput, Thrown>, ghost leaked: Option<PdfDocument>, ghost handles: seq<PdfDocument>)
    ensures r.Success? <==> ToImagesOutcome(lib, input).Success?
    ensures r.Success? ==> fresh(r.value) && r.value.listDestinationsFile == ToImagesOutcome(lib, input).value
    ensures r.Failure? ==> r.error == ToImagesOutcome(lib, input).error
    ensures leaked.Some? ==> !leaked.value.closed
    ensures leaked.Some? ==> ToImagesOutcome(lib, input) == Failure(ConnectorException(ENCRYPTED_PDF_NOT_SUPPORTED))
    ensures leaked.Some? ==> leaked.value !in handles
    ensures (forall d :: d in handles ==> fresh(d)) && Distinct(handles) && AllClosed(handles)
    ensures r.Success? ==> |handles| == 1
    ensures |handles| == if SourceOpened(lib, input) then 1 else 0
  {
    var raw: Result<PdfOutput, Thrown>;
    var source: Option<PdfDocument>;
    raw, source, leaked := Attempt(lib, input);
    handles := [];
    if source.Some? {
      source.value.Close();
      handles := [source.value];
    }
    r := CatchOther(raw, ERROR_DURING_OPERATION);
  }
}
