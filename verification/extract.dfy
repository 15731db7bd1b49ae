/** `PdfExtractPagesFunction`: copies the pages an expression such as "2-6,8,10-n" selects
    from a source PDF into a new PDF, stores it, and returns the new file's reference. */
module ExtractPages {
  import opened Wrappers
  import opened JavaLang
  import opened Documents
  import opened Platform
  import opened PageExpression
  import opened PdfToolbox
  import opened RetrieveStorageDefinition
  import opened PdfInputs
  import LoadDocument

  const EXTRACTION_ERROR := "EXTRACTION_ERROR"
  const DEFINITION_ERROR := "DEFINITION_ERROR"
  const TYPE_PDF_EXTRACTPAGES := "c-pdf-extractpages"
  const NAME := "PDF Extract pages"

  /** `PdfExtractPagesInput`: every field may be null. */
  datatype ExtractInput = ExtractInput(
    sourceFile: Option<string>,
    extractExpression: Option<string>,
    destinationFileName: Option<string>,
    destinationStorageDefinition: Option<string>)

  function Min(a: int, b: int): int { if a <= b then a else b }

  // ---------------------------------------------------------------- what one segment copies

  /** The pages numbered `first` to `last` (from 1) that the document has, in order. */
  function SegmentPages(pages: seq<Page>, first: int, last: int): (r: seq<Page>)
    requires 1 <= first
    ensures |r| == if first <= last && first <= |pages| then Min(last, |pages|) - first + 1 else 0
    ensures |r| > 0 ==> first - 1 + |r| <= |pages| && first - 1 + |r| <= last
    ensures forall i :: 0 <= i < |r| ==> r[i] == pages[first - 1 + i]
  {
    if first <= last && first <= |pages| then pages[first - 1..Min(last, |pages|)] else []
  }

  /** One more page number: the page is added when the document has it. */
  lemma SegmentPagesStep(pages: seq<Page>, first: int, k: int)
    requires 1 <= first <= k
    ensures k <= |pages| ==> SegmentPages(pages, first, k) == SegmentPages(pages, first, k - 1) + [pages[k - 1]]
    ensures k > |pages| ==> SegmentPages(pages, first, k) == SegmentPages(pages, first, k - 1)
  {
    if k <= |pages| {
      assert pages[first - 1..k] == pages[first - 1..k - 1] + [pages[k - 1]];
    }
  }

  /** What the copy loop `for (pageIndex = first; pageIndex <= last; pageIndex++)` yields on
      a well-formed segment. A first page of 0 asks for `getPage(-1)`, which throws. A last
      page of `Integer.MAX_VALUE` never stops the loop: the counter wraps to
      `Integer.MIN_VALUE` and `getPage(Integer.MIN_VALUE - 1)`, that is
      `getPage(Integer.MAX_VALUE)`, throws. */
  function SegmentCopy(pages: seq<Page>, segment: Segment): (r: Option<seq<Page>>)
    requires 0 <= segment.first
    ensures r.None? <==> segment.first == 0 || segment.last == INT_MAX
    ensures r.Some? ==> r.value == SegmentPages(pages, segment.first, segment.last)
  {
    if segment.first == 0 || segment.last == INT_MAX then None
    else Some(SegmentPages(pages, segment.first, segment.last))
  }

  /** The whole extraction: each token parsed, then its pages copied, in token order. A
      malformed token raises INVALID_EXPRESSION; a failed `getPage` is an exception of the
      PDF library. */
  function Extraction(pages: seq<Page>, tokens: seq<string>): (r: Result<seq<Page>, Thrown>)
    ensures r.Success? <==> forall i :: 0 <= i < |tokens| ==>
      ParseSegment(tokens[i]).Some? && SegmentCopy(pages, ParseSegment(tokens[i]).value).Some?
    ensures r.Failure? ==> r.error in {ConnectorException(INVALID_EXPRESSION), OtherException}
    decreases |tokens|
  {
    if tokens == [] then Success([])
    else
      var rest := Extraction(pages, tokens[1..]);
      assert forall i :: 1 <= i < |tokens| ==> tokens[i] == tokens[1..][i - 1];
      match ParseSegment(tokens[0])
      case None => Failure(ConnectorException(INVALID_EXPRESSION))
      case Some(segment) =>
        match SegmentCopy(pages, segment)
        case None => Failure(OtherException)
        case Some(copied) => Prepend(copied, rest)
  }

  /** A page contained in the first segment is selected. */
  lemma SelectedByFirst(tokens: seq<string>, segment: Segment, page: int)
    requires tokens != [] && ParseSegment(tokens[0]) == Some(segment) && Contains(segment, page)
    ensures InRange(tokens, page) == Success(true)
  {
  }

  /** Behind a well-formed first segment, a page the later segments select is selected. */
  lemma SelectedByRest(tokens: seq<string>, page: int)
    requires tokens != [] && ParseSegment(tokens[0]).Some?
    requires InRange(tokens[1..], page) == Success(true)
    ensures InRange(tokens, page) == Success(true)
  {
  }

  /** `page` is one of the document's pages that the expression selects. */
  predicate Selected(pages: seq<Page>, tokens: seq<string>, page: Page)
  {
    exists j :: 0 <= j < |pages| && page == pages[j] && InRange(tokens, j + 1) == Success(true)
  }

  /** One step of the extraction: the first token decides, then the rest follows. */
  lemma ExtractionUnfold(pages: seq<Page>, tokens: seq<string>)
    requires tokens != []
    ensures ParseSegment(tokens[0]).None? ==> Extraction(pages, tokens) == Failure(ConnectorException(INVALID_EXPRESSION))
    ensures ParseSegment(tokens[0]).Some? && SegmentCopy(pages, ParseSegment(tokens[0]).value).None? ==>
      Extraction(pages, tokens) == Failure(OtherException)
    ensures ParseSegment(tokens[0]).Some? && SegmentCopy(pages, ParseSegment(tokens[0]).value).Some? ==>
      Extraction(pages, tokens) == Prepend(SegmentCopy(pages, ParseSegment(tokens[0]).value).value, Extraction(pages, tokens[1..]))
  {
  }

  /** Every extracted page is a page of the document that the page expression selects:
      extraction and the range test `InRange` read an expression alike. */
  lemma {:induction false} ExtractedPagesAreSelected(pages: seq<Page>, tokens: seq<string>)
    requires Extraction(pages, tokens).Success?
    ensures forall i :: 0 <= i < |Extraction(pages, tokens).value| ==>
      Selected(pages, tokens, Extraction(pages, tokens).value[i])
  {
    if tokens != [] {
      var segment := ParseSegment(tokens[0]).value;
      var copied := SegmentCopy(pages, segment).value;
      ExtractedPagesAreSelected(pages, tokens[1..]);
      var rest := Extraction(pages, tokens[1..]).value;
      var r := Extraction(pages, tokens).value;
      assert r == copied + rest;
      forall i | 0 <= i < |r|
        ensures Selected(pages, tokens, r[i])
      {
        if i < |copied| {
          CopiedIsSelected(pages, tokens, segment, copied, i);
        } else {
          assert r[i] == rest[i - |copied|];
          SelectedBehindFirst(pages, tokens, r[i]);
        }
      }
    }
  }

  /** A page the first segment copies is selected. */
  lemma CopiedIsSelected(pages: seq<Page>, tokens: seq<string>, segment: Segment, copied: seq<Page>, i: nat)
    requires tokens != [] && ParseSegment(tokens[0]) == Some(segment)
    requires SegmentCopy(pages, segment) == Some(copied) && i < |copied|
    ensures Selected(pages, tokens, copied[i])
  {
    var j := segment.first - 1 + i;
    assert copied[i] == pages[j];
    SelectedByFirst(tokens, segment, j + 1);
  }

  /** A page the later segments select is selected behind a well-formed first segment. */
  lemma SelectedBehindFirst(pages: seq<Page>, tokens: seq<string>, page: Page)
    requires tokens != [] && ParseSegment(tokens[0]).Some?
    requires Selected(pages, tokens[1..], page)
    ensures Selected(pages, tokens, page)
  {
    var j :| 0 <= j < |pages| && page == pages[j] && InRange(tokens[1..], j + 1) == Success(true);
    SelectedByRest(tokens, j + 1);
  }

  /** Every page of the document that the expression selects is extracted. */
  lemma {:induction false} SelectedPagesAreExtracted(pages: seq<Page>, tokens: seq<string>)
    requires Extraction(pages, tokens).Success?
    ensures forall j :: 0 <= j < |pages| && InRange(tokens, j + 1) == Success(true) ==>
      pages[j] in Extraction(pages, tokens).value
  {
    if tokens != [] {
      var segment := ParseSegment(tokens[0]).value;
      var copied := SegmentCopy(pages, segment).value;
      SelectedPagesAreExtracted(pages, tokens[1..]);
      var rest := Extraction(pages, tokens[1..]).value;
      assert Extraction(pages, tokens).value == copied + rest;
      forall j | 0 <= j < |pages| && InRange(tokens, j + 1) == Success(true)
        ensures pages[j] in copied + rest
      {
        if Contains(segment, j + 1) {
          CopiesContainedPage(pages, segment, copied, j);
        } else {
          assert InRange(tokens[1..], j + 1) == Success(true);
        }
      }
    }
  }

  /** A copied segment holds every page of the document it contains. */
  lemma CopiesContainedPage(pages: seq<Page>, segment: Segment, copied: seq<Page>, j: nat)
    requires 0 <= segment.first && SegmentCopy(pages, segment) == Some(copied)
    requires j < |pages| && Contains(segment, j + 1)
    ensures pages[j] in copied
  {
    assert copied[j + 1 - segment.first] == pages[j];
  }

  /** An expression of one token extracts what its segment copies. */
  lemma SingleToken(pages: seq<Page>, tokens: seq<string>, segment: Segment)
    requires |tokens| == 1
    ensures ParseSegment(tokens[0]) == None ==> Extraction(pages, tokens) == Failure(ConnectorException(INVALID_EXPRESSION))
    ensures ParseSegment(tokens[0]) == Some(segment) && SegmentCopy(pages, segment).Some? ==>
      Extraction(pages, tokens) == Success(SegmentCopy(pages, segment).value)
  {
    assert tokens[1..] == [];
    assert Extraction(pages, tokens[1..]) == Success([]);
    if ParseSegment(tokens[0]) == Some(segment) && SegmentCopy(pages, segment).Some? {
      assert SegmentCopy(pages, segment).value + [] == SegmentCopy(pages, segment).value;
    }
  }

  /** The default expression "1-n" copies the whole document, but fails on a document with
      no page, where it reads "1-0". */
  lemma DefaultExpressionExtractsAll(pages: seq<Page>)
    requires |pages| < INT_MAX
    ensures |pages| >= 1 ==> Extraction(pages, Tokens(DEFAULT_EXTRACT_EXPRESSION, |pages|)) == Success(pages)
    ensures |pages| == 0 ==>
      Extraction(pages, Tokens(DEFAULT_EXTRACT_EXPRESSION, |pages|)) == Failure(ConnectorException(INVALID_EXPRESSION))
  {
    DefaultExpressionSelectsEveryPage(|pages|);
    assert DEFAULT_EXTRACT_EXPRESSION == "1-n";
    var tokens := Tokens(DEFAULT_EXTRACT_EXPRESSION, |pages|);
    assert |tokens| == 1;
    if |pages| >= 1 {
      assert SegmentPages(pages, 1, |pages|) == pages;
      SingleToken(pages, tokens, Segment(1, |pages|));
    } else {
      assert ParseSegment(tokens[0]) == None;
      SingleToken(pages, tokens, Segment(1, 0));
    }
  }

  // ---------------------------------------------------------------- the operation

  /** The `try` block of `execute`, step by step, with the exception each step can throw. */
  function ExtractSteps(lib: Library, input: ExtractInput): Result<string, Thrown>
  {
    var reference :- Unexpected(lib.referenceFromJson(input.sourceFile));
    var loaded :- Unexpected(lib.loadFileVariable(reference));
    if loaded.None? || loaded.value.value.None? then Failure(ConnectorException(LOAD_ERROR))
    else
      var docSource := loaded.value;
      var storage :- ResolveStorage(lib, input.destinationStorageDefinition, docSource.storageDefinition, DEFINITION_ERROR);
      var parsed :- ParseDocument(lib, docSource.value, LOAD_ERROR);
      var tokens := Tokens(ExtractExpressionOrDefault(input.extractExpression), |parsed.pages|);
      var extracted :- Extraction(parsed.pages, tokens);
      var fileVariable :- SaveOutputPdfDocument(lib, extracted, input.destinationFileName, storage);
      var outputReference :- Unexpected(lib.saveFileVariable(fileVariable));
      Success(lib.referenceToJson(outputReference))
  }

  /** The `try` block gets as far as opening the source, and then creates the destination:
      the file variable has content, the storage resolves, and the PDF parses and is not
      encrypted. */
  predicate SourceOpened(lib: Library, input: ExtractInput)
  {
    lib.referenceFromJson(input.sourceFile).Success?
    && lib.loadFileVariable(lib.referenceFromJson(input.sourceFile).value).Success?
    && (var loaded := lib.loadFileVariable(lib.referenceFromJson(input.sourceFile).value).value;
        loaded.Some? && loaded.value.value.Some?
        && ResolveStorage(lib, input.destinationStorageDefinition, loaded.value.storageDefinition, DEFINITION_ERROR).Success?
        && ParseDocument(lib, loaded.value.value, LOAD_ERROR).Success?)
  }

  /** A successful run opened the source; a source refused as encrypted was never opened,
      and a run that opened it can still fail (at the expression, the copy or the save). */
  lemma SourceOpenedOnSuccess(lib: Library, input: ExtractInput)
    ensures ExtractSteps(lib, input).Success? ==> SourceOpened(lib, input)
    ensures ExtractSteps(lib, input) == Failure(ConnectorException(ENCRYPTED_PDF_NOT_SUPPORTED)) ==> !SourceOpened(lib, input)
  {
  }

  /** `execute`: the reference of the stored extract, or EXTRACTION_ERROR whatever went
      wrong (the `catch` wraps every exception, named ones included). */
  function ExtractOutcome(lib: Library, input: ExtractInput): (r: Result<string, Thrown>)
    ensures r.Failure? ==> r.error == ConnectorException(EXTRACTION_ERROR)
  {
    CatchAll(ExtractSteps(lib, input), EXTRACTION_ERROR)
  }

  /** With a well-behaved library, the stored extract holds exactly the pages the expression
      selects from the source document, in expression order. */
  lemma ExtractStoresSelectedPages(lib: Library, input: ExtractInput, docSource: FileVariable, parsed: LoadedPdf)
    requires RoundTrips(lib)
    requires lib.referenceFromJson(input.sourceFile).Success?
    requires lib.loadFileVariable(lib.referenceFromJson(input.sourceFile).value) == Success(Some(docSource))
    requires docSource.value.Some? && lib.loadPdf(docSource.value.value) == Success(parsed)
    requires ExtractOutcome(lib, input).Success?
    ensures !parsed.encrypted
    ensures Extraction(parsed.pages, Tokens(ExtractExpressionOrDefault(input.extractExpression), |parsed.pages|)).Success?
    ensures LoadDocument.LoadDocSource(lib, Some(ExtractOutcome(lib, input).value)).Success?
    ensures ParseDocument(lib, LoadDocument.LoadDocSource(lib, Some(ExtractOutcome(lib, input).value)).value.value, LOAD_ERROR).Success?
    ensures ParseDocument(lib, LoadDocument.LoadDocSource(lib, Some(ExtractOutcome(lib, input).value)).value.value, LOAD_ERROR).value.pages
            == Extraction(parsed.pages, Tokens(ExtractExpressionOrDefault(input.extractExpression), |parsed.pages|)).value
    ensures ResolveStorage(lib, input.destinationStorageDefinition, docSource.storageDefinition, DEFINITION_ERROR).Success?
    ensures var stored := LoadDocument.LoadDocSource(lib, Some(ExtractOutcome(lib, input).value)).value;
            stored.name == input.destinationFileName
            && stored.storageDefinition
               == ResolveStorage(lib, input.destinationStorageDefinition, docSource.storageDefinition, DEFINITION_ERROR).value
  {
    var storage := ResolveStorage(lib, input.destinationStorageDefinition, docSource.storageDefinition, DEFINITION_ERROR).value;
    var extracted := Extraction(parsed.pages, Tokens(ExtractExpressionOrDefault(input.extractExpression), |parsed.pages|)).value;
    var fileVariable := SaveOutputPdfDocument(lib, extracted, input.destinationFileName, storage).value;
    var outputReference := lib.saveFileVariable(fileVariable).value;
    assert ExtractOutcome(lib, input).value == lib.referenceToJson(outputReference);
    LoadDocument.StoredVariableLoadsBack(lib, fileVariable, outputReference);
    SavedDocumentReloads(lib, extracted, input.destinationFileName, storage, LOAD_ERROR);
  }

  /** The copy loop for one segment, on Java `int`s: pages are appended to the destination
      as the counter runs from the first page to the last, skipping numbers past the end of
      the source. */
  method CopySegment(source: PdfDocument, destination: PdfDocument, firstPage: Int32, lastPage: Int32)
    returns (ok: bool)
    requires 0 <= firstPage <= lastPage
    requires source != destination && |source.pages| <= INT_MAX
    modifies destination
    ensures ok <==> SegmentCopy(source.pages, Segment(firstPage, lastPage)).Some?
    ensures ok ==> destination.pages == old(destination.pages) + SegmentCopy(source.pages, Segment(firstPage, lastPage)).value
    ensures destination.closed == old(destination.closed)
  {
    var pageIndex: Int32 := firstPage;
    while pageIndex <= lastPage
      invariant firstPage <= pageIndex <= lastPage + 1 || (lastPage == INT_MAX && pageIndex == INT_MIN)
      invariant firstPage == 0 ==> pageIndex == 0
      invariant pageIndex == INT_MIN ==> firstPage >= 1
      invariant 1 <= firstPage <= pageIndex ==>
        destination.pages == old(destination.pages) + SegmentPages(source.pages, firstPage, pageIndex - 1)
      invariant destination.closed == old(destination.closed)
      decreases if pageIndex >= firstPage then lastPage - pageIndex + 2 else 0
    {
      if pageIndex <= |source.pages| {
        var page := source.GetPage(Dec32(pageIndex));
        if page.Failure? {
          return false;
        }
        SegmentPagesStep(source.pages, firstPage, pageIndex);
        destination.AddPage(page.value);
      } else {
        SegmentPagesStep(source.pages, firstPage, pageIndex);
      }
      pageIndex := Inc32(pageIndex);
    }
    return true;
  }

  /** `ExtractionUnfold` for the suffix of the tokens from `i` on. */
  lemma ExtractionAt(pages: seq<Page>, tokens: seq<string>, i: nat)
    requires i < |tokens|
    ensures ParseSegment(tokens[i]).None? ==> Extraction(pages, tokens[i..]) == Failure(ConnectorException(INVALID_EXPRESSION))
    ensures ParseSegment(tokens[i]).Some? && SegmentCopy(pages, ParseSegment(tokens[i]).value).None? ==>
      Extraction(pages, tokens[i..]) == Failure(OtherException)
    ensures ParseSegment(tokens[i]).Some? && SegmentCopy(pages, ParseSegment(tokens[i]).value).Some? ==>
      Extraction(pages, tokens[i..]) == Prepend(SegmentCopy(pages, ParseSegment(tokens[i]).value).value, Extraction(pages, tokens[i + 1..]))
  {
    ExtractionUnfold(pages, tokens[i..]);
    assert tokens[i..][0] == tokens[i] && tokens[i..][1..] == tokens[i + 1..];
  }

  /** One turn of the loop over the tokens: token `i` parsed and its pages copied. The
      extraction from `i` on, after the pages copied so far, is the extraction from `i + 1`
      on after the pages copied now, or this turn's failure. */
  method CopyToken(source: PdfDocument, destination: PdfDocument, tokens: seq<string>, i: nat)
    returns (r: Result<(), Thrown>)
    requires i < |tokens| && source != destination && |source.pages| <= INT_MAX
    modifies destination
    ensures r.Success? ==> Prepend(old(destination.pages), Extraction(source.pages, tokens[i..]))
                           == Prepend(destination.pages, Extraction(source.pages, tokens[i + 1..]))
    ensures r.Failure? ==> Prepend(old(destination.pages), Extraction(source.pages, tokens[i..])) == Failure(r.error)
    ensures destination.closed == old(destination.closed)
  {
    ExtractionAt(source.pages, tokens, i);
    var segment := ParseSegment(tokens[i]);
    if segment.None? {
      return Failure(ConnectorException(INVALID_EXPRESSION));
    }
    ghost var before := destination.pages;
    var ok := CopySegment(source, destination, segment.value.first, segment.value.last);
    if !ok {
      return Failure(OtherException);
    }
    PrependAssoc(before, SegmentCopy(source.pages, segment.value).value, Extraction(source.pages, tokens[i + 1..]));
    r := Success(());
  }

  /** The loop over the tokens: each one parsed, then its pages copied into the
      destination, stopping at the first malformed token or failed copy. */
  method CopySegments(source: PdfDocument, destination: PdfDocument, tokens: seq<string>)
    returns (r: Result<(), Thrown>)
    requires source != destination && |source.pages| <= INT_MAX && destination.pages == []
    modifies destination
    ensures r.Success? <==> Extraction(source.pages, tokens).Success?
    ensures r.Success? ==> destination.pages == Extraction(source.pages, tokens).value
    ensures r.Failure? ==> r.error == Extraction(source.pages, tokens).error
    ensures destination.closed == old(destination.closed)
  {
    var i := 0;
    assert tokens[i..] == tokens;
    if Extraction(source.pages, tokens).Success? {
      assert [] + Extraction(source.pages, tokens).value == Extraction(source.pages, tokens).value;
    }
    while i < |tokens|
      invariant 0 <= i <= |tokens|
      invariant destination.closed == old(destination.closed)
      invariant Extraction(source.pages, tokens) == Prepend(destination.pages, Extraction(source.pages, tokens[i..]))
    {
      var copied := CopyToken(source, destination, tokens, i);
      if copied.Failure? {
        return copied;
      }
      i := i + 1;
    }
    assert tokens[i..] == [] && destination.pages + [] == destination.pages;
    r := Success(());
  }

  /** The `try` block of `execute`. The documents it opens are handed back so that the
      `finally` block can close them; an encrypted source is opened by the loader and then
      refused before it is assigned, so it is never closed (`leaked`). The second test of
      `isEncrypted()` after loading can never fire and is left out. */
  method Attempt(lib: Library, input: ExtractInput)
    returns (r: Result<string, Thrown>, source: Option<PdfDocument>, destination: Option<PdfDocument>,
             ghost leaked: Option<PdfDocument>)
    ensures r == ExtractSteps(lib, input)
    ensures source.Some? ==> fresh(source.value) && !source.value.closed
    ensures destination.Some? ==> fresh(destination.value) && !destination.value.closed
    ensures source.Some? && destination.Some? ==> source.value != destination.value
    ensures r.Success? ==> source.Some? && destination.Some?
    ensures source.Some? <==> SourceOpened(lib, input)
    ensures destination.Some? <==> SourceOpened(lib, input)
    ensures leaked.Some? <==> r == Failure(ConnectorException(ENCRYPTED_PDF_NOT_SUPPORTED))
    ensures leaked.Some? ==> fresh(leaked.value) && !leaked.value.closed && source.None? && destination.None?
  {
    source, destination, leaked := None, None, None;
    var reference := lib.referenceFromJson(input.sourceFile);
    if reference.Failure? {
      return Failure(OtherException), source, destination, leaked;
    }
    var loaded := lib.loadFileVariable(reference.value);
    if loaded.Failure? {
      return Failure(OtherException), source, destination, leaked;
    }
    if loaded.value.None? || loaded.value.value.value.None? {
      return Failure(ConnectorException(LOAD_ERROR)), source, destination, leaked;
    }
    var docSource := loaded.value.value;
    var storage := ResolveStorage(lib, input.destinationStorageDefinition, docSource.storageDefinition, DEFINITION_ERROR);
    if storage.Failure? {
      return Failure(storage.error), source, destination, leaked;
    }
    var loadedPdf: Result<PdfDocument, Thrown>;
    loadedPdf, leaked := PdfToolbox.LoadPdfDocument(lib, docSource);
    if loadedPdf.Failure? {
      return Failure(loadedPdf.error), source, destination, leaked;
    }
    var src := loadedPdf.value;
    source := Some(src);
    var dest := new PdfDocument.Empty();
    destination := Some(dest);
    var tokens := Tokens(ExtractExpressionOrDefault(input.extractExpression), |src.pages|);
    var copied := CopySegments(src, dest, tokens);
    if copied.Failure? {
      return Failure(copied.error), source, destination, leaked;
    }
    var saved := SaveOutputPdfDocument(lib, dest.pages, input.destinationFileName, storage.value);
    if saved.Failure? {
      return Failure(saved.error), source, destination, leaked;
    }
    var outputReference := lib.saveFileVariable(saved.value);
    if outputReference.Failure? {
      return Failure(OtherException), source, destination, leaked;
    }
    r := Success(lib.referenceToJson(outputReference.value));
  }

  /** `execute`: the attempt, its exceptions all reported as EXTRACTION_ERROR, and the
      `finally` block closing the source and the destination when they were opened
      (`handles`, the documents it closed). */
  method Execute(lib: Library, input: ExtractInput)
    returns (r: Result<string, Thrown>, ghost leaked: Option<PdfDocument>, ghost handles: seq<PdfDocument>)
    ensures r == ExtractOutcome(lib, input)
    ensures leaked.Some? ==> r == Failure(ConnectorException(EXTRACTION_ERROR)) && !leaked.value.closed
    ensures leaked.Some? ==> leaked.value !in handles
    ensures (forall d :: d in handles ==> fresh(d)) && Distinct(handles) && AllClosed(handles)
    ensures r.Success? ==> |handles| == 2
    ensures |handles| == if SourceOpened(lib, input) then 2 else 0
  {
    var raw: Result<string, Thrown>;
    var source: Option<PdfDocument>;
    var destination: Option<PdfDocument>;
    raw, source, destination, leaked := Attempt(lib, input);
    handles := [];
    if source.Some? {
      source.value.Close();
      handles := handles + [source.value];
    }
    if destination.Some? {
      destination.value.Close();
      handles := handles + [destination.value];
    }
    r := CatchAll(raw, EXTRACTION_ERROR);
  }
}
