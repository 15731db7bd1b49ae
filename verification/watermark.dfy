/** `PdfWatermarkFunction` ("c-pdf-watermark"): draws one text over every page of a PDF, with
    a chosen position, colour and rotation, stores the result and returns its reference. */
module Watermark {
  import opened Wrappers
  import opened JavaLang
  import opened Documents
  import opened Platform
  import opened PdfToolbox
  import opened RetrieveStorageDefinition
  import LoadDocument

  const OPERATION_ERROR := "OPERATION_ERROR"
  const DEFINITION_ERROR := "DEFINITION_ERROR"
  const INVALID_COLOR := "INVALID_COLOR"
  const TYPE_PDF_WATERMARK := "c-pdf-watermark"
  const NAME := "PDF Add watermark"

  /** `PdfWatermarkInput`. The watermark text is taken as present. */
  datatype WatermarkInput = WatermarkInput(
    sourceFile: Option<string>,
    watermark: string,
    watermarkPosition: Option<string>,
    watermarkColor: Option<string>,
    watermarkRotation: Option<int>,
    destinationFileName: Option<string>,
    destinationStorageDefinition: Option<string>)

  // ---------------------------------------------------------------- the options

  /** The name of a text position, as `toString()` spells it. */
  function PositionName(p: TextPosition): string
  {
    match p
    case TOP => "TOP"
    case CENTER => "CENTER"
    case BOTTOM => "BOTTOM"
  }

  /** `getWatermarkPosition`: a null or blank position means CENTER. */
  function PositionText(position: Option<string>): (s: string)
    ensures NullOrBlank(position) ==> s == PositionName(CENTER)
    ensures !NullOrBlank(position) ==> s == position.value
  {
    if NullOrBlank(position) then PositionName(CENTER) else position.value
  }

  /** `TEXT_POSITION.valueOf`: the exact, case-sensitive name of a position, or nothing (the
      method throws). */
  function ParsePosition(s: string): (r: Option<TextPosition>)
    ensures r.Some? <==> s in {"TOP", "CENTER", "BOTTOM"}
  {
    if s == "TOP" then Some(TOP)
    else if s == "CENTER" then Some(CENTER)
    else if s == "BOTTOM" then Some(BOTTOM)
    else None
  }

  /** A position's name parses back to it, and a name parses only to the position it names. */
  lemma PositionNamesRoundTrip(p: TextPosition, s: string)
    ensures ParsePosition(PositionName(p)) == Some(p)
    ensures ParsePosition(s) == Some(p) ==> s == PositionName(p)
  {
  }

  /** The names the function recognises for the colours of `java.awt.Color`. */
  function ColorName(c: Color): string
  {
    match c
    case Red => "red"
    case Green => "green"
    case Black => "black"
    case Blue => "blue"
    case Cyan => "cyan"
    case Gray => "gray"
    case DarkGray => "darkGray"
    case LightGray => "lightGray"
    case Magenta => "magenta"
    case Orange => "orange"
    case Pink => "pink"
    case White => "white"
    case Yellow => "yellow"
    case SystemColor(_) => ""
  }

  /** `getColorFromString`: the thirteen names, compared ignoring case and tried in order,
      then `Color.getColor`, which reads a system property and may give null. */
  function ColorFromString(lib: Library, s: string): (r: Option<Color>)
    ensures (forall c: Color :: !c.SystemColor? ==> !EqualsIgnoreCase(ColorName(c), s)) ==> r == lib.colorFromProperty(s)
  {
    if EqualsIgnoreCase(ColorName(Red), s) then Some(Red)
    else if EqualsIgnoreCase(ColorName(Green), s) then Some(Green)
    else if EqualsIgnoreCase(ColorName(Black), s) then Some(Black)
    else if EqualsIgnoreCase(ColorName(Blue), s) then Some(Blue)
    else if EqualsIgnoreCase(ColorName(Cyan), s) then Some(Cyan)
    else if EqualsIgnoreCase(ColorName(Gray), s) then Some(Gray)
    else if EqualsIgnoreCase(ColorName(DarkGray), s) then Some(DarkGray)
    else if EqualsIgnoreCase(ColorName(LightGray), s) then Some(LightGray)
    else if EqualsIgnoreCase(ColorName(Magenta), s) then Some(Magenta)
    else if EqualsIgnoreCase(ColorName(Orange), s) then Some(Orange)
    else if EqualsIgnoreCase(ColorName(Pink), s) then Some(Pink)
    else if EqualsIgnoreCase(ColorName(White), s) then Some(White)
    else if EqualsIgnoreCase(ColorName(Yellow), s) then Some(Yellow)
    else lib.colorFromProperty(s)
  }

  /** Two colour names that match the same text, ignoring case, are the same name: the
      order in which the names are tried does not matter. */
  lemma ColorNamesDistinct(c: Color, d: Color, s: string)
    requires !c.SystemColor? && !d.SystemColor?
    requires EqualsIgnoreCase(ColorName(c), s) && EqualsIgnoreCase(ColorName(d), s)
    ensures c == d
  {
    assert |ColorName(c)| == |ColorName(d)| == |s| > 0;
    assert ToLowerAscii(ColorName(c)[0]) == ToLowerAscii(s[0]) == ToLowerAscii(ColorName(d)[0]);
  }

  /** Any spelling of a colour's name, whatever its case, gives that colour. */
  lemma NamedColorAccepted(lib: Library, c: Color, s: string)
    requires !c.SystemColor? && EqualsIgnoreCase(ColorName(c), s)
    ensures ColorFromString(lib, s) == Some(c)
  {
    forall d: Color | !d.SystemColor? && EqualsIgnoreCase(ColorName(d), s)
      ensures d == c
    {
      ColorNamesDistinct(c, d, s);
    }
  }

  /** The colour a watermark is drawn with: gray when none is given, otherwise the colour the
      text names; an unknown colour is INVALID_COLOR. */
  function ChosenColor(lib: Library, color: Option<string>): (r: Result<Color, Thrown>)
    ensures color.None? ==> r == Success(Gray)
    ensures color.Some? ==> (r.Success? <==> ColorFromString(lib, color.value).Some?)
    ensures r.Failure? ==> r.error == ConnectorException(INVALID_COLOR)
  {
    if color.None? then Success(Gray)
    else match ColorFromString(lib, color.value)
      case None => Failure(ConnectorException(INVALID_COLOR))
      case Some(c) => Success(c)
  }

  /** The rotation in degrees: none is 0, otherwise `rotation.intValue() % 360`, the 64-bit
      value cut to 32 bits and then reduced with Java's remainder, which keeps the sign. */
  function ChosenDegree(rotation: Option<int>): (d: Int32)
    ensures -360 < d < 360
    ensures rotation.Some? ==> (Wrap32(rotation.value) - d) % 360 == 0
    ensures rotation.Some? && IsInt32(rotation.value) ==> (rotation.value - d) % 360 == 0
    ensures rotation.Some? && 0 <= rotation.value <= INT_MAX ==> d >= 0
  {
    if rotation.None? then 0
    else
      assert IsInt32(rotation.value) ==> Wrap32(rotation.value) == rotation.value by {
        if IsInt32(rotation.value) { Wrap32Identity(rotation.value); }
      }
      JavaRem360(Wrap32(rotation.value))
  }

  /** A full turn is no rotation: the text is then placed on the centre line, not turned. */
  lemma FullTurnIsNoRotation(k: int)
    requires 0 <= k <= 5965232
    ensures ChosenDegree(Some(360 * k)) == 0
    ensures PlacementFor(CENTER, ChosenDegree(Some(360 * k))) == Offset(CENTER)
  {
    Wrap32Identity(360 * k);
  }

  // ---------------------------------------------------------------- the specification

  /** Every page with the overlay drawn over it; drawing over a page may fail. */
  function Watermarked(lib: Library, pages: seq<Page>, overlay: Overlay): (r: Result<seq<Page>, Thrown>)
    ensures r.Success? <==> forall i :: 0 <= i < |pages| ==> lib.drawText(pages[i], overlay)
    ensures r.Success? ==> |r.value| == |pages|
    ensures r.Success? ==> forall i :: 0 <= i < |pages| ==> r.value[i] == WithOverlay(pages[i], overlay)
    ensures r.Failure? ==> r.error == OtherException
    decreases |pages|
  {
    if pages == [] then Success([])
    else
      var rest := Watermarked(lib, pages[1..], overlay);
      assert forall i :: 1 <= i < |pages| ==> pages[i] == pages[1..][i - 1];
      if !lib.drawText(pages[0], overlay) then Failure(OtherException)
      else Prepend([WithOverlay(pages[0], overlay)], rest)
  }

  /** The overlay the options give. */
  function OverlayFor(text: string, color: Color, position: TextPosition, degree: int): Overlay
  {
    Overlay(text, HelveticaBold, color, PlacementFor(position, degree))
  }

  /** The `try` block of `execute`: the reference of the stored, watermarked document. */
  function WatermarkSteps(lib: Library, input: WatermarkInput): Result<string, Thrown>
  {
    var reference :- Unexpected(lib.referenceFromJson(input.sourceFile));
    var loaded :- Unexpected(lib.loadFileVariable(reference));
    if loaded.None? || loaded.value.value.None? then Failure(ConnectorException(LOAD_ERROR))
    else
      var docSource := loaded.value;
      var storage :- ResolveStorage(lib, input.destinationStorageDefinition, docSource.storageDefinition, DEFINITION_ERROR);
      var position := ParsePosition(PositionText(input.watermarkPosition));
      if position.None? then Failure(OtherException)
      else
        var color :- ChosenColor(lib, input.watermarkColor);
        var degree := ChosenDegree(input.watermarkRotation);
        var parsed :- ParseDocument(lib, docSource.value, LOAD_ERROR);
        var pages :- Watermarked(lib, parsed.pages, OverlayFor(input.watermark, color, position.value, degree));
        var fileVariable :- SaveOutputPdfDocument(lib, pages, input.destinationFileName, storage);
        var outputReference :- Unexpected(lib.saveFileVariable(fileVariable));
        Success(lib.referenceToJson(outputReference))
  }

  /** The `try` block gets as far as opening the source: the file variable has content, the
      storage resolves, the position and the colour are valid, and the PDF parses and is not
      encrypted. */
  predicate SourceOpened(lib: Library, input: WatermarkInput)
  {
    lib.referenceFromJson(input.sourceFile).Success?
    && lib.loadFileVariable(lib.referenceFromJson(input.sourceFile).value).Success?
    && (var loaded := lib.loadFileVariable(lib.referenceFromJson(input.sourceFile).value).value;
        loaded.Some? && loaded.value.value.Some?
        && ResolveStorage(lib, input.destinationStorageDefinition, loaded.value.storageDefinition, DEFINITION_ERROR).Success?
        && ParsePosition(PositionText(input.watermarkPosition)).Some?
        && ChosenColor(lib, input.watermarkColor).Success?
        && ParseDocument(lib, loaded.value.value, LOAD_ERROR).Success?)
  }

  /** A successful run opened the source; a source refused as encrypted was never opened. */
  lemma SourceOpenedOnSuccess(lib: Library, input: WatermarkInput)
    ensures WatermarkSteps(lib, input).Success? ==> SourceOpened(lib, input)
    ensures WatermarkSteps(lib, input) == Failure(ConnectorException(ENCRYPTED_PDF_NOT_SUPPORTED)) ==> !SourceOpened(lib, input)
  {
  }

  /** `execute`: every exception, named or not, is reported as OPERATION_ERROR. */
  function WatermarkOutcome(lib: Library, input: WatermarkInput): (r: Result<string, Thrown>)
    ensures r.Success? <==> WatermarkSteps(lib, input).Success?
    ensures r.Failure? ==> r == Failure(ConnectorException(OPERATION_ERROR))
  {
    CatchAll(WatermarkSteps(lib, input), OPERATION_ERROR)
  }

  // ---------------------------------------------------------------- properties

  /** With a well-behaved library, the stored document opens as the source's pages, each
      showing what it showed before with the watermark text drawn over it last. */
  lemma WatermarkStoresOverlaidPages(lib: Library, input: WatermarkInput, docSource: FileVariable, parsed: LoadedPdf)
    requires RoundTrips(lib)
    requires lib.referenceFromJson(input.sourceFile).Success?
    requires lib.loadFileVariable(lib.referenceFromJson(input.sourceFile).value) == Success(Some(docSource))
    requires docSource.value.Some? && lib.loadPdf(docSource.value.value) == Success(parsed)
    requires WatermarkOutcome(lib, input).Success?
    ensures LoadDocument.LoadDocSource(lib, Some(WatermarkOutcome(lib, input).value)).Success?
    ensures ParseDocument(lib, LoadDocument.LoadDocSource(lib, Some(WatermarkOutcome(lib, input).value)).value.value, LOAD_ERROR).Success?
    ensures var pages := ParseDocument(lib, LoadDocument.LoadDocSource(lib, Some(WatermarkOutcome(lib, input).value)).value.value, LOAD_ERROR).value.pages;
            |pages| == |parsed.pages|
            && forall i :: 0 <= i < |pages| ==>
                 pages[i].content == parsed.pages[i].content
                 && |pages[i].overlays| == |parsed.pages[i].overlays| + 1
                 && pages[i].overlays[..|parsed.pages[i].overlays|] == parsed.pages[i].overlays
                 && pages[i].overlays[|parsed.pages[i].overlays|].text == input.watermark
    ensures ChosenColor(lib, input.watermarkColor).Success? && ParsePosition(PositionText(input.watermarkPosition)).Some?
    ensures var pages := ParseDocument(lib, LoadDocument.LoadDocSource(lib, Some(WatermarkOutcome(lib, input).value)).value.value, LOAD_ERROR).value.pages;
            forall i :: 0 <= i < |pages| ==>
              pages[i].overlays[|parsed.pages[i].overlays|].font == HelveticaBold
              && pages[i].overlays[|parsed.pages[i].overlays|].color == ChosenColor(lib, input.watermarkColor).value
              && pages[i].overlays[|parsed.pages[i].overlays|].placement
                 == PlacementFor(ParsePosition(PositionText(input.watermarkPosition)).value, ChosenDegree(input.watermarkRotation))
    ensures ResolveStorage(lib, input.destinationStorageDefinition, docSource.storageDefinition, DEFINITION_ERROR).Success?
    ensures var stored := LoadDocument.LoadDocSource(lib, Some(WatermarkOutcome(lib, input).value)).value;
            stored.name == input.destinationFileName
            && stored.storageDefinition
               == ResolveStorage(lib, input.destinationStorageDefinition, docSource.storageDefinition, DEFINITION_ERROR).value
  {
    var storage := ResolveStorage(lib, input.destinationStorageDefinition, docSource.storageDefinition, DEFINITION_ERROR).value;
    var position := ParsePosition(PositionText(input.watermarkPosition)).value;
    var color := ChosenColor(lib, input.watermarkColor).value;
    var overlay := OverlayFor(input.watermark, color, position, ChosenDegree(input.watermarkRotation));
    var pages := Watermarked(lib, parsed.pages, overlay).value;
    var fileVariable := SaveOutputPdfDocument(lib, pages, input.destinationFileName, storage).value;
    var outputReference := lib.saveFileVariable(fileVariable).value;
    assert WatermarkOutcome(lib, input).value == lib.referenceToJson(outputReference);
    LoadDocument.StoredVariableLoadsBack(lib, fileVariable, outputReference);
    SavedDocumentReloads(lib, pages, input.destinationFileName, storage, LOAD_ERROR);
    forall i | 0 <= i < |pages|
      ensures pages[i].overlays[..|parsed.pages[i].overlays|] == parsed.pages[i].overlays
    {
      assert pages[i].overlays == parsed.pages[i].overlays + [overlay];
    }
  }

  /** A position other than the exact names TOP, CENTER and BOTTOM makes the whole operation
      fail, lower-case spellings included. */
  lemma LowerCasePositionRejected(lib: Library, input: WatermarkInput)
    requires input.watermarkPosition == Some("center")
    ensures WatermarkOutcome(lib, input).Failure?
  {
    assert Trim("center") == "center";
  }

  // ---------------------------------------------------------------- the method

  /** The page loop: `addWatermarkText` on every page of the document, in order. */
  method WatermarkPages(lib: Library, document: PdfDocument, option: WriterOption, text: string)
    returns (r: Result<(), Thrown>)
    modifies document
    ensures r.Success? <==> Watermarked(lib, old(document.pages), option.OverlayOf(text)).Success?
    ensures r.Success? ==> document.pages == Watermarked(lib, old(document.pages), option.OverlayOf(text)).value
    ensures r.Failure? ==> r.error == OtherException
    ensures document.closed == old(document.closed)
  {
    ghost var original := document.pages;
    var overlay := option.OverlayOf(text);
    var i := 0;
    while i < |document.pages|
      invariant 0 <= i <= |document.pages| == |original|
      invariant forall j :: 0 <= j < i ==> lib.drawText(original[j], overlay)
      invariant forall j :: 0 <= j < i ==> document.pages[j] == WithOverlay(original[j], overlay)
      invariant forall j :: i <= j < |original| ==> document.pages[j] == original[j]
      invariant document.closed == old(document.closed)
    {
      var added := AddWatermarkText(lib, document, i, option, text);
      if added.Failure? {
        return Failure(added.error);
      }
      i := i + 1;
    }
    r := Success(());
  }

  /** The `try` block, with the source document handed back for the `finally` block. */
  method Attempt(lib: Library, input: WatermarkInput)
    returns (r: Result<string, Thrown>, source: Option<PdfDocument>, ghost leaked: Option<PdfDocument>)
    ensures r == WatermarkSteps(lib, input)
    ensures source.Some? ==> fresh(source.value) && !source.value.closed
    ensures leaked.Some? ==> fresh(leaked.value) && !leaked.value.closed && source.None?
    ensures r.Success? ==> source.Some?
    ensures source.Some? <==> SourceOpened(lib, input)
    ensures leaked.Some? <==> r == Failure(ConnectorException(ENCRYPTED_PDF_NOT_SUPPORTED))
  {
    source, leaked := None, None;
    var reference := lib.referenceFromJson(input.sourceFile);
    if reference.Failure? {
      return Failure(OtherException), source, leaked;
    }
    var loaded := lib.loadFileVariable(reference.value);
    if loaded.Failure? {
      return Failure(OtherException), source, leaked;
    }
    if loaded.value.None? || loaded.value.value.value.None? {
      return Failure(ConnectorException(LOAD_ERROR)), source, leaked;
    }
    var docSource := loaded.value.value;
    var storage := ResolveStorage(lib, input.destinationStorageDefinition, docSource.storageDefinition, DEFINITION_ERROR);
    if storage.Failure? {
      return Failure(storage.error), source, leaked;
    }
    var writerOption := new WriterOption.GetInstance();
    var textPosition := ParsePosition(PositionText(input.watermarkPosition));
    if textPosition.None? {
      return Failure(OtherException), source, leaked;
    }
    writerOption := writerOption.SetTextPosition(textPosition.value);
    if input.watermarkColor.Some? {
      var color := ColorFromString(lib, input.watermarkColor.value);
      if color.None? {
        return Failure(ConnectorException(INVALID_COLOR)), source, leaked;
      }
      writerOption := writerOption.SetColor(color.value);
    }
    if input.watermarkRotation.Some? {
      writerOption := writerOption.SetRotation(ChosenDegree(input.watermarkRotation));
    }
    assert writerOption.OverlayOf(input.watermark)
           == OverlayFor(input.watermark, ChosenColor(lib, input.watermarkColor).value, textPosition.value,
                         ChosenDegree(input.watermarkRotation));
    var sourceDocument: Result<PdfDocument, Thrown>;
    sourceDocument, leaked := PdfToolbox.LoadPdfDocument(lib, docSource);
    if sourceDocument.Failure? {
      return Failure(sourceDocument.error), source, leaked;
    }
    var document := sourceDocument.value;
    source := Some(document);
    var drawn := WatermarkPages(lib, document, writerOption, input.watermark);
    if drawn.Failure? {
      return Failure(drawn.error), source, leaked;
    }
    var saved := SaveOutputPdfDocument(lib, document.pages, input.destinationFileName, storage.value);
    if saved.Failure? {
      return Failure(saved.error), source, leaked;
    }
    var outputReference := lib.saveFileVariable(saved.value);
    if outputReference.Failure? {
      return Failure(OtherException), source, leaked;
    }
    r := Success(lib.referenceToJson(outputReference.value));
  }

  /** `execute`: the attempt with every exception reported as OPERATION_ERROR, and the
      `finally` block closing the source document when it was opened (`handles`, the
      documents it closed). */
  method Execute(lib: Library, input: WatermarkInput)
    returns (r: Result<string, Thrown>, ghost leaked: Option<PdfDocument>, ghost handles: seq<PdfDocument>)
    ensures r == WatermarkOutcome(lib, input)
    ensures leaked.Some? ==> !leaked.value.closed && leaked.value !in handles
    ensures (forall d :: d in handles ==> fresh(d)) && Distinct(handles) && AllClosed(handles)
    ensures r.Success? ==> |handles| == 1
    ensures |handles| == if SourceOpened(lib, input) then 1 else 0
    ensures leaked.Some? ==> WatermarkSteps(lib, input) == Failure(ConnectorException(ENCRYPTED_PDF_NOT_SUPPORTED))
  {
    var raw: Result<string, Thrown>;
    var source: Option<PdfDocument>;
    raw, source, leaked := Attempt(lib, input);
    handles := [];
    if source.Some? {
      source.value.Close();
      handles := [source.value];
    }
    r := CatchAll(raw, OPERATION_ERROR);
  }
}
