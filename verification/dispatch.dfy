/** `PdfFunction` ("c-pdf-function"): the connector that hands a request to the sub-function
    named by its `pdfFunction` variable, and that gathers the description and the BPMN errors
    of every sub-function. */
module PdfFunction {
  import opened Wrappers
  import opened JavaLang
  import opened Documents
  import opened Platform
  import opened PdfInputs
  import MergePdf
  import ImageToPdf
  import PdfToImage

  const ERROR_UNKNOWN_FUNCTION := "UNKNOWN_FUNCTION"
  const ERROR_UNKNOWN_FUNCTION_LABEL := "The function is unknown. There is a limited number of operation"
  const DESCRIPTION_PREFIX := "Different PDF functions available: "

  // ---------------------------------------------------------------- the registry

  /** The classes `allFunctions` lists, in their declared order. */
  datatype FunctionClass = ExtractPagesClass | MergePdfClass | WatermarkClass | ImageToPdfClass | PdfToImageClass

  const AllFunctions: seq<FunctionClass> := [ExtractPagesClass, MergePdfClass, WatermarkClass, ImageToPdfClass, PdfToImageClass]

  /** The classes that implement `PdfSubFunction`. */
  datatype SubFunction = MergePdfs | ImagesToPdf | PdfToImages

  /** An instance of the class cast to `PdfSubFunction`: the extract-pages and watermark
      functions implement only the connector interface, so the cast throws for them. */
  function Cast(c: FunctionClass): (r: Option<SubFunction>)
    ensures r.None? <==> c == ExtractPagesClass || c == WatermarkClass
  {
    match c
    case ExtractPagesClass => None
    case MergePdfClass => Some(MergePdfs)
    case WatermarkClass => None
    case ImageToPdfClass => Some(ImagesToPdf)
    case PdfToImageClass => Some(PdfToImages)
  }

  function SubFunctionType(s: SubFunction): string
  {
    match s
    case MergePdfs => MergePdf.TYPE
    case ImagesToPdf => ImageToPdf.TYPE
    case PdfToImages => PdfToImage.TYPE
  }

  function SubFunctionName(s: SubFunction): string
  {
    match s
    case MergePdfs => MergePdf.NAME
    case ImagesToPdf => ImageToPdf.NAME
    case PdfToImages => PdfToImage.NAME
  }

  function SubFunctionDescription(s: SubFunction): string
  {
    match s
    case MergePdfs => MergePdf.DESCRIPTION
    case ImagesToPdf => ImageToPdf.DESCRIPTION
    case PdfToImages => PdfToImage.DESCRIPTION
  }

  /** `getSubFunctionListBpmnErrors` of each sub-function. */
  function SubFunctionErrors(s: SubFunction): map<string, string>
  {
    match s
    case MergePdfs => MergePdf.BpmnErrors()
    case ImagesToPdf => ImageToPdf.BpmnErrors()
    case PdfToImages => PdfToImage.BpmnErrors()
  }

  /** The classes whose cast succeeds, in order, each as its sub-function. */
  function Registry(classes: seq<FunctionClass>): (r: seq<SubFunction>)
    ensures |r| <= |classes|
    decreases |classes|
  {
    if classes == [] then []
    else
      var last := classes[|classes| - 1];
      Registry(classes[..|classes| - 1]) + (if Cast(last).Some? then [Cast(last).value] else [])
  }

  /** A sub-function is registered exactly when some class of the list casts to it. */
  lemma {:induction false} RegistryMembers(classes: seq<FunctionClass>, s: SubFunction)
    ensures s in Registry(classes) <==> exists i :: 0 <= i < |classes| && Cast(classes[i]) == Some(s)
    decreases |classes|
  {
    if classes != [] {
      var front := classes[..|classes| - 1];
      RegistryMembers(front, s);
      if exists i :: 0 <= i < |classes| && Cast(classes[i]) == Some(s) {
        var i :| 0 <= i < |classes| && Cast(classes[i]) == Some(s);
        if i < |front| {
          assert Cast(front[i]) == Some(s);
        }
      }
      if exists i :: 0 <= i < |front| && Cast(front[i]) == Some(s) {
        var i :| 0 <= i < |front| && Cast(front[i]) == Some(s);
        assert Cast(classes[i]) == Some(s);
      }
    }
  }

  /** The registry of `allFunctions`: merge, image to PDF and PDF to images, in that order. */
  lemma RegistryOfAllFunctions()
    ensures Registry(AllFunctions) == [MergePdfs, ImagesToPdf, PdfToImages]
  {
    var c1, c2, c3, c4 := AllFunctions[..1], AllFunctions[..2], AllFunctions[..3], AllFunctions[..4];
    assert c1[..0] == [] && c2[..1] == c1 && c3[..2] == c2 && c4[..3] == c3 && AllFunctions[..4] == c4;
    assert Registry(c1) == [];
    assert Registry(c2) == [MergePdfs];
    assert Registry(c3) == [MergePdfs];
    assert Registry(c4) == [MergePdfs, ImagesToPdf];
  }

  /** No two registered sub-functions share a type, so the type names one of them. */
  lemma RegisteredTypesDistinct()
    ensures forall i, j :: 0 <= i < j < |Registry(AllFunctions)| ==>
              SubFunctionType(Registry(AllFunctions)[i]) != SubFunctionType(Registry(AllFunctions)[j])
  {
    RegistryOfAllFunctions();
  }

  /** `getListSubFunctions`: every class of `allFunctions` is instantiated and cast, and the
      ones that fail are skipped. */
  method GetListSubFunctions() returns (listSubFunction: seq<SubFunction>)
    ensures listSubFunction == Registry(AllFunctions)
  {
    listSubFunction := [];
    for i := 0 to |AllFunctions|
      invariant listSubFunction == Registry(AllFunctions[..i])
    {
      assert AllFunctions[..i + 1][..i] == AllFunctions[..i];
      var inputSubFunction := Cast(AllFunctions[i]);
      if inputSubFunction.Some? {
        listSubFunction := listSubFunction + [inputSubFunction.value];
      }
    }
    assert AllFunctions[..|AllFunctions|] == AllFunctions;
  }

  // ---------------------------------------------------------------- dispatch

  /** The index of the first registered sub-function whose type equals the requested function;
      a null request equals none. */
  function FirstMatch(registry: seq<SubFunction>, requested: Option<string>): (r: Option<nat>)
    ensures r.Some? ==> r.value < |registry| && requested == Some(SubFunctionType(registry[r.value]))
    ensures r.Some? ==> forall j :: 0 <= j < r.value ==> requested != Some(SubFunctionType(registry[j]))
    ensures r.None? <==> forall j :: 0 <= j < |registry| ==> requested != Some(SubFunctionType(registry[j]))
    decreases |registry|
  {
    if registry == [] then None
    else if requested == Some(SubFunctionType(registry[0])) then Some(0)
    else
      var rest := FirstMatch(registry[1..], requested);
      if rest.None? then None else Some(rest.value + 1)
  }

  /** What a sub-function hands back: one file reference, or a list of them. */
  datatype Produced = OneFile(reference: string) | FileList(references: seq<string>)

  /** What the output object of a sub-function holds. */
  predicate Delivers(output: PdfOutput, produced: Produced)
    reads output
  {
    match produced
    case OneFile(reference) => output.destinationFile == Some(reference)
    case FileList(references) => output.listDestinationsFile == references
  }

  /** `executeSubFunction` of one sub-function, as that sub-function specifies it. */
  function SubFunctionOutcome(lib: Library, input: PdfInput, s: SubFunction): (r: Result<Produced, Thrown>)
  {
    match s
    case MergePdfs =>
      var o := MergePdf.MergeOutcome(lib, input);
      if o.Success? then Success(OneFile(o.value)) else Failure(o.error)
    case ImagesToPdf =>
      var o := ImageToPdf.ImageToPdfOutcome(lib, input);
      if o.Success? then Success(OneFile(o.value)) else Failure(o.error)
    case PdfToImages =>
      var o := PdfToImage.ToImagesOutcome(lib, input);
      if o.Success? then Success(FileList(o.value)) else Failure(o.error)
  }

  /** The sub-function a request selects in the registry of `allFunctions`. */
  function Selected(input: PdfInput): Option<SubFunction>
  {
    var registry := Registry(AllFunctions);
    var m := FirstMatch(registry, input.pdfFunction);
    if m.Some? then Some(registry[m.value]) else None
  }

  /** `execute`: the selected sub-function's own outcome, not re-wrapped; UNKNOWN_FUNCTION
      when no sub-function has the requested type. */
  function ExecuteOutcome(lib: Library, input: PdfInput): Result<Produced, Thrown>
  {
    match Selected(input)
    case None => Failure(ConnectorException(ERROR_UNKNOWN_FUNCTION))
    case Some(s) => SubFunctionOutcome(lib, input, s)
  }

  /** Runs the selected sub-function. */
  method ExecuteSubFunction(lib: Library, input: PdfInput, s: SubFunction) returns (r: Result<PdfOutput, Thrown>)
    ensures r.Success? <==> SubFunctionOutcome(lib, input, s).Success?
    ensures r.Success? ==> fresh(r.value) && Delivers(r.value, SubFunctionOutcome(lib, input, s).value)
    ensures r.Failure? ==> r.error == SubFunctionOutcome(lib, input, s).error
  {
    match s
    case MergePdfs =>
      ghost var leaked, handles;
      r, leaked, handles := MergePdf.ExecuteSubFunction(lib, input);
    case ImagesToPdf =>
      ghost var handles;
      r, handles := ImageToPdf.ExecuteSubFunction(lib, input);
    case PdfToImages =>
      ghost var leaked, handles;
      r, leaked, handles := PdfToImage.ExecuteSubFunction(lib, input);
  }

  /** `execute`: the registry is searched in order and the first sub-function of the requested
      type runs; `executed` records the sub-functions that ran. */
  method Execute(lib: Library, input: PdfInput) returns (r: Result<PdfOutput, Thrown>, ghost executed: seq<SubFunction>)
    ensures r.Success? <==> ExecuteOutcome(lib, input).Success?
    ensures r.Success? ==> fresh(r.value) && Delivers(r.value, ExecuteOutcome(lib, input).value)
    ensures r.Failure? ==> r.error == ExecuteOutcome(lib, input).error
    ensures executed == (if Selected(input).Some? then [Selected(input).value] else [])
  {
    executed := [];
    var requested := input.pdfFunction;
    var subFunctions := GetListSubFunctions();
    for i := 0 to |subFunctions|
      invariant forall j :: 0 <= j < i ==> requested != Some(SubFunctionType(subFunctions[j]))
    {
      if Some(SubFunctionType(subFunctions[i])) == requested {
        assert FirstMatch(subFunctions, requested) == Some(i);
        r := ExecuteSubFunction(lib, input, subFunctions[i]);
        executed := [subFunctions[i]];
        return;
      }
    }
    r := Failure(ConnectorException(ERROR_UNKNOWN_FUNCTION));
  }

  // ---------------------------------------------------------------- dispatch properties

  /** A request runs the registered sub-function of exactly that type, and its outcome is
      passed on unchanged. */
  lemma TypeSelectsItsSubFunction(lib: Library, input: PdfInput, s: SubFunction)
    requires s in Registry(AllFunctions) && input.pdfFunction == Some(SubFunctionType(s))
    ensures Selected(input) == Some(s)
    ensures ExecuteOutcome(lib, input) == SubFunctionOutcome(lib, input, s)
  {
    RegisteredTypesDistinct();
    var registry := Registry(AllFunctions);
    var i :| 0 <= i < |registry| && registry[i] == s;
    assert FirstMatch(registry, input.pdfFunction).Some?;
  }

  /** A request whose type no registered sub-function has, a null one included, runs nothing
      and fails with UNKNOWN_FUNCTION. */
  lemma UnknownTypeRejected(lib: Library, input: PdfInput)
    requires forall s :: s in Registry(AllFunctions) ==> input.pdfFunction != Some(SubFunctionType(s))
    ensures Selected(input).None?
    ensures ExecuteOutcome(lib, input) == Failure(ConnectorException(ERROR_UNKNOWN_FUNCTION))
  {
  }

  /** Only the three registered types are dispatched: the watermark and extract-pages
      functions are not reachable through this connector, and the type comparison is case
      sensitive. */
  lemma OnlyRegisteredTypesDispatched(f: string)
    ensures (exists s :: s in Registry(AllFunctions) && Some(f) == Some(SubFunctionType(s)))
            <==> f in {"merge-pdfs", "image-to-pdf", "pdf-to-images"}
  {
    RegistryOfAllFunctions();
    if f in {"merge-pdfs", "image-to-pdf", "pdf-to-images"} {
      if f == "merge-pdfs" {
        assert SubFunctionType(MergePdfs) == f;
      } else if f == "image-to-pdf" {
        assert SubFunctionType(ImagesToPdf) == f;
      } else {
        assert SubFunctionType(PdfToImages) == f;
      }
    }
  }

  // ---------------------------------------------------------------- BPMN errors

  /** The errors `getListBpmnErrors` gathers from a list of error maps: UNKNOWN_FUNCTION
      first, then each map put over what is there. */
  function Gathered(maps: seq<map<string, string>>): map<string, string>
    decreases |maps|
  {
    if maps == [] then map[ERROR_UNKNOWN_FUNCTION := ERROR_UNKNOWN_FUNCTION_LABEL]
    else Gathered(maps[..|maps| - 1]) + maps[|maps| - 1]
  }

  /** The error maps of a list of sub-functions, in order. */
  function ErrorMaps(subFunctions: seq<SubFunction>): (maps: seq<map<string, string>>)
    ensures |maps| == |subFunctions|
    ensures forall i :: 0 <= i < |subFunctions| ==> maps[i] == SubFunctionErrors(subFunctions[i])
  {
    seq(|subFunctions|, i requires 0 <= i < |subFunctions| => SubFunctionErrors(subFunctions[i]))
  }

  /** The codes gathered are UNKNOWN_FUNCTION and the codes of every map, and no other. */
  lemma {:induction false} GatheredKeys(maps: seq<map<string, string>>, code: string)
    ensures code in Gathered(maps) <==> code == ERROR_UNKNOWN_FUNCTION || exists i :: 0 <= i < |maps| && code in maps[i]
    decreases |maps|
  {
    if maps != [] {
      var front := maps[..|maps| - 1];
      GatheredKeys(front, code);
      if exists i :: 0 <= i < |maps| && code in maps[i] {
        var i :| 0 <= i < |maps| && code in maps[i];
        if i < |front| {
          assert code in front[i];
        }
      }
      if exists i :: 0 <= i < |front| && code in front[i] {
        var i :| 0 <= i < |front| && code in front[i];
        assert code in maps[i];
      }
    }
  }

  /** For a code several maps hold, the label of the last of them is kept. */
  lemma {:induction false} LaterLabelWins(maps: seq<map<string, string>>, i: nat, code: string)
    requires i < |maps| && code in maps[i]
    requires forall j :: i < j < |maps| ==> code !in maps[j]
    ensures code in Gathered(maps) && Gathered(maps)[code] == maps[i][code]
    decreases |maps|
  {
    if i < |maps| - 1 {
      var front := maps[..|maps| - 1];
      assert front[i] == maps[i];
      LaterLabelWins(front, i, code);
    }
  }

  /** A code no map holds keeps the UNKNOWN_FUNCTION label. */
  lemma {:induction false} UnknownLabelKept(maps: seq<map<string, string>>)
    requires forall j :: 0 <= j < |maps| ==> ERROR_UNKNOWN_FUNCTION !in maps[j]
    ensures ERROR_UNKNOWN_FUNCTION in Gathered(maps) && Gathered(maps)[ERROR_UNKNOWN_FUNCTION] == ERROR_UNKNOWN_FUNCTION_LABEL
    decreases |maps|
  {
    if maps != [] {
      GatheredKeys(maps[..|maps| - 1], ERROR_UNKNOWN_FUNCTION);
      UnknownLabelKept(maps[..|maps| - 1]);
    }
  }

  /** `getListBpmnErrors`. */
  method GetListBpmnErrors() returns (allErrors: map<string, string>)
    ensures allErrors == Gathered(ErrorMaps(Registry(AllFunctions)))
  {
    var subFunctions := GetListSubFunctions();
    allErrors := PutAllErrors(subFunctions);
  }

  /** The loop of `getListBpmnErrors`: UNKNOWN_FUNCTION first, then every sub-function's map
      put over it. */
  method PutAllErrors(subFunctions: seq<SubFunction>) returns (allErrors: map<string, string>)
    ensures allErrors == Gathered(ErrorMaps(subFunctions))
  {
    allErrors := map[ERROR_UNKNOWN_FUNCTION := ERROR_UNKNOWN_FUNCTION_LABEL];
    ghost var maps := ErrorMaps(subFunctions);
    for i := 0 to |subFunctions|
      invariant allErrors == Gathered(maps[..i])
    {
      GatheredStep(maps, i);
      allErrors := allErrors + SubFunctionErrors(subFunctions[i]);
    }
    assert maps[..|subFunctions|] == maps;
  }

  /** One more map put over the gathered ones. */
  lemma GatheredStep(maps: seq<map<string, string>>, i: nat)
    requires i < |maps|
    ensures Gathered(maps[..i + 1]) == Gathered(maps[..i]) + maps[i]
  {
    assert maps[..i + 1][..i] == maps[..i];
  }

  /** Every failure of a sub-function is a named error among the codes it declares. */
  lemma SubFunctionCodeDeclared(lib: Library, input: PdfInput, s: SubFunction)
    requires SubFunctionOutcome(lib, input, s).Failure?
    ensures SubFunctionOutcome(lib, input, s).error.ConnectorException?
    ensures SubFunctionOutcome(lib, input, s).error.code in SubFunctionErrors(s)
  {
    match s
    case MergePdfs => MergeCodeDeclared(lib, input);
    case ImagesToPdf => ImagesCodeDeclared(lib, input);
    case PdfToImages => PdfImagesCodeDeclared(lib, input);
  }

  lemma MergeCodeDeclared(lib: Library, input: PdfInput)
    ensures var o := MergePdf.MergeOutcome(lib, input);
            o.Failure? ==> SubFunctionOutcome(lib, input, MergePdfs) == Failure(o.error)
                           && o.error.ConnectorException? && o.error.code in SubFunctionErrors(MergePdfs)
  {
    MergePdf.OutcomeCodeDeclared(lib, input);
  }

  lemma ImagesCodeDeclared(lib: Library, input: PdfInput)
    ensures var o := ImageToPdf.ImageToPdfOutcome(lib, input);
            o.Failure? ==> SubFunctionOutcome(lib, input, ImagesToPdf) == Failure(o.error)
                           && o.error.ConnectorException? && o.error.code in SubFunctionErrors(ImagesToPdf)
  {
    ImageToPdf.OutcomeCodeDeclared(lib, input);
  }

  lemma PdfImagesCodeDeclared(lib: Library, input: PdfInput)
    ensures var o := PdfToImage.ToImagesOutcome(lib, input);
            o.Failure? ==> SubFunctionOutcome(lib, input, PdfToImages) == Failure(o.error)
                           && o.error.ConnectorException? && o.error.code in SubFunctionErrors(PdfToImages)
  {
    PdfToImage.OutcomeCodeDeclared(lib, input);
  }

  /** Every failure `execute` reports is a named error whose code `getListBpmnErrors` declares. */
  lemma EveryRaisedCodeDeclared(lib: Library, input: PdfInput)
    requires ExecuteOutcome(lib, input).Failure?
    ensures ExecuteOutcome(lib, input).error.ConnectorException?
    ensures ExecuteOutcome(lib, input).error.code in Gathered(ErrorMaps(Registry(AllFunctions)))
  {
    var registry := Registry(AllFunctions);
    var m := FirstMatch(registry, input.pdfFunction);
    if m.Some? {
      SubFunctionCodeDeclared(lib, input, registry[m.value]);
      DeclaredCodeGathered(registry, m.value, ExecuteOutcome(lib, input).error.code);
    } else {
      GatheredKeys(ErrorMaps(registry), ERROR_UNKNOWN_FUNCTION);
    }
  }

  /** A code one of the sub-functions declares is among the gathered codes. */
  lemma DeclaredCodeGathered(subFunctions: seq<SubFunction>, i: nat, code: string)
    requires i < |subFunctions| && code in SubFunctionErrors(subFunctions[i])
    ensures code in Gathered(ErrorMaps(subFunctions))
  {
    GatheredKeys(ErrorMaps(subFunctions), code);
  }

  // ---------------------------------------------------------------- description

  /** `getDescription`: the prefix, then the registered descriptions joined by commas. */
  function Description(subFunctions: seq<SubFunction>): (d: string)
  {
    DESCRIPTION_PREFIX + (if subFunctions == [] then "" else Join(Descriptions(subFunctions), ','))
  }

  /** The descriptions of a list of sub-functions, in order. */
  function Descriptions(subFunctions: seq<SubFunction>): (r: seq<string>)
    ensures |r| == |subFunctions|
    ensures forall i :: 0 <= i < |subFunctions| ==> r[i] == SubFunctionDescription(subFunctions[i])
  {
    seq(|subFunctions|, i requires 0 <= i < |subFunctions| => SubFunctionDescription(subFunctions[i]))
  }

  /** The description names every registered sub-function in order; because a description
      may itself hold a comma, the joined text splits back into the descriptions only when
      none does. */
  lemma DescriptionSplitsBack(subFunctions: seq<SubFunction>)
    requires subFunctions != []
    requires forall i :: 0 <= i < |subFunctions| ==> ',' !in SubFunctionDescription(subFunctions[i])
    ensures Description(subFunctions)[..|DESCRIPTION_PREFIX|] == DESCRIPTION_PREFIX
    ensures SplitAll(Description(subFunctions)[|DESCRIPTION_PREFIX|..], ',') == Descriptions(subFunctions)
  {
    var parts := Descriptions(subFunctions);
    assert Description(subFunctions)[|DESCRIPTION_PREFIX|..] == Join(parts, ',');
    SplitAllJoin(parts, ',');
  }

  /** The connector's own description. The image-to-PDF and PDF-to-images descriptions hold
      commas themselves, so this text does not split back into the three descriptions. */
  lemma DescriptionOfRegistry()
    ensures Description(Registry(AllFunctions)) == DESCRIPTION_PREFIX + MergePdf.DESCRIPTION + ","
              + ImageToPdf.DESCRIPTION + "," + PdfToImage.DESCRIPTION
  {
    RegistryOfAllFunctions();
    DescriptionOfThree(MergePdfs, ImagesToPdf, PdfToImages);
  }

  lemma DescriptionOfThree(a: SubFunction, b: SubFunction, c: SubFunction)
    ensures Description([a, b, c]) == DESCRIPTION_PREFIX + SubFunctionDescription(a) + [',']
              + SubFunctionDescription(b) + [','] + SubFunctionDescription(c)
  {
    var parts := Descriptions([a, b, c]);
    assert parts[0] == SubFunctionDescription(a) && parts[1] == SubFunctionDescription(b)
           && parts[2] == SubFunctionDescription(c);
    JoinUnrolled(parts, ',');
    assert Description([a, b, c]) == DESCRIPTION_PREFIX + Join(parts, ',');
    PrefixJoined(DESCRIPTION_PREFIX, parts[0], parts[1], parts[2], [',']);
  }

  lemma PrefixJoined<T>(prefix: seq<T>, x: seq<T>, y: seq<T>, z: seq<T>, sep: seq<T>)
    ensures prefix + (x + sep + y + sep + z) == prefix + x + sep + y + sep + z
  {
  }

  /** `Join` written out for three pieces. */
  lemma JoinUnrolled(parts: seq<string>, sep: char)
    requires |parts| == 3
    ensures Join(parts, sep) == parts[0] + [sep] + parts[1] + [sep] + parts[2]
  {
    assert Join(parts, sep) == parts[0] + [sep] + Join(parts[1..], sep);
    assert Join(parts[1..], sep) == parts[1] + [sep] + Join(parts[1..][1..], sep);
  }
}
