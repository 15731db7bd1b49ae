/** `PdfInput`: the variables one call of the connector receives, with the defaults its
    getters apply, and the storage definition it can build from its own fields. */
module PdfInputs {
  import opened Wrappers
  import opened JavaLang
  import opened Documents
  import opened Platform

  const INCORRECT_STORAGEDEFINITION := "INCORRECTSTORAGEDEFINITION"
  const DEFAULT_EXTRACT_EXPRESSION := "1-n"
  const DEFAULT_DPI := 300

  /** The bound input. `None` is a null field. `destinationJsonStorageDefinition` is an
      arbitrary object and is kept as its `toString()` text. */
  datatype PdfInput = PdfInput(
    pdfFunction: Option<string>,
    sourceFile: Option<string>,
    listSourceFile: Option<seq<string>>,
    extractExpression: Option<string>,
    destinationFileName: Option<string>,
    destinationJsonStorageDefinition: Option<string>,
    destinationStorageDefinition: Option<string>,
    destinationStorageDefinitionComplement: Option<string>,
    destinationStorageDefinitionCmis: Option<string>,
    dpi: Option<int>)

  /** A freshly constructed input, before any variable is bound: every field null except
      `dpi`, whose initialiser is 300. */
  function NewPdfInput(): (input: PdfInput)
    ensures input.dpi == Some(DEFAULT_DPI)
    ensures input.sourceFile.None? && input.extractExpression.None? && input.pdfFunction.None?
  {
    PdfInput(None, None, None, None, None, None, None, None, None, Some(DEFAULT_DPI))
  }

  /** `getExtractExpression`: a null or blank expression means every page, `1-n`; any other
      is returned as it is, untrimmed. */
  function ExtractExpressionOrDefault(extractExpression: Option<string>): (r: string)
    ensures NullOrBlank(extractExpression) ==> r == DEFAULT_EXTRACT_EXPRESSION
    ensures !NullOrBlank(extractExpression) ==> r == extractExpression.value
  {
    if NullOrBlank(extractExpression) then DEFAULT_EXTRACT_EXPRESSION else extractExpression.value
  }

  /** A blank expression is exactly one made of characters at or below U+0020. */
  lemma ExtractExpressionDefaultIffSpaces(s: string)
    ensures ExtractExpressionOrDefault(Some(s)) == s || ExtractExpressionOrDefault(Some(s)) == DEFAULT_EXTRACT_EXPRESSION
    ensures (forall i :: 0 <= i < |s| ==> s[i] <= ' ') ==> ExtractExpressionOrDefault(Some(s)) == DEFAULT_EXTRACT_EXPRESSION
    ensures (exists i :: 0 <= i < |s| && s[i] > ' ') ==> ExtractExpressionOrDefault(Some(s)) == s
  {
    BlankIffAllSpace(s);
  }

  /** The string path of `getDestinationStorageDefinitionObject` once the definition is
      parsed: the complement is copied, an empty one becoming null, and the CMIS text goes
      into `complementInObject`. */
  function WithComplements(storage: StorageDefinition, complement: Option<string>,
                           cmis: Option<string>): (r: StorageDefinition)
    ensures r.kind == storage.kind
    ensures r.complement == (if complement == Some("") then None else complement)
    ensures r.complementInObject == cmis
  {
    var withComplement := storage.(complement := complement);
    var normalised := if withComplement.complement.Some? && withComplement.complement.value == ""
                      then withComplement.(complement := None) else withComplement;
    normalised.(complementInObject := cmis)
  }

  /** `getDestinationStorageDefinitionObject`: the JSON definition when its text is not
      blank; otherwise null when there is no string definition either; otherwise the
      string definition with the complements added. Every failure, a null parse result on
      the string path included, is INCORRECTSTORAGEDEFINITION. */
  function GetDestinationStorageDefinitionObject(lib: Library, input: PdfInput)
    : (r: Result<Option<StorageDefinition>, Thrown>)
    ensures r.Failure? ==> r.error == ConnectorException(INCORRECT_STORAGEDEFINITION)
    ensures !NullOrBlank(input.destinationJsonStorageDefinition) ==>
      (r.Success? <==> lib.storageFromObject(input.destinationJsonStorageDefinition.value).Success?)
    ensures !NullOrBlank(input.destinationJsonStorageDefinition) && r.Success? ==>
      r.value == lib.storageFromObject(input.destinationJsonStorageDefinition.value).value
    ensures NullOrBlank(input.destinationJsonStorageDefinition) && NullOrBlank(input.destinationStorageDefinition) ==>
      r == Success(None)
    ensures NullOrBlank(input.destinationJsonStorageDefinition) && !NullOrBlank(input.destinationStorageDefinition) ==>
      (r.Success? <==> lib.storageFromStorageDefinition(input.destinationStorageDefinition.value).Success?
                       && lib.storageFromStorageDefinition(input.destinationStorageDefinition.value).value.Some?)
    ensures NullOrBlank(input.destinationJsonStorageDefinition) && r.Success? && r.value.Some? ==>
      r.value.value.complementInObject == input.destinationStorageDefinitionCmis
      && r.value.value.complement != Some("")
  {
    var attempt: Result<Option<StorageDefinition>, Thrown> :=
      if !NullOrBlank(input.destinationJsonStorageDefinition) then
        Unexpected(lib.storageFromObject(input.destinationJsonStorageDefinition.value))
      else if NullOrBlank(input.destinationStorageDefinition) then
        Success(None)
      else
        match lib.storageFromStorageDefinition(input.destinationStorageDefinition.value)
        case Failure(_) => Failure(OtherException)
        // a null definition is dereferenced when the complement is assigned
        case Success(None) => Failure(OtherException)
        case Success(Some(storage)) =>
          Success(Some(WithComplements(storage, input.destinationStorageDefinitionComplement,
                                       input.destinationStorageDefinitionCmis)));
    CatchAll(attempt, INCORRECT_STORAGEDEFINITION)
  }

  /** A whitespace-only complement is not empty and is kept as it is. */
  lemma BlankComplementKept(storage: StorageDefinition, cmis: Option<string>)
    ensures WithComplements(storage, Some(" "), cmis).complement == Some(" ")
    ensures WithComplements(storage, Some(""), cmis).complement == None
  {
  }
}
