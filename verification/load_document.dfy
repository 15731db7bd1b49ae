/** `LoadDocument`: turning a reference (JSON text, or an already decoded reference) into the
    file variable it designates. Every failure on the way is reported as LOAD_DOCSOURCE. */
module LoadDocument {
  import opened Wrappers
  import opened Documents
  import opened Platform

  const LOAD_DOCSOURCE := "LOAD_DOCSOURCE"
  const LOAD_DOCSOURCE_LABEL := "The reference can't be decoded"
  const LOAD_ERROR := "LOAD_ERROR"
  const LOAD_ERROR_LABEL := "An error occurs during the load"

  /** `loadDocSourceFromReference`: the repository must return a file variable that holds
      bytes. A missing variable or missing bytes raises LOAD_ERROR inside the `try`, and the
      `catch (Exception e)` that follows turns it, like any other failure, into LOAD_DOCSOURCE. */
  function LoadDocSourceFromReference(lib: Library, reference: Option<FileReference>): (r: Result<FileVariable, Thrown>)
    ensures r.Success? <==> lib.loadFileVariable(reference).Success?
                            && lib.loadFileVariable(reference).value.Some?
                            && lib.loadFileVariable(reference).value.value.value.Some?
    ensures r.Success? ==> Some(r.value) == lib.loadFileVariable(reference).value
    ensures r.Success? ==> r.value.value.Some?
    ensures r.Failure? ==> r.error == ConnectorException(LOAD_DOCSOURCE)
  {
    var loaded: Result<FileVariable, Thrown> :=
      match lib.loadFileVariable(reference)
      case Failure(_) => Failure(OtherException)
      case Success(None) => Failure(ConnectorException(LOAD_ERROR))
      case Success(Some(docSource)) =>
        if docSource.value.None? then Failure(ConnectorException(LOAD_ERROR)) else Success(docSource);
    CatchAll(loaded, LOAD_DOCSOURCE)
  }

  /** `loadDocSource`: decode the JSON reference, then load it. A reference that cannot be
      decoded is LOAD_DOCSOURCE as well, so that is the only error this can raise. */
  function LoadDocSource(lib: Library, sourceFile: Option<string>): (r: Result<FileVariable, Thrown>)
    ensures r.Success? <==> lib.referenceFromJson(sourceFile).Success?
                            && LoadDocSourceFromReference(lib, lib.referenceFromJson(sourceFile).value).Success?
    ensures r.Success? ==> r == LoadDocSourceFromReference(lib, lib.referenceFromJson(sourceFile).value)
    ensures r.Failure? ==> r.error == ConnectorException(LOAD_DOCSOURCE)
  {
    var decoded: Result<FileVariable, Thrown> :=
      match lib.referenceFromJson(sourceFile)
      case Failure(_) => Failure(OtherException)
      case Success(reference) => LoadDocSourceFromReference(lib, reference);
    CatchOther(decoded, LOAD_DOCSOURCE)
  }

  /** A file variable stored by the repository loads back, from its JSON reference, as the
      same file variable, provided it holds bytes. */
  lemma StoredVariableLoadsBack(lib: Library, v: FileVariable, reference: FileReference)
    requires RoundTrips(lib)
    requires lib.saveFileVariable(v) == Success(reference)
    requires v.value.Some?
    ensures LoadDocSource(lib, Some(lib.referenceToJson(reference))) == Success(v)
  {
    assert lib.referenceFromJson(Some(lib.referenceToJson(reference))) == Success(Some(reference));
    assert lib.loadFileVariable(Some(reference)) == Success(Some(v));
  }

  /** A stored file variable with no bytes cannot be loaded back. */
  lemma EmptyVariableDoesNotLoad(lib: Library, v: FileVariable, reference: FileReference)
    requires RoundTrips(lib)
    requires lib.saveFileVariable(v) == Success(reference)
    requires v.value.None?
    ensures LoadDocSource(lib, Some(lib.referenceToJson(reference))) == Failure(ConnectorException(LOAD_DOCSOURCE))
  {
    assert lib.referenceFromJson(Some(lib.referenceToJson(reference))) == Success(Some(reference));
    assert lib.loadFileVariable(Some(reference)) == Success(Some(v));
  }

  /** `getBpmnErrors`. */
  function BpmnErrors(): (m: map<string, string>)
    ensures m.Keys == {LOAD_ERROR, LOAD_DOCSOURCE}
  {
    map[LOAD_ERROR := LOAD_ERROR_LABEL, LOAD_DOCSOURCE := LOAD_DOCSOURCE_LABEL]
  }
}
