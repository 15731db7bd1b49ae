/** `RetrieveStorageDefinition`: where a produced document goes. An explicit storage
    definition in the input wins; otherwise the storage of a default source document is
    used; and a caller that needs a storage gets an error when there is none. */
module RetrieveStorageDefinition {
  import opened Wrappers
  import opened JavaLang
  import opened Documents
  import opened Platform

  const BAD_STORAGE_DEFINITION := "BAD_STORAGE_DEFINITION"
  const BAD_STORAGE_DEFINITION_LABEL := "The storage definition is not correctly describe"
  const NO_DESTINATION := "ERROR_NO_DESTINATION_STORAGE_DEFINITION_DEFINE"
  const NO_DESTINATION_LABEL := "No Storage definition is found, please define one"

  /** The override-then-fallback choice every operation makes, with the error code the
      caller raises when the override does not parse: a non-blank override is parsed with
      `StorageDefinition.getFromString`, anything else leaves the fallback. */
  function ResolveStorage(lib: Library, override: Option<string>, fallback: Option<StorageDefinition>,
                          code: string): (r: Result<Option<StorageDefinition>, Thrown>)
    ensures r.Failure? ==> r.error == ConnectorException(code)
    ensures NullOrBlank(override) ==> r == Success(fallback)
    ensures !NullOrBlank(override) && lib.storageFromString(override.value).Success? ==>
              r == Success(lib.storageFromString(override.value).value)
  {
    if NullOrBlank(override) then Success(fallback)
    else match lib.storageFromString(override.value)
      case Success(storage) => Success(storage)
      case Failure(_) => Failure(ConnectorException(code))
  }

  /** A non-blank override is parsed whatever the fallback: the fallback then plays no
      part, neither in the result nor in the error, and a success is the parsed storage. */
  lemma OverrideIgnoresFallback(lib: Library, override: Option<string>, f1: Option<StorageDefinition>,
                                f2: Option<StorageDefinition>, code: string)
    requires !NullOrBlank(override)
    ensures ResolveStorage(lib, override, f1, code) == ResolveStorage(lib, override, f2, code)
    ensures ResolveStorage(lib, override, f1, code).Success? <==> lib.storageFromString(override.value).Success?
    ensures ResolveStorage(lib, override, f1, code).Success? ==>
              ResolveStorage(lib, override, f1, code).value == lib.storageFromString(override.value).value
  {
  }

  /** An override made only of characters at or below U+0020 counts as absent. */
  lemma WhitespaceOverrideFallsBack(lib: Library, override: string, fallback: Option<StorageDefinition>,
                                    code: string)
    requires forall i :: 0 <= i < |override| ==> override[i] <= ' '
    ensures ResolveStorage(lib, Some(override), fallback, code) == Success(fallback)
  {
    BlankIffAllSpace(override);
  }

  /** `getStorageDefinition(pdfInput, defaultDocSource, throwExceptionIfNull, ...)`, given the
      input's `destinationStorageDefinition` text. */
  function GetStorageDefinition(lib: Library, destinationStorageDefinition: Option<string>,
                                defaultDocSource: Option<FileVariable>,
                                throwExceptionIfNull: bool): (r: Result<Option<StorageDefinition>, Thrown>)
    ensures r.Failure? ==> r.error in {ConnectorException(BAD_STORAGE_DEFINITION), ConnectorException(NO_DESTINATION)}
    ensures throwExceptionIfNull && r.Success? ==> r.value.Some?
    ensures !throwExceptionIfNull ==> r != Failure(ConnectorException(NO_DESTINATION))
    ensures r.Failure? && r.error == ConnectorException(NO_DESTINATION) ==>
      ResolveStorage(lib, destinationStorageDefinition, DefaultStorage(defaultDocSource), BAD_STORAGE_DEFINITION)
        == Success(None)
    ensures !NullOrBlank(destinationStorageDefinition) && lib.storageFromString(destinationStorageDefinition.value).Success? ==>
      var parsed := lib.storageFromString(destinationStorageDefinition.value).value;
      r == (if throwExceptionIfNull && parsed.None? then Failure(ConnectorException(NO_DESTINATION)) else Success(parsed))
    ensures !NullOrBlank(destinationStorageDefinition) && lib.storageFromString(destinationStorageDefinition.value).Failure? ==>
      r == Failure(ConnectorException(BAD_STORAGE_DEFINITION))
  {
    var storage :- ResolveStorage(lib, destinationStorageDefinition, DefaultStorage(defaultDocSource),
                                  BAD_STORAGE_DEFINITION);
    if throwExceptionIfNull && storage.None? then Failure(ConnectorException(NO_DESTINATION))
    else Success(storage)
  }

  /** `defaultDocSource == null ? null : defaultDocSource.getStorageDefinition()`. */
  function DefaultStorage(defaultDocSource: Option<FileVariable>): Option<StorageDefinition>
  {
    if defaultDocSource.None? then None else defaultDocSource.value.storageDefinition
  }

  /** Without an override, the result is the default source's storage when there is one;
      with `throwExceptionIfNull` a missing one is the no-destination error, otherwise the
      result is null. */
  lemma NoOverrideUsesDefault(lib: Library, override: Option<string>, defaultDocSource: Option<FileVariable>,
                              throwExceptionIfNull: bool)
    requires NullOrBlank(override)
    ensures DefaultStorage(defaultDocSource).Some? ==>
      GetStorageDefinition(lib, override, defaultDocSource, throwExceptionIfNull)
        == Success(DefaultStorage(defaultDocSource))
    ensures defaultDocSource.None? ==>
      GetStorageDefinition(lib, override, defaultDocSource, throwExceptionIfNull)
        == (if throwExceptionIfNull then Failure(ConnectorException(NO_DESTINATION)) else Success(None))
  {
  }

  /** The vocabulary of BPMN errors `getStorageDefinition` can raise. */
  function BpmnErrors(): (errors: map<string, string>)
    ensures errors.Keys == {NO_DESTINATION, BAD_STORAGE_DEFINITION}
  {
    map[NO_DESTINATION := NO_DESTINATION_LABEL, BAD_STORAGE_DEFINITION := BAD_STORAGE_DEFINITION_LABEL]
  }
}
