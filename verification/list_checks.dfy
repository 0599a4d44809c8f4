/** `_list_objects_checks` of pytest_minio_mock/utils.py: turns the
    arguments of minio's `list_objects` into the start-after name and
    recursion flag the mock's listing takes, refusing the combinations the
    mock does not implement. */
module ListChecks {
  import opened Wrappers
  import opened Errors

  const ApiV1Refusal := "API V1 is not mocked"

  const DelimiterRefusal := "Delimiter different from None or '/' is not mocked"

  /** API version 1 is refused before anything else. A missing start-after
      name means the empty one. No delimiter means a recursive listing,
      `/` a non-recursive one, any other delimiter is refused. */
  function ListObjectsChecks(useApiV1: bool, startAfter: Option<string>, delimiter: Option<string>)
    : (r: Result<(string, bool), Error>)
    ensures useApiV1 ==> r == Failure(ValueError(ApiV1Refusal))
    ensures !useApiV1 && delimiter.Some? && delimiter.value != "/" ==>
      r == Failure(ValueError(DelimiterRefusal))
    ensures r.Success? ==> r.value.0 == (if startAfter.Some? then startAfter.value else "")
    ensures r.Success? ==> (r.value.1 <==> delimiter.None?)
  {
    if useApiV1 then Failure(ValueError(ApiV1Refusal))
    else
      var start := if startAfter.None? then "" else startAfter.value;
      if delimiter.None? then Success((start, true))
      else if delimiter.value == "/" then Success((start, false))
      else Failure(ValueError(DelimiterRefusal))
  }

  /** The checks pass exactly for API version 2 with no delimiter or `/`. */
  lemma ChecksPassIff(useApiV1: bool, startAfter: Option<string>, delimiter: Option<string>)
    ensures ListObjectsChecks(useApiV1, startAfter, delimiter).Success?
      <==> !useApiV1 && (delimiter.None? || delimiter == Some("/"))
  {
  }
}
