/** The request section: the URL field, whose every edit re-derives the
    query-parameter rows, and the fixed list of request methods. */
module RequestFields {
  import opened Prelude
  import opened Form

  /** The choices of the method picker, in the order shown. */
  const MethodChoices: seq<string> := ["GET", "POST", "PUT", "PATCH", "DELETE"]

  /** The picker offers five different methods, in this order. */
  lemma MethodChoicesAreFixed()
    ensures |MethodChoices| == 5
    ensures MethodChoices[0] == "GET" && MethodChoices[1] == "POST" && MethodChoices[2] == "PUT"
    ensures MethodChoices[3] == "PATCH" && MethodChoices[4] == "DELETE"
    ensures forall i, j :: 0 <= i < j < |MethodChoices| ==> MethodChoices[i] != MethodChoices[j]
  {
  }

  /** `parseQueryParams(setValue, v)`: the rows decoded from `v` by
      `getQueryParamsFromUrl`, or one placeholder row when there are none,
      are stored without validating or dirtying the form. */
  method ParseQueryParams(form: FormState, v: string,
                          getQueryParamsFromUrl: string -> seq<KeyValue>, emptyQueryParam: KeyValue)
    modifies form
    ensures getQueryParamsFromUrl(v) != [] ==> form.queryParams == getQueryParamsFromUrl(v)
    ensures getQueryParamsFromUrl(v) == [] ==> form.queryParams == [emptyQueryParam]
    ensures form.queryParams != []
    ensures form.calls == old(form.calls) + [SetValueCall(QueryParamsField, false, false)]
    ensures form.url == old(form.url) && form.bodyType == old(form.bodyType)
    ensures form.bodyRaw == old(form.bodyRaw) && form.bodyJsonPairs == old(form.bodyJsonPairs)
  {
    var queryParams := getQueryParamsFromUrl(v);
    if |queryParams| == 0 {
      queryParams := queryParams + [emptyQueryParam];
    }
    form.SetQueryParams(queryParams, false, false);
  }

  /** An edit of the URL field: the field stores the text, then the rows are
      re-derived from that same text. */
  method OnUrlChange(form: FormState, v: string,
                     getQueryParamsFromUrl: string -> seq<KeyValue>, emptyQueryParam: KeyValue)
    modifies form
    ensures form.url == v
    ensures getQueryParamsFromUrl(v) != [] ==> form.queryParams == getQueryParamsFromUrl(v)
    ensures getQueryParamsFromUrl(v) == [] ==> form.queryParams == [emptyQueryParam]
    ensures form.calls == old(form.calls) + [SetValueCall(QueryParamsField, false, false)]
    ensures form.bodyType == old(form.bodyType)
    ensures form.bodyRaw == old(form.bodyRaw) && form.bodyJsonPairs == old(form.bodyJsonPairs)
  {
    form.ChangeUrl(v);
    ParseQueryParams(form, v, getQueryParamsFromUrl, emptyQueryParam);
  }
}
