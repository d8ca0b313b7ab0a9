/** The form of the request editor as the handlers see it: the current values
    of the fields they read and write, and the list of `setValue` calls made
    so far with the options passed to each. */
module Form {
  import opened Prelude

  /** The form fields that the handlers write. */
  datatype Field = UrlField | QueryParamsField | BodyTypeField | BodyRawField | BodyJsonPairsField

  /** One `setValue(name, value, { shouldValidate, shouldDirty })` call. */
  datatype SetValueCall = SetValueCall(field: Field, shouldValidate: bool, shouldDirty: bool)

  class FormState {
    var url: string
    var queryParams: seq<KeyValue>
    var bodyType: string
    var bodyRaw: string
    var bodyJsonPairs: seq<KeyValue>
    var calls: seq<SetValueCall>

    constructor (url: string, queryParams: seq<KeyValue>, bodyType: string, bodyRaw: string, bodyJsonPairs: seq<KeyValue>)
      ensures this.url == url && this.queryParams == queryParams
      ensures this.bodyType == bodyType && this.bodyRaw == bodyRaw && this.bodyJsonPairs == bodyJsonPairs
      ensures calls == []
    {
      this.url := url;
      this.queryParams := queryParams;
      this.bodyType := bodyType;
      this.bodyRaw := bodyRaw;
      this.bodyJsonPairs := bodyJsonPairs;
      calls := [];
    }

    /** `setValue('url', v, options)`. */
    method SetUrl(v: string, shouldValidate: bool, shouldDirty: bool)
      modifies this
      ensures url == v
      ensures calls == old(calls) + [SetValueCall(UrlField, shouldValidate, shouldDirty)]
      ensures queryParams == old(queryParams) && bodyType == old(bodyType)
      ensures bodyRaw == old(bodyRaw) && bodyJsonPairs == old(bodyJsonPairs)
    {
      url := v;
      calls := calls + [SetValueCall(UrlField, shouldValidate, shouldDirty)];
    }

    /** `setValue('queryParams', v, options)`. */
    method SetQueryParams(v: seq<KeyValue>, shouldValidate: bool, shouldDirty: bool)
      modifies this
      ensures queryParams == v
      ensures calls == old(calls) + [SetValueCall(QueryParamsField, shouldValidate, shouldDirty)]
      ensures url == old(url) && bodyType == old(bodyType)
      ensures bodyRaw == old(bodyRaw) && bodyJsonPairs == old(bodyJsonPairs)
    {
      queryParams := v;
      calls := calls + [SetValueCall(QueryParamsField, shouldValidate, shouldDirty)];
    }

    /** `setValue('bodyRaw', v, options)`. */
    method SetBodyRaw(v: string, shouldValidate: bool, shouldDirty: bool)
      modifies this
      ensures bodyRaw == v
      ensures calls == old(calls) + [SetValueCall(BodyRawField, shouldValidate, shouldDirty)]
      ensures url == old(url) && queryParams == old(queryParams)
      ensures bodyType == old(bodyType) && bodyJsonPairs == old(bodyJsonPairs)
    {
      bodyRaw := v;
      calls := calls + [SetValueCall(BodyRawField, shouldValidate, shouldDirty)];
    }

    /** `setValue('bodyJsonPairs', v, options)`. */
    method SetBodyJsonPairs(v: seq<KeyValue>, shouldValidate: bool, shouldDirty: bool)
      modifies this
      ensures bodyJsonPairs == v
      ensures calls == old(calls) + [SetValueCall(BodyJsonPairsField, shouldValidate, shouldDirty)]
      ensures url == old(url) && queryParams == old(queryParams)
      ensures bodyType == old(bodyType) && bodyRaw == old(bodyRaw)
    {
      bodyJsonPairs := v;
      calls := calls + [SetValueCall(BodyJsonPairsField, shouldValidate, shouldDirty)];
    }

    /** A field's own `onChange` from its `Controller`: the value is stored
        without a `setValue` call. */
    method ChangeUrl(v: string)
      modifies this
      ensures url == v
      ensures calls == old(calls) && queryParams == old(queryParams) && bodyType == old(bodyType)
      ensures bodyRaw == old(bodyRaw) && bodyJsonPairs == old(bodyJsonPairs)
    {
      url := v;
    }

    method ChangeBodyType(v: string)
      modifies this
      ensures bodyType == v
      ensures calls == old(calls) && url == old(url) && queryParams == old(queryParams)
      ensures bodyRaw == old(bodyRaw) && bodyJsonPairs == old(bodyJsonPairs)
    {
      bodyType := v;
    }

    /** `remove(index)` of the query-parameter field array. */
    method RemoveQueryParam(index: nat)
      requires index < |queryParams|
      modifies this
      ensures queryParams == old(queryParams[..index] + queryParams[index + 1..])
      ensures calls == old(calls) && url == old(url) && bodyType == old(bodyType)
      ensures bodyRaw == old(bodyRaw) && bodyJsonPairs == old(bodyJsonPairs)
    {
      queryParams := queryParams[..index] + queryParams[index + 1..];
    }

    /** `append(row)` of the body-pairs field array. */
    method AppendBodyJsonPair(row: KeyValue)
      modifies this
      ensures bodyJsonPairs == old(bodyJsonPairs) + [row]
      ensures calls == old(calls) && url == old(url) && queryParams == old(queryParams)
      ensures bodyType == old(bodyType) && bodyRaw == old(bodyRaw)
    {
      bodyJsonPairs := bodyJsonPairs + [row];
    }
  }
}
