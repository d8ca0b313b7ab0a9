/** The body editor: the format toggle, which converts the content between
    the raw text and the list of JSON rows, and the "Add Another" button. */
module BodyFields {
  import opened Prelude
  import opened Json
  import opened Form

  /** The rows a switch to `object` stores: those converted from `bodyRaw`
      parsed as JSON, with no rows when parsing or converting throws, and one
      placeholder row in place of an empty list. */
  function RowsFromRaw(bodyRaw: string, json: JsonCodec, converter: EntityConverter,
                       emptyBodyJson: KeyValue): (r: seq<KeyValue>)
    ensures r != []
    ensures json.parse(bodyRaw).Some? && converter.toVariables(json.parse(bodyRaw).value).Some?
            && converter.toVariables(json.parse(bodyRaw).value).value != [] ==>
              r == converter.toVariables(json.parse(bodyRaw).value).value
    ensures json.parse(bodyRaw).None? ==> r == [emptyBodyJson]
    ensures Converted(bodyRaw, json, converter) == [] ==> r == [emptyBodyJson]
    ensures r == [emptyBodyJson] || r == Converted(bodyRaw, json, converter)
  {
    var variables := Converted(bodyRaw, json, converter);
    if |variables| == 0 then [emptyBodyJson] else variables
  }

  /** `addToVariablesFromEntity([], JSON.parse(bodyRaw))`, or `[]` when
      either call throws. */
  function Converted(bodyRaw: string, json: JsonCodec, converter: EntityConverter): seq<KeyValue> {
    match json.parse(bodyRaw)
    case None => []
    case Some(parsed) =>
      match converter.toVariables(parsed)
      case None => []
      case Some(variables) => variables
  }

  /** The text a switch away from `object` stores: the rows' entity as JSON
      text, with the empty object `{}` stored as the empty text. */
  function RawFromRows(bodyJsonPairs: seq<KeyValue>, json: JsonCodec, converter: EntityConverter): (r: string)
    ensures r != "{}"
    ensures var text := json.stringify(JObject(converter.toEntity(bodyJsonPairs)));
            (text == "{}" ==> r == "") && (text != "{}" ==> r == text)
  {
    var entity := json.stringify(JObject(converter.toEntity(bodyJsonPairs)));
    if entity == "{}" then "" else entity
  }

  /** The format toggle's `onChange`. The new format is recorded first; then
      a switch to `object` replaces the rows and keeps the raw text, and a
      switch to anything else replaces the raw text and keeps the rows. */
  method OnBodyTypeChange(form: FormState, v: string, json: JsonCodec, converter: EntityConverter,
                          emptyBodyJson: KeyValue)
    modifies form
    ensures form.bodyType == v
    ensures v == "object" ==>
              && form.bodyJsonPairs == RowsFromRaw(old(form.bodyRaw), json, converter, emptyBodyJson)
              && form.bodyRaw == old(form.bodyRaw)
              && form.calls == old(form.calls) + [SetValueCall(BodyJsonPairsField, true, true)]
    ensures v != "object" ==>
              && form.bodyRaw == RawFromRows(old(form.bodyJsonPairs), json, converter)
              && form.bodyJsonPairs == old(form.bodyJsonPairs)
              && form.calls == old(form.calls) + [SetValueCall(BodyRawField, true, true)]
    ensures form.url == old(form.url) && form.queryParams == old(form.queryParams)
  {
    var bodyRaw, bodyJsonPairs := form.bodyRaw, form.bodyJsonPairs;
    form.ChangeBodyType(v);
    if v == "object" {
      var variables: seq<KeyValue> := [];
      match json.parse(bodyRaw) {
        case None =>
        case Some(parsed) =>
          match converter.toVariables(parsed) {
            case None =>
            case Some(vs) => variables := vs;
          }
      }
      if |variables| == 0 {
        variables := variables + [emptyBodyJson];
      }
      form.SetBodyJsonPairs(variables, true, true);
    } else {
      var entity := json.stringify(JObject(converter.toEntity(bodyJsonPairs)));
      if entity == "{}" {
        entity := "";
      }
      form.SetBodyRaw(entity, true, true);
    }
  }

  /** "Add Another": one placeholder row is appended after the others. */
  method AddAnother(form: FormState, emptyBodyJson: KeyValue)
    modifies form
    ensures form.bodyJsonPairs == old(form.bodyJsonPairs) + [emptyBodyJson]
    ensures form.calls == old(form.calls) && form.url == old(form.url) && form.queryParams == old(form.queryParams)
    ensures form.bodyType == old(form.bodyType) && form.bodyRaw == old(form.bodyRaw)
  {
    form.AppendBodyJsonPair(emptyBodyJson);
  }
}
