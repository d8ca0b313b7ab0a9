/** The body part of the settings the view saves: the body editor's state
    `(bodyType, bodyRaw, bodyJsonPairs)` collapsed into an optional `body`. */
module BodySettings {
  import opened Prelude
  import opened Json

  /** The settings object built here; `None` is a `body` key never set. */
  datatype Settings = Settings(body: Option<Json>)

  /** `p.key || p.value`: a row is kept unless both of its texts are empty. */
  predicate Kept(p: KeyValue) {
    p.key != "" || p.value != ""
  }

  /** `bodyJsonPairs.filter((p) => p.key || p.value)`. */
  function KeptRows(pairs: seq<KeyValue>): seq<KeyValue>
    decreases |pairs|
  {
    if pairs == [] then []
    else KeptRows(pairs[..|pairs| - 1]) + (if Kept(pairs[|pairs| - 1]) then [pairs[|pairs| - 1]] else [])
  }

  /** The filter keeps the order of the rows: it distributes over
      concatenation. */
  lemma {:induction false} KeptRowsAppend(a: seq<KeyValue>, b: seq<KeyValue>)
    ensures KeptRows(a + b) == KeptRows(a) + KeptRows(b)
    decreases |b|
  {
    if b == [] {
      assert a + b == a;
    } else {
      var init, last := b[..|b| - 1], b[|b| - 1];
      assert a + b == (a + init) + [last];
      KeptRowsAppend(a, init);
    }
  }

  /** A row is kept exactly when it is a row of the list with a non-empty
      key or a non-empty value. */
  lemma {:induction false} KeptRowsMembers(pairs: seq<KeyValue>, p: KeyValue)
    ensures p in KeptRows(pairs) <==> p in pairs && Kept(p)
    decreases |pairs|
  {
    if pairs != [] {
      var init := pairs[..|pairs| - 1];
      assert pairs == init + [pairs[|pairs| - 1]];
      KeptRowsMembers(init, p);
    }
  }

  /** A row with both texts empty in the middle of the list drops out and
      changes nothing else; a row with only one of them empty stays in its
      place. */
  lemma BlankRowDropped(a: seq<KeyValue>, b: seq<KeyValue>, p: KeyValue)
    ensures !Kept(p) ==> KeptRows(a + [p] + b) == KeptRows(a + b)
    ensures Kept(p) ==> KeptRows(a + [p] + b) == KeptRows(a) + [p] + KeptRows(b)
  {
    KeptRowsAppend(a + [p], b);
    KeptRowsAppend(a, [p]);
    KeptRowsAppend(a, b);
    assert [p] == [] + [p];
  }

  /** The default export: in `object` mode the entity of the kept rows, or
      `null` when it has no keys; in any other mode `bodyRaw` parsed as JSON,
      or the text itself when it does not parse. The body is stored only
      when it is truthy and `showBodyTab(method)` holds. */
  method GetSettings(requestMethod: string, bodyType: string, bodyRaw: string, bodyJsonPairs: seq<KeyValue>,
                     json: JsonCodec, converter: EntityConverter, showBodyTab: string -> bool)
    returns (settings: Settings)
    ensures var entity := converter.toEntity(KeptRows(bodyJsonPairs));
            bodyType == "object" ==>
              settings.body == if entity != [] && showBodyTab(requestMethod) then Some(JObject(entity)) else None
    ensures bodyType != "object" && json.parse(bodyRaw).Some? ==>
              var parsed := json.parse(bodyRaw).value;
              settings.body == if parsed.Truthy() && showBodyTab(requestMethod) then Some(parsed) else None
    ensures bodyType != "object" && json.parse(bodyRaw).None? ==>
              settings.body == if bodyRaw != "" && showBodyTab(requestMethod) then Some(JString(bodyRaw)) else None
    ensures settings.body.Some? ==> settings.body.value.Truthy() && showBodyTab(requestMethod)
  {
    var body: Json;
    settings := Settings(None);
    if bodyType == "object" {
      var entity := converter.toEntity(KeptRows(bodyJsonPairs));
      body := JObject(entity);
      if |entity| == 0 {
        body := JNull;
      }
    } else {
      match json.parse(bodyRaw)
      case Some(parsed) => body := parsed;
      case None => body := JString(bodyRaw);
    }
    if body.Truthy() && showBodyTab(requestMethod) {
      settings := settings.(body := Some(body));
    }
  }
}
