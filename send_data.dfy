/** The server-side action: the saved settings become one `fetch` request,
    and the response, when a response key is set, is stored as text in the
    rule-stash accumulator. The network call is a function from the request
    to the bytes of the response body; promises and their rejections are not
    part of this model. */
module SendData {
  import opened Prelude
  import opened Json

  /** The settings `getSettings()` returns; `None` is an absent key. */
  datatype ServerSettings = ServerSettings(
    url: string,
    headers: Option<seq<KeyValue>>,
    requestMethod: string,
    body: Option<Json>,
    responseKey: Option<string>)

  /** The second argument of `fetch`: exactly `{method, body, headers}`. */
  datatype FetchOptions = FetchOptions(requestMethod: string, body: Option<Json>, headers: map<string, string>)

  datatype FetchRequest = FetchRequest(url: string, options: FetchOptions)

  /** The key under which the rule stash keeps this extension's
      accumulator. */
  const StashKey: string := "adobe-cloud-connector"

  /** The accumulator `{ responses: {} }`, shared by every action of a rule
      and updated in place. */
  class Accumulator {
    var responses: map<string, string>

    constructor ()
      ensures responses == map[]
    {
      responses := map[];
    }
  }

  // ---------------------------------------------------------------------
  // Response text.

  /** `String.fromCharCode.apply(null, new Uint8Array(buf))`: one character
      per byte, its code the byte's value. */
  function ByteArrayToString(buf: seq<Byte>): (s: string)
    ensures |s| == |buf|
    ensures forall i :: 0 <= i < |buf| ==> s[i] as int == buf[i]
  {
    seq(|buf|, i requires 0 <= i < |buf| => buf[i] as char)
  }

  /** The bytes of a text whose every character code is below 256. */
  function Latin1Bytes(s: string): (buf: seq<Byte>)
    requires forall i :: 0 <= i < |s| ==> s[i] as int < 256
    ensures |buf| == |s|
  {
    seq(|s|, i requires 0 <= i < |s| && s[i] as int < 256 => s[i] as int as Byte)
  }

  /** Decoding loses nothing: the bytes come back from the text. */
  lemma BytesRoundTrip(buf: seq<Byte>)
    ensures Latin1Bytes(ByteArrayToString(buf)) == buf
  {
    var s := ByteArrayToString(buf);
    assert forall i :: 0 <= i < |buf| ==> Latin1Bytes(s)[i] == buf[i];
  }

  /** And every text of such characters is the decoding of its bytes. */
  lemma TextRoundTrip(s: string)
    requires forall i :: 0 <= i < |s| ==> s[i] as int < 256
    ensures ByteArrayToString(Latin1Bytes(s)) == s
  {
    var t := ByteArrayToString(Latin1Bytes(s));
    assert forall i :: 0 <= i < |s| ==> t[i] as int == s[i] as int;
  }

  /** The bytes 114, 101, 115, 117, 108, 116 read as `result`. */
  lemma ResultBytes()
    ensures ByteArrayToString([114, 101, 115, 117, 108, 116]) == "result"
  {
    var s := ByteArrayToString([114, 101, 115, 117, 108, 116]);
    assert s[0] == 'r' && s[1] == 'e' && s[2] == 's' && s[3] == 'u' && s[4] == 'l' && s[5] == 't';
  }

  // ---------------------------------------------------------------------
  // Request.

  /** The header rows folded into an object from the left, each row writing
      `accumulator[o.key] = o.value`. */
  function HeaderMap(rows: seq<KeyValue>): map<string, string>
    decreases |rows|
  {
    if rows == [] then map[]
    else HeaderMap(rows[..|rows| - 1])[rows[|rows| - 1].key := rows[|rows| - 1].value]
  }

  /** The header object has a key for each row's key and no other. */
  lemma {:induction false} HeaderMapKeys(rows: seq<KeyValue>)
    ensures HeaderMap(rows).Keys == set i | 0 <= i < |rows| :: rows[i].key
    decreases |rows|
  {
    if rows != [] {
      var init := rows[..|rows| - 1];
      HeaderMapKeys(init);
      assert forall i :: 0 <= i < |init| ==> init[i] == rows[i];
      assert (set i | 0 <= i < |rows| :: rows[i].key)
          == (set i | 0 <= i < |init| :: init[i].key) + {rows[|rows| - 1].key};
    }
  }

  /** The last write wins: the value under a key is that of the last row
      with that key. */
  lemma {:induction false} HeaderMapLastWins(rows: seq<KeyValue>, j: nat)
    requires j < |rows|
    requires forall i :: j < i < |rows| ==> rows[i].key != rows[j].key
    ensures rows[j].key in HeaderMap(rows) && HeaderMap(rows)[rows[j].key] == rows[j].value
    decreases |rows|
  {
    if j < |rows| - 1 {
      var init := rows[..|rows| - 1];
      assert forall i :: j < i < |init| ==> init[i] == rows[i];
      HeaderMapLastWins(init, j);
    }
  }

  /** The header rows `a: b` and `c: d` become `{ a: 'b', c: 'd' }`. */
  lemma TwoHeaders(a: string, b: string, c: string, d: string)
    ensures HeaderMap([KeyValue(a, b), KeyValue(c, d)]) == map[a := b, c := d]
  {
    var rows := [KeyValue(a, b), KeyValue(c, d)];
    assert rows[..1] == [KeyValue(a, b)];
    assert [KeyValue(a, b)][..0] == [];
    assert HeaderMap([KeyValue(a, b)]) == map[a := b];
    assert HeaderMap(rows) == HeaderMap(rows[..1])[c := d];
  }

  /** `settingsHeaders.reduce(...)` when there are rows, `{}` when the list
      is absent or empty. */
  method CollapseHeaders(settingsHeaders: Option<seq<KeyValue>>) returns (headers: map<string, string>)
    ensures settingsHeaders.Some? ==> headers == HeaderMap(settingsHeaders.value)
    ensures settingsHeaders.None? || settingsHeaders.value == [] ==> headers == map[]
  {
    headers := map[];
    if settingsHeaders.Some? && |settingsHeaders.value| > 0 {
      var rows := settingsHeaders.value;
      for n := 0 to |rows|
        invariant headers == HeaderMap(rows[..n])
      {
        assert rows[..n + 1][..n] == rows[..n];
        headers := headers[rows[n].key := rows[n].value];
      }
      assert rows[..|rows|] == rows;
    }
  }

  /** `typeof body === 'object'` (`null` included) sends the body as JSON
      text; a string, number or boolean is sent as it is, and an absent body
      stays absent. */
  function OutboundBody(body: Option<Json>, stringify: Json -> string): (r: Option<Json>)
    ensures body.None? ==> r.None?
    ensures body.Some? && body.value.IsObjectType() ==> r == Some(JString(stringify(body.value)))
    ensures body.Some? && !body.value.IsObjectType() ==> r == body
  {
    match body
    case None => None
    case Some(j) => if j.IsObjectType() then Some(JString(stringify(j))) else body
  }

  /** A body sent is never an object or array: it is JSON text or a
      primitive. */
  lemma OutboundBodyIsPrimitive(body: Option<Json>, stringify: Json -> string)
    ensures OutboundBody(body, stringify).Some? ==> !OutboundBody(body, stringify).value.JArray?
    ensures OutboundBody(body, stringify).Some? ==> !OutboundBody(body, stringify).value.JObject?
  {
  }

  /** The request `fetch` receives: the settings' URL and method, the headers
      folded into an object and the body made ready to send. */
  method PrepareRequest(settings: ServerSettings, json: JsonCodec) returns (request: FetchRequest)
    ensures request.url == settings.url
    ensures request.options.requestMethod == settings.requestMethod
    ensures request.options.body == OutboundBody(settings.body, json.stringify)
    ensures request.options.headers == if settings.headers.Some? then HeaderMap(settings.headers.value) else map[]
  {
    var headers := CollapseHeaders(settings.headers);
    var body := settings.body;
    if body.Some? && body.value.IsObjectType() {
      body := Some(JString(json.stringify(body.value)));
    }
    request := FetchRequest(settings.url, FetchOptions(settings.requestMethod, body, headers));
  }

  // ---------------------------------------------------------------------
  // Response.

  /** `if (responseKey)`: a key that is set and non-empty. */
  predicate KeySet(responseKey: Option<string>) {
    responseKey.Some? && responseKey.value != ""
  }

  /** The responses after one action: with a response key the decoded body
      is stored under it; without one they stay as they were. */
  function StoredResponses(responses: map<string, string>, responseKey: Option<string>,
                           responseBytes: seq<Byte>): (r: map<string, string>)
    ensures KeySet(responseKey) ==>
              responseKey.value in r && r[responseKey.value] == ByteArrayToString(responseBytes)
    ensures forall k :: k in responses && (!KeySet(responseKey) || k != responseKey.value) ==>
              k in r && r[k] == responses[k]
    ensures forall k :: k in r ==> k in responses || (KeySet(responseKey) && k == responseKey.value)
  {
    if KeySet(responseKey) then responses[responseKey.value := ByteArrayToString(responseBytes)] else responses
  }

  /** Without a response key the body's bytes do not matter: the response is
      never read. */
  lemma UnsetKeyIgnoresBody(responses: map<string, string>, responseKey: Option<string>,
                            bytes1: seq<Byte>, bytes2: seq<Byte>)
    requires !KeySet(responseKey)
    ensures StoredResponses(responses, responseKey, bytes1) == responses
    ensures StoredResponses(responses, responseKey, bytes1) == StoredResponses(responses, responseKey, bytes2)
  {
  }

  /** The whole action: one request to `fetch`, then the accumulator found in
      the stash, or a fresh one, with the response recorded in it. */
  method Run(ruleStash: map<string, Accumulator>, settings: ServerSettings, json: JsonCodec,
             fetch: FetchRequest -> seq<Byte>)
    returns (request: FetchRequest, acc: Accumulator)
    modifies if StashKey in ruleStash then {ruleStash[StashKey]} else {}
    ensures request.url == settings.url
    ensures request.options == FetchOptions(settings.requestMethod, OutboundBody(settings.body, json.stringify),
                                            if settings.headers.Some? then HeaderMap(settings.headers.value) else map[])
    ensures StashKey in ruleStash ==> acc == ruleStash[StashKey]
    ensures StashKey in ruleStash ==>
              acc.responses == StoredResponses(old(ruleStash[StashKey].responses), settings.responseKey, fetch(request))
    ensures StashKey !in ruleStash ==> fresh(acc)
    ensures StashKey !in ruleStash ==>
              acc.responses == StoredResponses(map[], settings.responseKey, fetch(request))
  {
    request := PrepareRequest(settings, json);
    var response := fetch(request);
    if StashKey in ruleStash {
      acc := ruleStash[StashKey];
    } else {
      acc := new Accumulator();
    }
    if KeySet(settings.responseKey) {
      var bodyResponse := ByteArrayToString(response);
      acc.responses := acc.responses[settings.responseKey.value := bodyResponse];
    }
  }
}
