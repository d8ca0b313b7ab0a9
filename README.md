# Cloud connector request editor and send action, modelled in Dafny

The Adobe cloud connector extension for event forwarding has two parts:

- **Request editor (view).** It edits one HTTP request: a method, a URL with query-parameter rows, headers, and a body. The body is either raw text or a list of JSON key/value rows.
- **Server-side action ("send data").** It turns the saved settings into one `fetch` call. If a response key is set, it stores the response text in the rule stash.

This project models the editor's data transformations and the action's request and response handling, and proves their properties:

- **Query-string serialiser** (`QueryString`).
  - Rebuilds the URL from the rows and skips rows without a key.
  - Percent-encodes keys and values (`UriComponent`, ECMA-262 6th edition, section 18.2.6.5).
  - Copies `{{name}}` data-element tokens through unchanged.
  - Has a decoder partner (`TokenCodec`, `QueryDecode`), which shows that no row is lost or mixed up.
- **Query-row handlers** (`QueryParamsRow`). The rows are objects the handlers update in place, and the form is a class (`Form.FormState`).
- **URL field's placeholder rule and method picker** (`RequestFields`).
- **Body section** (`BodySettings`, `BodyFields`):
  - the state `(bodyType, bodyRaw, bodyJsonPairs)` collapsed into `{body?}`;
  - the format toggle between raw text and rows;
  - "Add Another".
- **Send action** (`SendData`):
  - header folding (last write wins);
  - body stringification;
  - byte-per-character response decoding;
  - the in-place update of the rule-stash accumulator.
- **Error lookup of the validation wrapper** (`ValidationWrapper`): path parsing, the tree walk, and the invalid flag.
- **Environment URL builder** (`EnvironmentUrl`).

Functions the shown code calls but whose source is not part of this model are parameters. They are:

- `JSON.parse` / `JSON.stringify` (`Json.JsonCodec`);
- `addToEntityFromVariables` / `addToVariablesFromEntity` (`Json.EntityConverter`);
- `getQueryParamsFromUrl`;
- `requestMethodHelper.showBodyTab`;
- `getEnvironment`;
- the `getEmpty*` placeholders.

The network call `fetch` is a function from the request to the response's bytes.

A JSON object (`Json.JObject`) is an ordered list of properties, so the entity built from reordered rows, and the text `JSON.stringify` writes for it, may differ.

## Model

| member | source | states |
|---|---|---|
| UriComponent.Encode | src/view/utils/addQueryParamsToUrl.js:37-39 | `encodeURIComponent`; the empty text encodes to the empty text |
| UriComponent.EncodeAppend | src/view/utils/addQueryParamsToUrl.js:28-29 | encoding distributes over concatenation, so encoding the text in front of each token separately is encoding it piecewise |
| UriComponent.EncodeChars | src/view/utils/addQueryParamsToUrl.js:53-60 | every character of an encoding is unreserved or `%` |
| UriComponent.EncodeHasNoDelimiters | src/view/utils/addQueryParamsToUrl.js:52-60 | no `{`, `}`, `&`, `=`, `?` or `#` appears in an encoding |
| UriComponent.Utf8RoundTrip | src/view/utils/addQueryParamsToUrl.js:29 | the UTF-8 octets of a character decode back to it |
| UriComponent.DecodeEncode | src/view/utils/addQueryParamsToUrl.js:53-60 | decoding undoes `encodeURIComponent` for every text |
| UriComponent.EncodeInjective | src/view/utils/addQueryParamsToUrl.js:53-60 | two different texts never encode alike |
| QueryString.MatchAt | src/view/utils/addQueryParamsToUrl.js:15 | a match of `{{([^}]+)}}` at a position ends where a token (`{{`, at least one non-`}`, `}}`) ends |
| QueryString.MatchAtToken | src/view/utils/addQueryParamsToUrl.js:15 | every token at a position is found by the matcher there |
| QueryString.FindToken | src/view/utils/addQueryParamsToUrl.js:23 | `exec`: the match found is a token |
| QueryString.FindFromLeftmost | src/view/utils/addQueryParamsToUrl.js:23 | the match found is the leftmost one; no match means no token anywhere |
| QueryString.ContainsDataElementToken | src/view/utils/addQueryParamsToUrl.js:17 | true exactly when some slice of the text is a token |
| QueryString.IndexOf | src/view/utils/addQueryParamsToUrl.js:24 | `indexOf` returns -1 or a position where the text occurs |
| QueryString.IndexOfFromFirst | src/view/utils/addQueryParamsToUrl.js:24 | `indexOf` returns the first occurrence, and -1 only when there is none |
| QueryString.IndexOfLeftmostMatch | src/view/utils/addQueryParamsToUrl.js:23-24 | `value.indexOf(res[0])` is the index of the regular-expression match |
| QueryString.TokenShape | src/view/utils/addQueryParamsToUrl.js:32 | `{{${res[1]}}}` rebuilds exactly the matched token |
| QueryString.EncodeUriComponentWithToken | src/view/utils/addQueryParamsToUrl.js:19-42 | the loop (each round strictly shortens `value`) yields the token-preserving encoding: text around tokens encoded, tokens verbatim |
| QueryString.EncodeRound | src/view/utils/addQueryParamsToUrl.js:24-34 | one round appends the encoded text in front of the token and the token, and drops both from `value` |
| QueryString.EncodeWithTokensStep | src/view/utils/addQueryParamsToUrl.js:23-35 | one round keeps "result so far + encoding of the rest = encoding of the input" |
| QueryString.EncodeWithoutTokens | src/view/utils/addQueryParamsToUrl.js:37-41 | a token-free text encodes exactly as plain `encodeURIComponent` |
| QueryString.EncodeQueryComponent | src/view/utils/addQueryParamsToUrl.js:53-55 | choosing by `containsDataElementToken` between the two encoders gives the token-preserving encoding in both branches |
| QueryString.BaseUrl | src/view/utils/addQueryParamsToUrl.js:45 | the part of the URL before its first `?`: a prefix with no `?`, followed by `?` or the end |
| QueryString.Pieces | src/view/utils/addQueryParamsToUrl.js:52-60 | one `key=value` piece per row, in order |
| QueryString.Surviving | src/view/utils/addQueryParamsToUrl.js:51 | the rows that are serialised all have a key, and there are no more of them than rows |
| QueryString.AppendRow | src/view/utils/addQueryParamsToUrl.js:50-62 | a row with a key appends `?` (first) or `&` (later) and its pair and counts it; a row without one changes nothing |
| QueryString.RowStep | src/view/utils/addQueryParamsToUrl.js:50-63 | the `forEach` keeps "the built query is that of the rows seen so far, `i` is how many of them have a key" |
| QueryString.AddQueryParamsToUrl | src/view/utils/addQueryParamsToUrl.js:44-67 | the default export returns the base followed by `?`, then the surviving rows' pairs joined by `&` |
| QueryString.SurvivingSnoc | src/view/utils/addQueryParamsToUrl.js:51 | a row is appended to the surviving rows exactly when it has a key |
| QueryString.QueryPartSnoc | src/view/utils/addQueryParamsToUrl.js:52 | a further row with a key adds `?pair` if it is the first, `&pair` otherwise; a row without one adds nothing |
| QueryString.SurvivingAppend | src/view/utils/addQueryParamsToUrl.js:50-63 | rows are filtered one by one in order: the filter distributes over concatenation |
| QueryString.SurvivingMembers | src/view/utils/addQueryParamsToUrl.js:51 | a row is serialised exactly when it is one of the rows and has a key |
| QueryString.EmptyKeyRowIgnored | src/view/utils/addQueryParamsToUrl.js:51 | a row with an empty key is skipped, whatever its value |
| QueryString.NoKeysBaseOnly | src/view/utils/addQueryParamsToUrl.js:46-66 | when no row has a key, the result is the base URL with no `?` |
| QueryString.BaseUrlBeforeQuery | src/view/utils/addQueryParamsToUrl.js:45 | a base with no `?`, followed by `?` and anything, has that base |
| QueryString.BaseUrlOfBuildUrl | src/view/utils/addQueryParamsToUrl.js:45-66 | the rebuilt URL has the same base as the input: any old query string is discarded |
| QueryString.BuildUrlIdempotent | src/view/utils/addQueryParamsToUrl.js:44-67 | rebuilding a rebuilt URL from the same rows changes nothing |
| QueryString.PlainLetter | src/view/utils/addQueryParamsToUrl.js:55 | a lower-case letter encodes to itself |
| QueryString.PlainRow | src/view/utils/addQueryParamsToUrl.js:52-60 | a row of two letters serialises as `k=v` |
| QueryString.OneRow | src/view/utils/addQueryParamsToUrl.js:45-66 | a single row with a key gives `base?pair`, whatever query the URL had |
| QueryString.TwoRows | src/view/utils/addQueryParamsToUrl.js:50-61 | two rows with keys give `base?pair1&pair2` |
| QueryString.AddRowExample | src/view/actions/__tests__/sendData.test.jsx:385-388 | the URL `base?a=b` with rows `a=b` and `c=d` becomes `base?a=b&c=d` |
| QueryString.TokenExample | src/view/utils/addQueryParamsToUrl.js:19-42 | `a b{{x}}` encodes as `a%20b{{x}}` |
| TokenCodec.EncodeWithTokensAt | src/view/utils/addQueryParamsToUrl.js:26-34 | the encoding at the first token: the text in front encoded, the token, the encoding of the rest |
| TokenCodec.EncodeHasNoOpenBrace | src/view/utils/addQueryParamsToUrl.js:29 | the encoded text in front of a token holds no `{`, so the decoder finds the same token first |
| TokenCodec.DecodeEncodeWithTokens | src/view/utils/addQueryParamsToUrl.js:19-42 | decoding around tokens undoes the token-preserving encoding |
| TokenCodec.EncodeWithTokensInjective | src/view/utils/addQueryParamsToUrl.js:19-42 | two different texts never encode alike |
| QueryDecode.NoSeparatorAfterEncoding | src/view/utils/addQueryParamsToUrl.js:19-42 | an `&` or `=` that no token of a text holds is absent from its encoding: outside tokens it is percent-encoded |
| QueryDecode.BracelessPlain | src/view/utils/addQueryParamsToUrl.js:15 | a row without `{` has no token, so it qualifies for the round trip whatever `&` and `=` it holds |
| QueryDecode.PairRoundTrip | src/view/utils/addQueryParamsToUrl.js:52-60 | a row whose tokens hold no `&` or `=` serialises to a piece without `&` that reads back as the row |
| QueryDecode.PairsRoundTrip | src/view/utils/addQueryParamsToUrl.js:50-63 | the pieces of such rows read back as the rows, in order |
| QueryDecode.SurvivingPlain | src/view/utils/addQueryParamsToUrl.js:51 | the rows that survive are among the given ones, so their tokens hold no separators either |
| QueryDecode.SplitPieces | src/view/utils/addQueryParamsToUrl.js:52 | the query after `?` splits on `&` into exactly the serialised pieces |
| QueryDecode.ParseWithQuery | src/view/utils/addQueryParamsToUrl.js:66 | the result is read back from the text after its first `?` |
| QueryDecode.UrlRoundTrip | src/view/utils/addQueryParamsToUrl.js:44-67 | the rebuilt URL reads back as the original's base and the rows that have a key, in order |
| QueryDecode.BuildUrlDistinguishesRows | src/view/utils/addQueryParamsToUrl.js:44-67 | two row lists giving the same URL have the same rows with keys |
| Strings.Split | src/view/utils/addQueryParamsToUrl.js:45 | `split` on one character: at least one piece, no piece holds the separator, a text without it is its own piece |
| Strings.JoinSplit | src/view/components/validationWrapper.jsx:28 | the pieces of a split, joined by the separator, give the text back |
| Strings.SplitJoin | src/view/utils/generateEnvironmentUrl.js:22 | pieces without the separator, joined and then split, come back |
| Strings.SplitPieceThenSep | src/view/components/validationWrapper.jsx:28-29 | a piece followed by the separator is split off as the first piece |
| Form.FormState.constructor | src/view/actions/components/queryParamsSection/row.jsx:35-54 | the form holds the given URL, rows and body state, with no recorded `setValue` |
| Form.FormState.SetUrl | src/view/actions/components/queryParamsSection/row.jsx:41-44 | `setValue('url', …)` sets the URL, records the call with its flags, and leaves the other fields alone |
| Form.FormState.SetQueryParams | src/view/actions/components/requestSection/fields.jsx:27-30 | `setValue('queryParams', …)` sets the rows and records the call; the other fields stay |
| Form.FormState.SetBodyRaw | src/view/actions/components/bodySection/fields.jsx:88-91 | `setValue('bodyRaw', …)` sets the raw text and records the call; the other fields stay |
| Form.FormState.SetBodyJsonPairs | src/view/actions/components/bodySection/fields.jsx:75-78 | `setValue('bodyJsonPairs', …)` sets the rows and records the call; the other fields stay |
| Form.FormState.ChangeUrl | src/view/components/wrappedTextField.jsx:59-60 | the field's own `onChange` stores the URL text, and only that |
| Form.FormState.ChangeBodyType | src/view/actions/components/bodySection/fields.jsx:60 | the field's own `onChange` stores the format, and only that |
| Form.FormState.RemoveQueryParam | src/view/actions/components/queryParamsSection/row.jsx:74 | `remove(index)` drops exactly that row of the field array and nothing else |
| Form.FormState.AppendBodyJsonPair | src/view/actions/components/bodySection/fields.jsx:139 | `append` adds one row at the end and nothing else |
| QueryParamsRow.Row.constructor | src/view/actions/components/queryParamsSection/row.jsx:32-35 | a row object holds its key and value |
| QueryParamsRow.Snapshot | src/view/actions/components/queryParamsSection/row.jsx:41 | the rows as values: one key/value pair per row object, in order |
| QueryParamsRow.RemoveAt | src/view/actions/components/queryParamsSection/row.jsx:76-78 | the list without position `i`: one shorter, earlier rows in place, later rows moved down by one |
| QueryParamsRow.ChangeKey | src/view/actions/components/queryParamsSection/row.jsx:37-45 | the row's key is set and its value kept; with distinct rows only that key differs; the URL is rebuilt from the updated rows with validate and dirty set |
| QueryParamsRow.ChangeValue | src/view/actions/components/queryParamsSection/row.jsx:56-64 | the same for the value, the key kept |
| QueryParamsRow.CompactAppend | src/view/actions/components/queryParamsSection/row.jsx:78 | `filter((q) => q)` works row by row: it distributes over concatenation |
| QueryParamsRow.CompactRows | src/view/actions/components/queryParamsSection/row.jsx:78 | the filter keeps every row object |
| QueryParamsRow.CompactPunched | src/view/actions/components/queryParamsSection/row.jsx:76-78 | deleting an index and filtering the hole out is removing that row |
| QueryParamsRow.WithoutRow | src/view/actions/components/queryParamsSection/row.jsx:76-78 | `slice`, `delete`, `filter` produce the rows without position `index`, the others in order |
| QueryParamsRow.Delete | src/view/actions/components/queryParamsSection/row.jsx:69-83 | shown only with more than one row; removes exactly row `index` from the form's field array, which stays non-empty and one shorter, and rebuilds the URL from the rest, in order |
| QueryParamsRow.DeleteLeavesRows | src/view/actions/components/queryParamsSection/row.jsx:69-78 | after a delete the list is one shorter and never empty |
| QueryParamsRow.SnapshotRemoveAt | src/view/actions/components/queryParamsSection/row.jsx:76-80 | the URL is built from the remaining rows' keys and values |
| QueryParamsRow.DeleteExample | src/view/actions/__tests__/sendData.test.jsx:391-409 | deleting row 1 of `base?a=b&c=d` gives `base?a=b` |
| RequestFields.MethodChoicesAreFixed | src/view/actions/components/requestSection/fields.jsx:52-73 | the choices are exactly GET, POST, PUT, PATCH, DELETE, in that order, all different |
| RequestFields.ParseQueryParams | src/view/actions/components/requestSection/fields.jsx:21-31 | the decoded rows if there are any, else exactly one placeholder; never empty; stored without validating or dirtying |
| RequestFields.OnUrlChange | src/view/actions/components/requestSection/fields.jsx:94 | an edit stores the URL text (src/view/components/wrappedTextField.jsx:59-63), then the rows derived from that same text |
| BodySettings.KeptRowsAppend | src/view/actions/components/bodySection/getSettings.js:23 | the row filter keeps the order: it distributes over concatenation |
| BodySettings.KeptRowsMembers | src/view/actions/components/bodySection/getSettings.js:23 | a row is kept exactly when it is in the list and has a non-empty key or value |
| BodySettings.BlankRowDropped | src/view/actions/components/bodySection/getSettings.js:20-24 | a row with both texts empty drops out; a row with only one empty stays in its place |
| BodySettings.GetSettings | src/view/actions/components/bodySection/getSettings.js:16-42 | object mode: the entity of the kept rows when it has keys, otherwise nothing; any other mode: the parsed JSON, or the raw text when it does not parse; stored only if truthy and the method shows a body tab |
| BodyFields.RowsFromRaw | src/view/actions/components/bodySection/fields.jsx:63-73 | never empty: the converted rows when there are some, otherwise exactly one placeholder (also when parsing fails) |
| BodyFields.RawFromRows | src/view/actions/components/bodySection/fields.jsx:80-86 | the rows' entity as JSON text, with `{}` replaced by the empty text, so the result is never `{}` |
| BodyFields.OnBodyTypeChange | src/view/actions/components/bodySection/fields.jsx:59-93 | records the format first; switching to `object` replaces the rows and keeps the raw text; switching elsewhere replaces the raw text and keeps the rows; validate and dirty set |
| BodyFields.AddAnother | src/view/actions/components/bodySection/fields.jsx:139 | exactly one placeholder row appended at the end |
| SendData.Accumulator.constructor | src/lib/actions/sendData.js:47-49 | a fresh accumulator has no responses |
| SendData.ByteArrayToString | src/lib/actions/sendData.js:15-17 | one character per byte, its code the byte's value |
| SendData.BytesRoundTrip | src/lib/actions/sendData.js:15-17 | the bytes can be recovered from the text: decoding loses nothing |
| SendData.TextRoundTrip | src/lib/actions/sendData.js:15-17 | every text of codes below 256 is the decoding of its bytes |
| SendData.ResultBytes | src/lib/actions/__tests__/sendData.test.js:119-141 | the bytes 114, 101, 115, 117, 108, 116 decode to `result` |
| SendData.HeaderMapKeys | src/lib/actions/sendData.js:29-34 | the header object has one key per row key and no other |
| SendData.HeaderMapLastWins | src/lib/actions/sendData.js:30-32 | the value under a key is that of the last row with that key |
| SendData.TwoHeaders | src/lib/actions/__tests__/sendData.test.js:62-67 | rows `a: b`, `c: d` give `{ a: 'b', c: 'd' }` |
| SendData.CollapseHeaders | src/lib/actions/sendData.js:23-34 | the reduce folds the rows into the header object; absent or empty headers give `{}` |
| SendData.OutboundBody | src/lib/actions/sendData.js:36-38 | an object, array or `null` body is sent as its JSON text; a string, number or boolean body unchanged; no body stays absent |
| SendData.OutboundBodyIsPrimitive | src/lib/actions/sendData.js:36-38 | the body sent is never an object or an array |
| SendData.PrepareRequest | src/lib/actions/sendData.js:23-45 | the request has the settings' URL and method, the folded headers and the outbound body |
| SendData.StoredResponses | src/lib/actions/sendData.js:51-58 | with a response key, the decoded body is stored under it and every other entry is kept; without one, nothing changes |
| SendData.UnsetKeyIgnoresBody | src/lib/actions/sendData.js:51-61 | without a response key, the response bytes make no difference |
| SendData.Run | src/lib/actions/sendData.js:19-62 | one `fetch` with `{method, body, headers}`; the stash's accumulator, updated in place, or a fresh one, with the response stored as above |
| ValidationWrapper.RemoveFirstBracket | src/view/components/validationWrapper.jsx:29 | `replace(']', '')` on a text with no `]` changes nothing |
| ValidationWrapper.RemoveFirstBracketAfter | src/view/components/validationWrapper.jsx:29 | only the first `]` is removed; what follows it is kept |
| ValidationWrapper.PieceParts | src/view/components/validationWrapper.jsx:29 | each sub-piece with its first `]` removed, in order |
| ValidationWrapper.ShowError | src/view/components/validationWrapper.jsx:18-42 | the direct property when truthy; `''` for an empty or undefined path; otherwise the walk over the parsed path |
| ValidationWrapper.ValidationState | src/view/components/validationWrapper.jsx:55 | `invalid` exactly when the lookup result is truthy, `''` otherwise |
| ValidationWrapper.FollowCons | src/view/components/validationWrapper.jsx:32-39 | following a path is one lookup, then following the rest |
| ValidationWrapper.WalkAllPresent | src/view/components/validationWrapper.jsx:32-41 | when every part is present (truthy), the walk returns the final node |
| ValidationWrapper.WalkStopsAtFirstAbsent | src/view/components/validationWrapper.jsx:32-39 | the walk returns the falsy lookup at the first absent part |
| ValidationWrapper.PlainPiece | src/view/components/validationWrapper.jsx:29 | a piece without brackets is one part |
| ValidationWrapper.BracketPiece | src/view/components/validationWrapper.jsx:29 | `a[i]` gives the parts `a` and `i` |
| ValidationWrapper.BracketForm | src/view/components/validationWrapper.jsx:27-30 | `a[i].b` gives the parts `a`, `i`, `b` |
| ValidationWrapper.DotForm | src/view/components/validationWrapper.jsx:27-30 | `a.i.b` gives the parts `a`, `i`, `b` |
| ValidationWrapper.BracketAndDotAgree | src/view/components/validationWrapper.jsx:27-30 | `headers[0].key` and `headers.0.key` give the same parts |
| EnvironmentUrl.BaseUrl | src/view/utils/generateEnvironmentUrl.js:17-20 | the stage UI URL for `staging`, the production UI URL for anything else (src/view/utils/constants.js:22-25) |
| EnvironmentUrl.GenerateEnvironmentUrl | src/view/utils/generateEnvironmentUrl.js:16-23 | the URL starts with the base chosen by the environment of the access token (passed as `undefined` when absent) |
| EnvironmentUrl.SegmentsRoundTrip | src/view/utils/generateEnvironmentUrl.js:22 | the URL is the base, `/`, and `companies`, companyId, `properties`, propertyId, `environments`, environmentId joined by `/`; without `/` in the identifiers, splitting gives them back |
| EnvironmentUrl.ReadsOnlyNamedKeys | src/view/utils/generateEnvironmentUrl.js:16 | only `environmentId` and `companyId`, `propertyId`, `accessToken` are read |

## Left out

- React rendering, hooks and field registration are not modelled; only the handlers' effects on the form state are.
- The form library's own `onChange` on the query-row fields is not modelled. It writes `queryParams.{index}.key` and `queryParams.{index}.value` before the handler runs (src/view/components/wrappedTextField.jsx:59-63).
- QueryParamsRow.ChangeKey: states "only row `index` differs" on the row values only when the row objects are distinct. With aliased rows, the snapshot changes wherever the same object appears and the equation is not claimed.
- QueryParamsRow.ChangeValue: same restriction as ChangeKey.
- The method picker's `onSelectionChange` simply forwards the choice to `onChange` and `onMethodUpdate`, which are defined elsewhere and not part of this model.
- Form.FormState keeps only the fields the handlers touch (URL, query rows, body format, raw body, body rows) and a log of `setValue` calls. Validation and the dirty state are recorded only as the flags of each call.
- The row `id` the field array attaches to each row is not modelled, since no modelled logic reads it.
- Collaborators are parameters without properties: `JSON.parse`/`JSON.stringify`, the entity converter, `getQueryParamsFromUrl`, `showBodyTab`, `getEnvironment` and the `getEmpty*` helpers. The model therefore does not claim, for instance, that GET has no body.
- A `JSON.parse` or converter exception is the `None` result of the parameter.
- The network is not modelled: `fetch` is a parameter returning the response bytes. Promises, rejections and their propagation are not modelled.
- SendData.ByteArrayToString: does not model the engine's limit on the number of arguments `String.fromCharCode.apply` accepts, nor `Uint8Array` truncating values outside 0-255; the response is given as bytes.
- SendData.HeaderMap: a header key such as `__proto__`, which an ordinary object would treat specially, is an ordinary key here. The header object is a map, so the order of its keys is not modelled.
- ValidationWrapper.Lookup: reads own properties only (object keys, array and string elements, `length`). An inherited property, for example a method of `Object.prototype`, reads as `undefined`. A string's `length` and indices count Unicode scalar values, where JavaScript counts UTF-16 code units; truthiness of the result agrees either way.
- ValidationWrapper.Value: numbers are integers. `NaN` and fractions, which the error tree does not hold, are not modelled.
- UriComponent.Encode: Dafny characters are Unicode scalar values, so the `URIError` on lone surrogates cannot occur and is not modelled.
- QueryDecode.UrlRoundTrip: holds for rows in which no data-element token holds `&` or `=` (every row without `{` qualifies, see BracelessPlain). A token is copied verbatim, so such a token can make the query ambiguous.
- QueryDecode.BuildUrlDistinguishesRows: same restriction as UrlRoundTrip.
- The raw-body view tests at src/view/actions/__tests__/sendData.test.jsx:248-252 and :611-615 expect a text `body`. The code at src/view/actions/components/bodySection/getSettings.js:31 parses the text as JSON; the model follows the code.
- BodyFields.OnBodyTypeChange: the order "format recorded before content" is the order of statements in the method. The field's own `onChange` is not added to the `setValue` log.
- Network clients (`src/view/utils/fetch.js`, `loadCertificates.js`) and the other sections' React components are not part of this model.
