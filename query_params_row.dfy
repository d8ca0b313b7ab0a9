/** One row of the query-parameter editor: editing its key or value and
    deleting it, each followed by rebuilding the URL from the rows. The rows
    are objects: `variables.slice()` copies the list but not the rows, so an
    assignment to `newQueryParams[index].key` changes the row that every list
    holding it sees. */
module QueryParamsRow {
  import opened Prelude
  import opened Form
  import QueryString

  class Row {
    var key: string
    var value: string

    constructor (key: string, value: string)
      ensures this.key == key && this.value == value
    {
      this.key := key;
      this.value := value;
    }
  }

  /** The keys and values the rows hold now. */
  function Snapshot(rows: seq<Row>): (r: seq<KeyValue>)
    reads rows
    ensures |r| == |rows|
    ensures forall k :: 0 <= k < |rows| ==> r[k] == KeyValue(rows[k].key, rows[k].value)
  {
    seq(|rows|, k reads rows requires 0 <= k < |rows| => KeyValue(rows[k].key, rows[k].value))
  }

  /** No row object occurs twice in the list. */
  predicate Distinct(rows: seq<Row>) {
    forall i, j :: 0 <= i < j < |rows| ==> rows[i] != rows[j]
  }

  /** The list without the element at `i`, the others in their order. */
  function RemoveAt<T>(xs: seq<T>, i: nat): (r: seq<T>)
    requires i < |xs|
    ensures |r| == |xs| - 1
    ensures forall k :: 0 <= k < i ==> r[k] == xs[k]
    ensures forall k :: i <= k < |r| ==> r[k] == xs[k + 1]
  {
    xs[..i] + xs[i + 1..]
  }

  /** `variables.length > 1`: the delete button is shown only then. */
  predicate DeleteShown(variables: seq<Row>) {
    |variables| > 1
  }

  /** The key field's `onChange`: the row's key is set to `v` in place, and
      the URL is rebuilt from the rows. */
  method ChangeKey(form: FormState, url: string, variables: seq<Row>, index: nat, v: string)
    requires index < |variables|
    modifies form, variables[index]
    ensures variables[index].key == v && variables[index].value == old(variables[index].value)
    ensures Distinct(variables) ==>
              Snapshot(variables) == old(Snapshot(variables))[index := KeyValue(v, old(variables[index].value))]
    ensures form.url == QueryString.BuildUrl(url, Snapshot(variables))
    ensures form.calls == old(form.calls) + [SetValueCall(UrlField, true, true)]
    ensures form.queryParams == old(form.queryParams) && form.bodyType == old(form.bodyType)
    ensures form.bodyRaw == old(form.bodyRaw) && form.bodyJsonPairs == old(form.bodyJsonPairs)
  {
    var newQueryParams := variables;
    newQueryParams[index].key := v;
    ghost var rows := Snapshot(variables);
    var u := QueryString.AddQueryParamsToUrl(url, Snapshot(newQueryParams));
    assert Snapshot(variables) == rows;
    form.SetUrl(u, true, true);
    assert Snapshot(variables) == rows;
  }

  /** The value field's `onChange`, the same with the value. */
  method ChangeValue(form: FormState, url: string, variables: seq<Row>, index: nat, v: string)
    requires index < |variables|
    modifies form, variables[index]
    ensures variables[index].value == v && variables[index].key == old(variables[index].key)
    ensures Distinct(variables) ==>
              Snapshot(variables) == old(Snapshot(variables))[index := KeyValue(old(variables[index].key), v)]
    ensures form.url == QueryString.BuildUrl(url, Snapshot(variables))
    ensures form.calls == old(form.calls) + [SetValueCall(UrlField, true, true)]
    ensures form.queryParams == old(form.queryParams) && form.bodyType == old(form.bodyType)
    ensures form.bodyRaw == old(form.bodyRaw) && form.bodyJsonPairs == old(form.bodyJsonPairs)
  {
    var newQueryParams := variables;
    newQueryParams[index].value := v;
    ghost var rows := Snapshot(variables);
    var u := QueryString.AddQueryParamsToUrl(url, Snapshot(newQueryParams));
    assert Snapshot(variables) == rows;
    form.SetUrl(u, true, true);
    assert Snapshot(variables) == rows;
  }

  /** The rows of a list with holes, in order: `filter((q) => q)`. */
  function Compact(xs: seq<Row?>): seq<Row> {
    if xs == [] then []
    else Compact(xs[..|xs| - 1]) + (if xs[|xs| - 1] == null then [] else [xs[|xs| - 1]])
  }

  lemma {:induction false} CompactAppend(a: seq<Row?>, b: seq<Row?>)
    ensures Compact(a + b) == Compact(a) + Compact(b)
    decreases |b|
  {
    if b == [] {
      assert a + b == a;
    } else {
      assert (a + b)[..|a + b| - 1] == a + b[..|b| - 1];
      CompactAppend(a, b[..|b| - 1]);
    }
  }

  lemma {:induction false} CompactRows(a: seq<Row>)
    ensures Compact(a) == a
    decreases |a|
  {
    if a != [] {
      CompactRows(a[..|a| - 1]);
    }
  }

  /** Punching a hole with `delete` and filtering it out removes exactly
      that row. */
  lemma CompactPunched(variables: seq<Row>, index: nat)
    requires index < |variables|
    ensures Compact(variables[..index] + [null] + variables[index + 1..]) == RemoveAt(variables, index)
  {
    CompactAppend(variables[..index] + [null], variables[index + 1..]);
    CompactAppend(variables[..index], [null]);
    assert Compact([null]) == [];
    CompactRows(variables[..index]);
    CompactRows(variables[index + 1..]);
  }

  /** The delete button's `onPress`: the row is removed from the form's
      field array, and the URL is rebuilt from a copy of the rows with that
      one deleted and the hole filtered out. The rendered rows are those of
      the field array, so both have the same length, and the guard keeps the
      field array from becoming empty. */
  method Delete(form: FormState, url: string, variables: seq<Row>, index: nat)
    requires DeleteShown(variables) && index < |variables|
    requires |form.queryParams| == |variables|
    modifies form
    ensures form.queryParams == RemoveAt(old(form.queryParams), index)
    ensures form.queryParams != [] && |form.queryParams| == |variables| - 1
    ensures form.url == QueryString.BuildUrl(url, Snapshot(RemoveAt(variables, index)))
    ensures form.calls == old(form.calls) + [SetValueCall(UrlField, true, true)]
    ensures form.bodyType == old(form.bodyType) && form.bodyRaw == old(form.bodyRaw)
    ensures form.bodyJsonPairs == old(form.bodyJsonPairs)
  {
    form.RemoveQueryParam(index);
    var newQueryParams := WithoutRow(variables, index);
    var u := QueryString.AddQueryParamsToUrl(url, Snapshot(newQueryParams));
    form.SetUrl(u, true, true);
  }

  /** `variables.slice()`, `delete` at `index`, then `filter((q) => q)`. */
  method WithoutRow(variables: seq<Row>, index: nat) returns (newQueryParams: seq<Row>)
    requires index < |variables|
    ensures newQueryParams == RemoveAt(variables, index)
  {
    var copy := new Row?[|variables|](k requires 0 <= k < |variables| => variables[k]);
    copy[index] := null;
    assert copy[..] == variables[..index] + [null] + variables[index + 1..];
    newQueryParams := [];
    for k := 0 to copy.Length
      invariant newQueryParams == Compact(copy[..k])
    {
      assert copy[..k + 1][..k] == copy[..k];
      if copy[k] != null {
        newQueryParams := newQueryParams + [copy[k]];
      }
    }
    assert copy[..copy.Length] == copy[..];
    CompactPunched(variables, index);
  }

  /** After a delete there is one row fewer, and at least one is left. */
  lemma DeleteLeavesRows(variables: seq<Row>, index: nat)
    requires DeleteShown(variables) && index < |variables|
    ensures |RemoveAt(variables, index)| == |variables| - 1
    ensures RemoveAt(variables, index) != []
  {
  }

  /** The keys and values of the remaining rows are those of the old rows
      without the deleted one. */
  lemma SnapshotRemoveAt(variables: seq<Row>, index: nat)
    requires index < |variables|
    ensures Snapshot(RemoveAt(variables, index)) == RemoveAt(Snapshot(variables), index)
  {
  }

  /** Deleting row 1 of `?a=b&c=d` leaves `?a=b`, for single letters and any
      base such as `http://www.google.com`. */
  lemma DeleteExample(base: string, a: char, b: char, c: char, d: char)
    requires '?' !in base
    requires 'a' <= a <= 'z' && 'a' <= b <= 'z' && 'a' <= c <= 'z' && 'a' <= d <= 'z'
    ensures QueryString.BuildUrl(base + ['?', a, '=', b, '&', c, '=', d],
                                 RemoveAt([KeyValue([a], [b]), KeyValue([c], [d])], 1))
            == base + ['?', a, '=', b]
  {
    var first := KeyValue([a], [b]);
    var rest: string := [a, '=', b, '&', c, '=', d];
    assert RemoveAt([first, KeyValue([c], [d])], 1) == [first];
    assert base + ['?', a, '=', b, '&', c, '=', d] == base + "?" + rest;
    QueryString.OneRow(base, rest, first);
    QueryString.PlainRow(a, b);
  }
}
