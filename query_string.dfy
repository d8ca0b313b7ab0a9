/** The query-string serialiser of the request editor: it rebuilds a URL from
    its base (the text before the first `?`) and the ordered query-parameter
    rows, percent-encoding keys and values but copying data-element tokens
    `{{name}}` through verbatim. */
module QueryString {
  import opened Prelude
  import UriComponent
  import Strings

  // ---------------------------------------------------------------------
  // The token pattern `{{([^}]+)}}`.

  /** A match of the token pattern in some text `s`: `s[start..end]` is the
      whole match (`res[0]`) and `s[start + 2..end - 2]` the captured name
      (`res[1]`). */
  datatype Match = Match(start: nat, end: nat)

  /** What the pattern matches as a whole: `{{`, one or more characters other
      than `}`, and `}}`. */
  predicate IsToken(t: string) {
    && |t| >= 5
    && t[0] == '{' && t[1] == '{'
    && t[|t| - 2] == '}' && t[|t| - 1] == '}'
    && forall k :: 2 <= k < |t| - 2 ==> t[k] != '}'
  }

  /** The first `}` at or after position `k` of `s`, or `|s|` if there is none. */
  function NextCloseBrace(s: string, k: nat): (j: nat)
    requires k <= |s|
    ensures k <= j <= |s|
    ensures forall m :: k <= m < j ==> s[m] != '}'
    ensures j < |s| ==> s[j] == '}'
    decreases |s| - k
  {
    if k == |s| || s[k] == '}' then k else NextCloseBrace(s, k + 1)
  }

  /** Where a match of the pattern that starts at position `i` ends. After
      `{{`, the greedy `[^}]+` runs up to the first `}`, and since it cannot
      give back a character that is `}`, the match exists exactly when that
      `}` is not the first character and is followed by another `}`. */
  function MatchAt(s: string, i: nat): (r: Option<nat>)
    ensures r.Some? ==> i + 5 <= r.value <= |s| && IsToken(s[i..r.value])
  {
    if i + 2 <= |s| && s[i] == '{' && s[i + 1] == '{' then
      var j := NextCloseBrace(s, i + 2);
      if i + 2 < j && j + 1 < |s| && s[j + 1] == '}' then
        var t := s[i..j + 2];
        assert forall k :: 2 <= k < |t| - 2 ==> t[k] != '}' by {
          forall k | 2 <= k < |t| - 2 ensures t[k] != '}' {
            assert t[k] == s[i + k];
          }
        }
        Some(j + 2)
      else None
    else None
  }

  /** Every token-shaped piece of text is what the pattern matches at its start. */
  lemma MatchAtToken(s: string, i: nat, e: nat)
    requires i <= e <= |s| && IsToken(s[i..e])
    ensures MatchAt(s, i) == Some(e)
  {
    var t := s[i..e];
    assert forall k :: 0 <= k < |t| ==> t[k] == s[i + k];
    assert s[e - 2] == t[|t| - 2];
  }

  /** The leftmost match at or after position `i`. */
  function FindFrom(s: string, i: nat): (r: Option<Match>)
    requires i <= |s|
    ensures r.Some? ==> i <= r.value.start && MatchAt(s, r.value.start) == Some(r.value.end)
    decreases |s| - i
  {
    if i == |s| then None
    else match MatchAt(s, i)
      case Some(e) => Some(Match(i, e))
      case None => FindFrom(s, i + 1)
  }

  /** No match starts between `i` and the one `FindFrom` reports, and none at
      all when it reports none. */
  lemma {:induction false} FindFromLeftmost(s: string, i: nat)
    requires i <= |s|
    ensures FindFrom(s, i).Some? ==> forall k :: i <= k < FindFrom(s, i).value.start ==> MatchAt(s, k).None?
    ensures FindFrom(s, i).None? ==> forall k :: i <= k <= |s| ==> MatchAt(s, k).None?
    decreases |s| - i
  {
    if i < |s| && MatchAt(s, i).None? {
      FindFromLeftmost(s, i + 1);
    }
  }

  /** `RegExp(tokenPattern).exec(s)`: the pattern has no `g` flag, so every
      search starts at the beginning of `s`. */
  function FindToken(s: string): (r: Option<Match>)
    ensures r.Some? ==> r.value.start + 5 <= r.value.end <= |s|
    ensures r.Some? ==> IsToken(s[r.value.start..r.value.end])
  {
    FindFrom(s, 0)
  }

  /** `containsDataElementToken(s)`: some piece of `s` is a token. */
  function ContainsDataElementToken(s: string): (b: bool)
    ensures b <==> exists i, e :: 0 <= i <= e <= |s| && IsToken(s[i..e])
  {
    if FindToken(s).Some? then true
    else
      FindFromLeftmost(s, 0);
      assert forall i, e | 0 <= i <= e <= |s| && IsToken(s[i..e]) :: false by {
        forall i, e | 0 <= i <= e <= |s| && IsToken(s[i..e]) ensures false {
          MatchAtToken(s, i, e);
        }
      }
      false
  }

  /** `t` occurs in `s` at position `k`. */
  predicate OccursAt(s: string, t: string, k: nat) {
    k + |t| <= |s| && s[k..k + |t|] == t
  }

  /** `s.indexOf(t)`: the first position where `t` occurs in `s`, or -1. */
  function IndexOf(s: string, t: string): (r: int)
    ensures r == -1 || (0 <= r && OccursAt(s, t, r))
  {
    IndexOfFrom(s, t, 0)
  }

  function IndexOfFrom(s: string, t: string, i: nat): (r: int)
    ensures r == -1 || (i <= r && OccursAt(s, t, r))
    decreases |s| - i
  {
    if i + |t| > |s| then -1
    else if s[i..i + |t|] == t then i
    else IndexOfFrom(s, t, i + 1)
  }

  /** `indexOf` finds the first occurrence: there is none before the position
      it reports, and none at all when it reports -1. */
  lemma {:induction false} IndexOfFromFirst(s: string, t: string, i: nat)
    ensures IndexOfFrom(s, t, i) == -1 ==> forall k: nat :: i <= k ==> !OccursAt(s, t, k)
    ensures IndexOfFrom(s, t, i) >= 0 ==> forall k: nat :: i <= k < IndexOfFrom(s, t, i) ==> !OccursAt(s, t, k)
    decreases |s| - i
  {
    if i + |t| <= |s| && s[i..i + |t|] != t {
      IndexOfFromFirst(s, t, i + 1);
    }
  }

  /** The source looks the match up again with `indexOf`; the first
      occurrence of the matched text is where the match starts, because an
      earlier occurrence would have been an earlier match. */
  lemma IndexOfLeftmostMatch(s: string)
    requires FindToken(s).Some?
    ensures IndexOf(s, s[FindToken(s).value.start..FindToken(s).value.end]) == FindToken(s).value.start
  {
    var m := FindToken(s).value;
    var t := s[m.start..m.end];
    assert OccursAt(s, t, m.start);
    var r := IndexOf(s, t);
    IndexOfFromFirst(s, t, 0);
    FindFromLeftmost(s, 0);
    if r != m.start {
      assert r < m.start;
      MatchAtToken(s, r, r + |t|);
    }
  }

  // ---------------------------------------------------------------------
  // Encoding with tokens.

  /** What `encodeUriComponentWithToken(s)` returns: the text before the
      leftmost token percent-encoded, the token itself, then the same for the
      rest of the text. */
  function EncodeWithTokens(s: string): string
    decreases |s|
  {
    match FindToken(s)
    case None => UriComponent.Encode(s)
    case Some(m) => UriComponent.Encode(s[..m.start]) + s[m.start..m.end] + EncodeWithTokens(s[m.end..])
  }

  /** One round of the loop below: the encoding of `value` is the encoding of
      the text in front of its leftmost token, the token, and the encoding of
      what follows the token. */
  lemma EncodeWithTokensStep(value: string, result: string, input: string)
    requires FindToken(value).Some?
    requires result + EncodeWithTokens(value) == EncodeWithTokens(input)
    ensures var m := FindToken(value).value;
      result + UriComponent.Encode(value[..m.start]) + value[m.start..m.end] + EncodeWithTokens(value[m.end..])
      == EncodeWithTokens(input)
  {
    var m := FindToken(value).value;
    Strings.Regroup(result, UriComponent.Encode(value[..m.start]), value[m.start..m.end], EncodeWithTokens(value[m.end..]));
  }

  /** The source writes a match back as `{{` + name + `}}`, which is the
      matched text itself. */
  lemma TokenShape(s: string, m: Match)
    requires FindToken(s) == Some(m)
    ensures "{{" + s[m.start + 2..m.end - 2] + "}}" == s[m.start..m.end]
  {
    var t := s[m.start..m.end];
    Strings.SliceOfSlice(s, m.start, m.end, 2, |t| - 2);
    TokenParts(t);
  }

  lemma TokenParts(t: string)
    requires IsToken(t)
    ensures "{{" + t[2..|t| - 2] + "}}" == t
  {
    var u := "{{" + t[2..|t| - 2] + "}}";
    assert |u| == |t|;
    forall k | 0 <= k < |t| ensures u[k] == t[k] {
      if 2 <= k < |t| - 2 {
        assert u[k] == t[2..|t| - 2][k - 2];
      }
    }
  }

  /** `encodeUriComponentWithToken`: the while loop of the source, which
      repeatedly finds the leftmost token, encodes the text in front of it,
      copies the token and continues after it. It terminates because each
      round drops at least the five characters of a token from `value`. */
  method EncodeUriComponentWithToken(input: string) returns (result: string)
    ensures result == EncodeWithTokens(input)
  {
    var value := input;
    result := "";
    var res := FindToken(value);
    while res.Some?
      invariant res == FindToken(value)
      invariant result + EncodeWithTokens(value) == EncodeWithTokens(input)
      decreases |value|
    {
      EncodeWithTokensStep(value, result, input);
      result, value := EncodeRound(result, value, res.value);
      res := FindToken(value);
    }
    if value != "" {
      result := result + UriComponent.Encode(value);
    }
  }

  /** One round of that loop on the leftmost token `res` of `value`: the
      token's text and name, its position found again with `indexOf`, the
      text in front of it encoded and the token appended. */
  method EncodeRound(result: string, value: string, res: Match) returns (result': string, value': string)
    requires FindToken(value) == Some(res)
    ensures result' == result + UriComponent.Encode(value[..res.start]) + value[res.start..res.end]
    ensures value' == value[res.end..] && |value'| < |value|
  {
    var whole := value[res.start..res.end];
    var name := value[res.start + 2..res.end - 2];
    TokenShape(value, res);
    IndexOfLeftmostMatch(value);
    var tokenStartIndex := IndexOf(value, whole);
    var stringInFrontOfToken := value[..tokenStartIndex];
    result' := result;
    if stringInFrontOfToken != "" {
      result' := result' + UriComponent.Encode(stringInFrontOfToken);
    } else {
      Strings.AppendEmpty(result');
    }
    result' := result' + ("{{" + name + "}}");
    value' := value[tokenStartIndex + |whole|..];
  }

  /** A string without tokens is encoded exactly as plain `encodeURIComponent`
      would encode it. */
  lemma EncodeWithoutTokens(s: string)
    requires !ContainsDataElementToken(s)
    ensures EncodeWithTokens(s) == UriComponent.Encode(s)
  {
  }

  /** The choice the source makes for each key and value:
      `containsDataElementToken(s) ? encodeUriComponentWithToken(s) : encodeURIComponent(s)`. */
  method EncodeQueryComponent(s: string) returns (e: string)
    ensures e == EncodeWithTokens(s)
  {
    if ContainsDataElementToken(s) {
      e := EncodeUriComponentWithToken(s);
    } else {
      EncodeWithoutTokens(s);
      e := UriComponent.Encode(s);
    }
  }

  // ---------------------------------------------------------------------
  // Rebuilding the URL.

  /** `[url] = url.split('?')`: the part of `url` before its first `?`. */
  function BaseUrl(url: string): (b: string)
    ensures '?' !in b
    ensures |b| <= |url| && url[..|b|] == b
    ensures b == url || url[|b|] == '?'
  {
    var ps := Strings.Split(url, '?');
    Strings.JoinSplit(url, '?');
    assert |ps| > 1 ==> url == ps[0] + ['?'] + Strings.Join(ps[1..], '?');
    ps[0]
  }

  /** One serialised row, `key=value`. */
  function Pair(q: KeyValue): string {
    EncodeWithTokens(q.key) + "=" + EncodeWithTokens(q.value)
  }

  function Pieces(qs: seq<KeyValue>): (ps: seq<string>)
    ensures |ps| == |qs| && forall k :: 0 <= k < |qs| ==> ps[k] == Pair(qs[k])
  {
    seq(|qs|, k requires 0 <= k < |qs| => Pair(qs[k]))
  }

  /** The rows that `if (q.key)` lets through, in their original order. */
  function Surviving(rows: seq<KeyValue>): (r: seq<KeyValue>)
    ensures |r| <= |rows|
    ensures forall k :: 0 <= k < |r| ==> r[k].HasKey()
  {
    if rows == [] then []
    else
      var init := Surviving(rows[..|rows| - 1]);
      var last := rows[|rows| - 1];
      assert rows == rows[..|rows| - 1] + [last];
      if last.HasKey() then init + [last] else init
  }

  /** The query string the `forEach` builds: nothing when no row survives,
      otherwise `?` and the surviving rows joined with `&`. */
  function QueryPart(rows: seq<KeyValue>): string {
    var qs := Surviving(rows);
    if qs == [] then "" else "?" + Strings.Join(Pieces(qs), '&')
  }

  /** What `addQueryParamsToUrl(url, rows)` returns. */
  function BuildUrl(url: string, rows: seq<KeyValue>): string {
    BaseUrl(url) + QueryPart(rows)
  }

  lemma SurvivingSnoc(rows: seq<KeyValue>, q: KeyValue)
    ensures Surviving(rows + [q]) == if q.HasKey() then Surviving(rows) + [q] else Surviving(rows)
  {
    assert (rows + [q])[..|rows|] == rows;
  }

  lemma QueryPartSnoc(rows: seq<KeyValue>, q: KeyValue)
    ensures !q.HasKey() ==> QueryPart(rows + [q]) == QueryPart(rows)
    ensures q.HasKey() ==>
              QueryPart(rows + [q]) == QueryPart(rows) + ((if Surviving(rows) == [] then "?" else "&") + Pair(q))
  {
    SurvivingSnoc(rows, q);
    if q.HasKey() {
      if Surviving(rows) == [] {
        QueryPartFirst(rows, q);
      } else {
        QueryPartNext(rows, q);
      }
    }
  }

  lemma QueryPartFirst(rows: seq<KeyValue>, q: KeyValue)
    requires Surviving(rows) == [] && Surviving(rows + [q]) == [q]
    ensures QueryPart(rows + [q]) == QueryPart(rows) + ("?" + Pair(q))
  {
    var p := Pair(q);
    assert Pieces([q]) == [p];
    assert Strings.Join([p], '&') == p;
    assert QueryPart(rows + [q]) == "?" + p;
    Strings.PrependEmpty("?" + p);
  }

  lemma QueryPartNext(rows: seq<KeyValue>, q: KeyValue)
    requires Surviving(rows) != [] && Surviving(rows + [q]) == Surviving(rows) + [q]
    ensures QueryPart(rows + [q]) == QueryPart(rows) + ("&" + Pair(q))
  {
    var qs := Surviving(rows);
    var p := Pair(q);
    var ps := Pieces(qs);
    assert Pieces(qs + [q]) == ps + [p];
    Strings.JoinSnoc(ps, p, '&');
    Strings.ConcatSep("?", Strings.Join(ps, '&'), '&', p);
    Strings.Regroup("?", Strings.Join(ps, '&'), "&", p);
  }

  /** One round of the loop below: a row with a key adds `?` or `&` and its
      pair, any other row adds nothing. */
  lemma RowStep(rows: seq<KeyValue>, n: nat, acc: string, i: nat)
    requires n < |rows|
    requires acc == QueryPart(rows[..n]) && i == |Surviving(rows[..n])|
    ensures rows[n].HasKey() ==>
              && acc + ((if i == 0 then "?" else "&") + Pair(rows[n])) == QueryPart(rows[..n + 1])
              && i + 1 == |Surviving(rows[..n + 1])|
    ensures !rows[n].HasKey() ==> acc == QueryPart(rows[..n + 1]) && i == |Surviving(rows[..n + 1])|
  {
    assert rows[..n + 1] == rows[..n] + [rows[n]];
    QueryPartSnoc(rows[..n], rows[n]);
    SurvivingSnoc(rows[..n], rows[n]);
  }

  /** The callback that `forEach` runs on each row, with the two variables
      it updates passed in and out: a row with a key appends its pair, after
      `?` if it is the first such row and after `&` otherwise. */
  method AppendRow(queryParams: string, i: nat, q: KeyValue) returns (queryParams': string, i': nat)
    ensures q.HasKey() ==> queryParams' == queryParams + ((if i == 0 then "?" else "&") + Pair(q)) && i' == i + 1
    ensures !q.HasKey() ==> queryParams' == queryParams && i' == i
  {
    queryParams', i' := queryParams, i;
    if q.HasKey() {
      var k := EncodeQueryComponent(q.key);
      var v := EncodeQueryComponent(q.value);
      var prefix := (if i == 0 then "?" else "") + (if i > 0 then "&" else "");
      assert prefix == if i == 0 then "?" else "&";
      Strings.Regroup(prefix, k, "=", v);
      queryParams' := queryParams' + (prefix + k + "=" + v);
      i' := i' + 1;
    }
  }

  /** The default export of the source: the base of `url` followed by one
      `key=value` per row with a non-empty key, the first after `?` and the
      others after `&`; a key or value that holds a token is encoded with
      `EncodeUriComponentWithToken`, any other with plain `encodeURIComponent`. */
  method AddQueryParamsToUrl(url: string, queryParamsArray: seq<KeyValue>) returns (r: string)
    ensures r == BuildUrl(url, queryParamsArray)
  {
    var base := BaseUrl(url);
    var queryParams := "";
    var i := 0;
    if |queryParamsArray| > 0 {
      for n := 0 to |queryParamsArray|
        invariant queryParams == QueryPart(queryParamsArray[..n])
        invariant i == |Surviving(queryParamsArray[..n])|
      {
        RowStep(queryParamsArray, n, queryParams, i);
        queryParams, i := AppendRow(queryParams, i, queryParamsArray[n]);
      }
    }
    assert queryParamsArray[..|queryParamsArray|] == queryParamsArray;
    r := base + queryParams;
  }

  // ---------------------------------------------------------------------
  // Properties of the rebuilt URL.

  /** Filtering the rows distributes over concatenation. */
  lemma {:induction false} SurvivingAppend(a: seq<KeyValue>, b: seq<KeyValue>)
    ensures Surviving(a + b) == Surviving(a) + Surviving(b)
    decreases |b|
  {
    if b == [] {
      assert a + b == a;
    } else {
      var init, last := b[..|b| - 1], b[|b| - 1];
      assert b == init + [last];
      assert a + b == (a + init) + [last];
      SurvivingAppend(a, init);
      SurvivingSnoc(a + init, last);
      SurvivingSnoc(init, last);
    }
  }

  /** A row survives exactly when it is one of the rows and has a key. */
  lemma {:induction false} SurvivingMembers(rows: seq<KeyValue>, q: KeyValue)
    ensures q in Surviving(rows) <==> q in rows && q.HasKey()
    decreases |rows|
  {
    if rows != [] {
      var init, last := rows[..|rows| - 1], rows[|rows| - 1];
      assert rows == init + [last];
      SurvivingSnoc(init, last);
      SurvivingMembers(init, q);
    }
  }

  /** A row whose key is empty leaves no trace in the URL, wherever it is. */
  lemma EmptyKeyRowIgnored(url: string, a: seq<KeyValue>, value: string, b: seq<KeyValue>)
    ensures BuildUrl(url, a + [KeyValue("", value)] + b) == BuildUrl(url, a + b)
  {
    var e := KeyValue("", value);
    SurvivingAppend(a + [e], b);
    SurvivingAppend(a, [e]);
    SurvivingSnoc([], e);
    assert [] + [e] == [e];
    SurvivingAppend(a, b);
    assert Surviving(a + [e]) == Surviving(a);
  }

  /** With no row that has a key, the URL is cut back to its base. */
  lemma NoKeysBaseOnly(url: string, rows: seq<KeyValue>)
    requires forall k :: 0 <= k < |rows| ==> !rows[k].HasKey()
    ensures BuildUrl(url, rows) == BaseUrl(url)
  {
    if Surviving(rows) != [] {
      var q := Surviving(rows)[0];
      SurvivingMembers(rows, q);
    }
  }

  /** The base of a text that has no `?`, followed by `?` and anything, is
      that text. */
  lemma BaseUrlBeforeQuery(b: string, x: string)
    requires '?' !in b
    ensures BaseUrl(b) == b
    ensures BaseUrl(b + "?" + x) == b
  {
    Strings.SplitPieceThenSep(b, '?', x);
  }

  /** Rebuilding keeps the base: the part before the first `?` of the new URL
      is the part before the first `?` of the old one, whatever query the old
      URL carried. */
  lemma BaseUrlOfBuildUrl(url: string, rows: seq<KeyValue>)
    ensures BaseUrl(BuildUrl(url, rows)) == BaseUrl(url)
  {
    var b := BaseUrl(url);
    var qs := Surviving(rows);
    BaseUrlBeforeQuery(b, if qs == [] then "" else Strings.Join(Pieces(qs), '&'));
    if qs == [] {
      assert BuildUrl(url, rows) == b;
    } else {
      Strings.Assoc(b, "?", Strings.Join(Pieces(qs), '&'));
    }
  }

  /** Applying the same rows twice changes nothing more. */
  lemma BuildUrlIdempotent(url: string, rows: seq<KeyValue>)
    ensures BuildUrl(BuildUrl(url, rows), rows) == BuildUrl(url, rows)
  {
    BaseUrlOfBuildUrl(url, rows);
  }

  /** A single-letter component has no token and no character to escape. */
  lemma PlainLetter(c: char)
    requires 'a' <= c <= 'z'
    ensures EncodeWithTokens([c]) == [c]
  {
    UriComponent.EncodeCons([c]);
    assert [c][1..] == "";
  }

  /** Two rows with keys under a base without `?`. */
  lemma TwoRows(base: string, x: string, r1: KeyValue, r2: KeyValue)
    requires '?' !in base && r1.HasKey() && r2.HasKey()
    ensures BuildUrl(base + "?" + x, [r1, r2]) == base + ("?" + (Pair(r1) + "&" + Pair(r2)))
  {
    BaseUrlBeforeQuery(base, x);
    var rows := [r1, r2];
    assert [r1] == [] + [r1] && rows == [r1] + [r2];
    SurvivingSnoc([], r1);
    SurvivingSnoc([r1], r2);
    var ps := Pieces(rows);
    assert ps == [Pair(r1), Pair(r2)];
    assert ps[1..] == [Pair(r2)];
    assert Strings.Join(ps, '&') == Pair(r1) + "&" + Pair(r2);
  }

  lemma OneRow(base: string, x: string, r: KeyValue)
    requires '?' !in base && r.HasKey()
    ensures BuildUrl(base + "?" + x, [r]) == base + ("?" + Pair(r))
  {
    BaseUrlBeforeQuery(base, x);
    assert [r] == [] + [r];
    SurvivingSnoc([], r);
    assert Pieces([r]) == [Pair(r)];
  }

  /** Adding a row `c=d` under the row parsed from `?a=b`, for single
      letters `a`, `b`, `c`, `d` and any base such as `http://www.google.com`. */
  lemma AddRowExample(base: string, a: char, b: char, c: char, d: char)
    requires '?' !in base
    requires 'a' <= a <= 'z' && 'a' <= b <= 'z' && 'a' <= c <= 'z' && 'a' <= d <= 'z'
    ensures BuildUrl(base + ['?', a, '=', b], [KeyValue([a], [b]), KeyValue([c], [d])])
            == base + ['?', a, '=', b, '&', c, '=', d]
  {
    assert base + ['?', a, '=', b] == base + "?" + [a, '=', b];
    TwoRows(base, [a, '=', b], KeyValue([a], [b]), KeyValue([c], [d]));
    PlainRow(a, b);
    PlainRow(c, d);
    assert "?" + ([a, '=', b] + "&" + [c, '=', d]) == ['?', a, '=', b, '&', c, '=', d];
  }

  lemma PlainRow(x: char, y: char)
    requires 'a' <= x <= 'z' && 'a' <= y <= 'z'
    ensures Pair(KeyValue([x], [y])) == [x, '=', y]
  {
    PlainLetter(x);
    PlainLetter(y);
  }

  /** A token passes through verbatim while the text around it is escaped. */
  lemma TokenExample()
    ensures EncodeWithTokens("a b{{x}}") == "a%20b{{x}}"
  {
    var s := "a b{{x}}";
    assert MatchAt(s, 3) == Some(8);
    assert FindFrom(s, 3) == Some(Match(3, 8));
    assert MatchAt(s, 2).None? && MatchAt(s, 1).None? && MatchAt(s, 0).None?;
    assert FindToken(s) == Some(Match(3, 8));
    assert s[..3] == "a b" && s[3..8] == "{{x}}" && s[8..] == "";
    assert EncodeWithTokens(s) == UriComponent.Encode("a b") + "{{x}}" + EncodeWithTokens("");
    UriComponent.EncodeCons("a b");
    UriComponent.EncodeCons(" b");
    UriComponent.EncodeCons("b");
    assert UriComponent.EncodeChar(' ') == "%20";
  }
}
