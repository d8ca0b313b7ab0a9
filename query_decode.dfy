/** Reading a rebuilt URL back: the base, then each `key=value` piece of the
    query decoded with the token-preserving decoder. When no token in a key
    or value holds `&` or `=`, this gives back the base and exactly the rows that
    were serialised, in order, so the serialiser loses no row and mixes up
    no two. */
module QueryDecode {
  import opened Prelude
  import UriComponent
  import opened QueryString
  import opened TokenCodec
  import Strings

  datatype ParsedUrl = ParsedUrl(base: string, rows: seq<KeyValue>)

  /** One `key=value` piece. */
  function DecodePair(piece: string): Option<KeyValue> {
    var parts := Strings.Split(piece, '=');
    if |parts| != 2 then None
    else
      match (DecodeWithTokens(parts[0]), DecodeWithTokens(parts[1]))
      case (Some(k), Some(v)) => Some(KeyValue(k, v))
      case _ => None
  }

  function DecodePairs(pieces: seq<string>): Option<seq<KeyValue>> {
    if pieces == [] then Some([])
    else
      match (DecodePair(pieces[0]), DecodePairs(pieces[1..]))
      case (Some(q), Some(qs)) => Some([q] + qs)
      case _ => None
  }

  /** The base, and the rows of the query after the first `?`, if any. */
  function ParseUrl(url: string): Option<ParsedUrl> {
    var b := BaseUrl(url);
    if b == url then Some(ParsedUrl(url, []))
    else
      assert |b| < |url|;
      match DecodePairs(Strings.Split(url[|b| + 1..], '&'))
      case Some(rows) => Some(ParsedUrl(b, rows))
      case None => None
  }

  /** No data-element token of `s` holds `c`. Outside tokens a separator
      is percent-encoded, so only a token can carry one into the URL. */
  predicate TokensAvoid(s: string, c: char)
    decreases |s|
  {
    match FindToken(s)
    case None => true
    case Some(m) => c !in s[m.start..m.end] && TokensAvoid(s[m.end..], c)
  }

  /** A row none of whose tokens holds a separator of the query. */
  predicate Plain(q: KeyValue) {
    TokensAvoid(q.key, '&') && TokensAvoid(q.key, '=') && TokensAvoid(q.value, '&') && TokensAvoid(q.value, '=')
  }

  /** Every row without a brace qualifies, whatever `&` and `=` it holds. */
  lemma BracelessPlain(q: KeyValue)
    requires '{' !in q.key && '{' !in q.value
    ensures Plain(q)
  {
    NoBraceNoToken(q.key);
    NoBraceNoToken(q.value);
  }

  /** A separator that no token holds is not in the encoding: encoding
      removes it from the text around tokens, and tokens are copied. */
  lemma {:induction false} NoSeparatorAfterEncoding(s: string, c: char)
    requires c == '&' || c == '='
    requires TokensAvoid(s, c)
    ensures c !in EncodeWithTokens(s)
    decreases |s|
  {
    UriComponent.EncodeHasNoDelimiters(s);
    match FindToken(s)
    case None =>
    case Some(m) =>
      var front := s[..m.start];
      UriComponent.EncodeHasNoDelimiters(front);
      NoSeparatorAfterEncoding(s[m.end..], c);
  }

  /** A serialised row reads back as the row. */
  lemma PairRoundTrip(q: KeyValue)
    requires Plain(q)
    ensures '&' !in Pair(q)
    ensures DecodePair(Pair(q)) == Some(q)
  {
    var k, v := EncodeWithTokens(q.key), EncodeWithTokens(q.value);
    NoSeparatorAfterEncoding(q.key, '&');
    NoSeparatorAfterEncoding(q.key, '=');
    NoSeparatorAfterEncoding(q.value, '&');
    NoSeparatorAfterEncoding(q.value, '=');
    assert Pair(q) == k + ['='] + v;
    Strings.SplitPieceThenSep(k, '=', v);
    DecodeEncodeWithTokens(q.key);
    DecodeEncodeWithTokens(q.value);
  }

  lemma {:induction false} PairsRoundTrip(qs: seq<KeyValue>)
    requires forall k :: 0 <= k < |qs| ==> Plain(qs[k])
    ensures DecodePairs(Pieces(qs)) == Some(qs)
    decreases |qs|
  {
    if qs != [] {
      PairRoundTrip(qs[0]);
      assert Pieces(qs)[1..] == Pieces(qs[1..]);
      PairsRoundTrip(qs[1..]);
      assert [qs[0]] + qs[1..] == qs;
    }
  }

  /** The URL a set of rows produces reads back as the base of the original
      URL and the rows that have a key, in their order. */
  lemma UrlRoundTrip(url: string, rows: seq<KeyValue>)
    requires forall k :: 0 <= k < |rows| ==> Plain(rows[k])
    ensures ParseUrl(BuildUrl(url, rows)) == Some(ParsedUrl(BaseUrl(url), Surviving(rows)))
  {
    var b, qs := BaseUrl(url), Surviving(rows);
    SurvivingPlain(rows);
    if qs == [] {
      BaseUrlBeforeQuery(b, "");
      assert BuildUrl(url, rows) == b;
    } else {
      var joined := Strings.Join(Pieces(qs), '&');
      Strings.Assoc(b, "?", joined);
      ParseWithQuery(b, joined);
      SplitPieces(qs);
      PairsRoundTrip(qs);
    }
  }

  lemma {:induction false} SurvivingPlain(rows: seq<KeyValue>)
    requires forall k :: 0 <= k < |rows| ==> Plain(rows[k])
    ensures forall k :: 0 <= k < |Surviving(rows)| ==> Plain(Surviving(rows)[k])
  {
    forall k | 0 <= k < |Surviving(rows)| ensures Plain(Surviving(rows)[k]) {
      SurvivingMembers(rows, Surviving(rows)[k]);
    }
  }

  /** The query after `?` splits on `&` into the serialised rows. */
  lemma SplitPieces(qs: seq<KeyValue>)
    requires |qs| >= 1
    requires forall k :: 0 <= k < |qs| ==> Plain(qs[k])
    ensures Strings.Split(Strings.Join(Pieces(qs), '&'), '&') == Pieces(qs)
  {
    var ps := Pieces(qs);
    forall k | 0 <= k < |ps| ensures '&' !in ps[k] {
      PairRoundTrip(qs[k]);
    }
    Strings.SplitJoin(ps, '&');
  }

  /** A URL whose base has no `?` is parsed from the text after its `?`. */
  lemma ParseWithQuery(b: string, joined: string)
    requires '?' !in b
    ensures ParseUrl(b + ("?" + joined))
            == match DecodePairs(Strings.Split(joined, '&'))
               case Some(rs) => Some(ParsedUrl(b, rs))
               case None => None
  {
    var u := b + ("?" + joined);
    Strings.Assoc(b, "?", joined);
    BaseUrlBeforeQuery(b, joined);
    assert |u| > |b|;
    assert u[|b| + 1..] == joined;
  }

  /** Hence two lists of such rows that give the same URL from the same base
      have the same rows with keys. */
  lemma BuildUrlDistinguishesRows(url: string, rows1: seq<KeyValue>, rows2: seq<KeyValue>)
    requires forall k :: 0 <= k < |rows1| ==> Plain(rows1[k])
    requires forall k :: 0 <= k < |rows2| ==> Plain(rows2[k])
    requires BuildUrl(url, rows1) == BuildUrl(url, rows2)
    ensures Surviving(rows1) == Surviving(rows2)
  {
    UrlRoundTrip(url, rows1);
    UrlRoundTrip(url, rows2);
  }
}
