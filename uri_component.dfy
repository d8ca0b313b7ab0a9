/** Percent-encoding of one URI component as ECMAScript's `encodeURIComponent`
    does it (ECMA-262 6th edition, section 18.2.6.5): the characters A-Z, a-z,
    0-9 and `- _ . ! ~ * ' ( )` stand for themselves, every other character is
    written as the UTF-8 octets of its code point, each as `%` and two upper-case
    hexadecimal digits (section 2.1 of RFC 3986).

    Dafny characters are Unicode scalar values, so the lone surrogates on which
    the built-in throws cannot occur here.

    A decoder in the manner of `decodeURIComponent` is given as the partner of
    the encoder: decoding undoes encoding for every string. */
module UriComponent {
  import opened Prelude
  import Strings

  /** The characters `encodeURIComponent` leaves unescaped. */
  predicate Unreserved(c: char) {
    || 'A' <= c <= 'Z' || 'a' <= c <= 'z' || '0' <= c <= '9'
    || c == '-' || c == '_' || c == '.' || c == '!' || c == '~'
    || c == '*' || c == '\'' || c == '(' || c == ')'
  }

  /** A character that can appear in the output of `Encode`. */
  predicate EncodedChar(c: char) {
    Unreserved(c) || c == '%'
  }

  const HexDigits: string := "0123456789ABCDEF"

  predicate IsScalarValue(n: int) {
    (0 <= n < 0xD800) || (0xE000 <= n < 0x11_0000)
  }

  /** The UTF-8 octets of one code point (RFC 3629, section 3). */
  function Utf8(c: char): (bs: seq<Byte>)
    ensures 1 <= |bs| <= 4
  {
    var n := c as int;
    if n < 0x80 then [n]
    else if n < 0x800 then [0xC0 + n / 64, 0x80 + n % 64]
    else if n < 0x1_0000 then [0xE0 + n / 4096, 0x80 + (n / 64) % 64, 0x80 + n % 64]
    else [0xF0 + n / 262144, 0x80 + (n / 4096) % 64, 0x80 + (n / 64) % 64, 0x80 + n % 64]
  }

  /** `%` followed by the two hexadecimal digits of one octet. */
  function PercentOctet(b: Byte): (r: string)
    ensures |r| == 3 && r[0] == '%'
    ensures Unreserved(r[1]) && Unreserved(r[2])
  {
    ['%', HexDigits[b / 16], HexDigits[b % 16]]
  }

  function PercentOctets(bs: seq<Byte>): (r: string)
    ensures |r| == 3 * |bs|
  {
    if bs == [] then "" else PercentOctet(bs[0]) + PercentOctets(bs[1..])
  }

  function EncodeChar(c: char): string {
    if Unreserved(c) then [c] else PercentOctets(Utf8(c))
  }

  /** `encodeURIComponent(s)` for a well-formed string `s`. */
  function Encode(s: string): (r: string)
    ensures s == "" ==> r == ""
    decreases |s|, 1
  {
    if s == "" then "" else EncodeNonEmpty(s)
  }

  /** The first character encoded, then the rest of the string. */
  function EncodeNonEmpty(s: string): string
    requires s != ""
    decreases |s|, 0
  {
    EncodeChar(s[0]) + Encode(s[1..])
  }

  lemma EncodeCons(s: string)
    requires s != ""
    ensures Encode(s) == EncodeChar(s[0]) + Encode(s[1..])
  {
    assert Encode(s) == EncodeNonEmpty(s);
  }

  /** Encoding works character by character, so it distributes over `+`. */
  lemma {:induction false} EncodeAppend(a: string, b: string)
    ensures Encode(a + b) == Encode(a) + Encode(b)
  {
    if a == "" {
      assert a + b == b;
    } else {
      assert (a + b)[1..] == a[1..] + b;
      EncodeAppend(a[1..], b);
    }
  }

  lemma {:induction false} PercentOctetsChars(bs: seq<Byte>)
    ensures forall i :: 0 <= i < |PercentOctets(bs)| ==> EncodedChar(PercentOctets(bs)[i])
  {
    if bs != [] {
      PercentOctetsChars(bs[1..]);
      var r := PercentOctets(bs);
      assert r == PercentOctet(bs[0]) + PercentOctets(bs[1..]);
      forall i | 0 <= i < |r| ensures EncodedChar(r[i]) {
        if i >= 3 {
          assert r[i] == PercentOctets(bs[1..])[i - 3];
        }
      }
    }
  }

  /** Every character of an encoding is unreserved or `%`. */
  lemma {:induction false} EncodeChars(s: string)
    ensures forall i :: 0 <= i < |Encode(s)| ==> EncodedChar(Encode(s)[i])
  {
    if s != "" {
      EncodeChars(s[1..]);
      var c := EncodeChar(s[0]);
      if !Unreserved(s[0]) {
        PercentOctetsChars(Utf8(s[0]));
      }
      var r := Encode(s);
      EncodeCons(s);
      forall i | 0 <= i < |r| ensures EncodedChar(r[i]) {
        if i >= |c| {
          assert r[i] == Encode(s[1..])[i - |c|];
        } else {
          assert r[i] == c[i];
        }
      }
    }
  }

  /** Nothing that separates the parts of a query string, and no brace of a
      data-element token, survives encoding. */
  lemma EncodeHasNoDelimiters(s: string)
    ensures forall i :: 0 <= i < |Encode(s)| ==> Encode(s)[i] !in {'{', '}', '&', '=', '?', '#'}
  {
    EncodeChars(s);
  }

  // ---------------------------------------------------------------------
  // The decoder: the partner of Encode.

  function HexValue(c: char): Option<int> {
    if '0' <= c <= '9' then Some(c as int - '0' as int)
    else if 'A' <= c <= 'F' then Some(c as int - 'A' as int + 10)
    else if 'a' <= c <= 'f' then Some(c as int - 'a' as int + 10)
    else None
  }

  /** The octet written as `%XY` at position `i` of `s`, if there is one. */
  function OctetAt(s: string, i: nat): (r: Option<Byte>)
    ensures r.Some? ==> i + 3 <= |s| && s[i] == '%'
  {
    if i + 3 <= |s| && s[i] == '%' then
      match (HexValue(s[i + 1]), HexValue(s[i + 2]))
      case (Some(h), Some(l)) => (if 0 <= h < 16 && 0 <= l < 16 then Some(h * 16 + l) else None)
      case _ => None
    else None
  }

  /** The `n` octets written as `%XY%XY...` from the start of `s`. */
  function OctetsAt(s: string, n: nat): (r: Option<seq<Byte>>)
    ensures r.Some? ==> |r.value| == n && 3 * n <= |s|
  {
    if n == 0 then Some([])
    else match OctetAt(s, 0)
      case None => None
      case Some(b) =>
        match OctetsAt(s[3..], n - 1)
        case None => None
        case Some(bs) => Some([b] + bs)
  }

  /** The length of a UTF-8 sequence announced by its first octet; 0 for an
      octet that cannot start one. */
  function Utf8Length(b: Byte): nat {
    if b < 0x80 then 1
    else if 0xC0 <= b < 0xE0 then 2
    else if 0xE0 <= b < 0xF0 then 3
    else if 0xF0 <= b < 0xF8 then 4
    else 0
  }

  predicate Continuation(b: Byte) { 0x80 <= b < 0xC0 }

  function ScalarAtLeast(n: int, least: int): Option<char> {
    if least <= n && IsScalarValue(n) then Some(n as char) else None
  }

  /** The one code point a complete UTF-8 sequence stands for, rejecting
      overlong forms and surrogates. */
  function Utf8Decode(bs: seq<Byte>): Option<char> {
    if |bs| == 1 && bs[0] < 0x80 then
      Some(bs[0] as char)
    else if |bs| == 2 && 0xC0 <= bs[0] < 0xE0 && Continuation(bs[1]) then
      ScalarAtLeast(Combine([bs[0] as int - 0xC0, bs[1] as int - 0x80]), 0x80)
    else if |bs| == 3 && 0xE0 <= bs[0] < 0xF0 && Continuation(bs[1]) && Continuation(bs[2]) then
      ScalarAtLeast(Combine([bs[0] as int - 0xE0, bs[1] as int - 0x80, bs[2] as int - 0x80]), 0x800)
    else if |bs| == 4 && 0xF0 <= bs[0] < 0xF8 && Continuation(bs[1]) && Continuation(bs[2]) && Continuation(bs[3]) then
      ScalarAtLeast(Combine([bs[0] as int - 0xF0, bs[1] as int - 0x80, bs[2] as int - 0x80, bs[3] as int - 0x80]), 0x1_0000)
    else None
  }

  /** The number whose base-64 digits, most significant first, are `ds`. */
  function Combine(ds: seq<int>): int {
    if ds == [] then 0 else Combine(ds[..|ds| - 1]) * 64 + ds[|ds| - 1]
  }

  /** `decodeURIComponent(s)`, with `None` where the built-in throws. */
  function Decode(s: string): (r: Option<string>)
    decreases |s|
  {
    if s == "" then Some("")
    else if s[0] != '%' then
      match Decode(s[1..])
      case None => None
      case Some(t) => Some([s[0]] + t)
    else
      match OctetAt(s, 0)
      case None => None
      case Some(b) =>
        var n := Utf8Length(b);
        if n == 0 then None
        else
          match OctetsAt(s, n)
          case None => None
          case Some(bs) =>
            match Utf8Decode(bs)
            case None => None
            case Some(c) =>
              match Decode(s[3 * n..])
              case None => None
              case Some(t) => Some([c] + t)
  }

  lemma HexDigitValue(k: int)
    requires 0 <= k < 16
    ensures HexValue(HexDigits[k]) == Some(k)
  {
  }

  lemma OctetAtPercentOctet(b: Byte, rest: string)
    ensures OctetAt(PercentOctet(b) + rest, 0) == Some(b)
  {
    HexDigitValue(b / 16);
    HexDigitValue(b % 16);
  }

  lemma {:induction false} OctetsAtPercentOctets(bs: seq<Byte>, rest: string)
    ensures OctetsAt(PercentOctets(bs) + rest, |bs|) == Some(bs)
  {
    if bs != [] {
      var tail := PercentOctets(bs[1..]) + rest;
      var s := PercentOctets(bs) + rest;
      assert PercentOctets(bs) == PercentOctet(bs[0]) + PercentOctets(bs[1..]);
      Strings.Assoc(PercentOctet(bs[0]), PercentOctets(bs[1..]), rest);
      OctetAtPercentOctet(bs[0], tail);
      assert s[3..] == tail;
      OctetsAtPercentOctets(bs[1..], rest);
      assert OctetsAt(s, |bs|) == Some([bs[0]] + bs[1..]);
      assert [bs[0]] + bs[1..] == bs;
    }
  }

  lemma Utf8TwoOctets(n: int)
    requires 0x80 <= n < 0x800
    ensures Combine([(0xC0 + n / 64) - 0xC0, (0x80 + n % 64) - 0x80]) == n
  {
    assert Combine([n / 64]) == n / 64;
  }

  lemma Utf8ThreeOctets(n: int)
    requires 0x800 <= n < 0x1_0000
    ensures Combine([(0xE0 + n / 4096) - 0xE0, (0x80 + (n / 64) % 64) - 0x80, (0x80 + n % 64) - 0x80]) == n
  {
    var a, b, c := n / 4096, (n / 64) % 64, n % 64;
    assert Combine([a]) == a;
    assert Combine([a, b]) == a * 64 + b by { assert [a, b][..1] == [a]; }
    assert [a, b, c][..2] == [a, b];
    assert n / 64 == a * 64 + b;
  }

  lemma Utf8FourOctets(n: int)
    requires 0x1_0000 <= n < 0x11_0000
    ensures Combine([(0xF0 + n / 262144) - 0xF0, (0x80 + (n / 4096) % 64) - 0x80,
                     (0x80 + (n / 64) % 64) - 0x80, (0x80 + n % 64) - 0x80]) == n
  {
    var a, b, c, d := n / 262144, (n / 4096) % 64, (n / 64) % 64, n % 64;
    assert Combine([a]) == a;
    assert Combine([a, b]) == a * 64 + b by { assert [a, b][..1] == [a]; }
    assert Combine([a, b, c]) == (a * 64 + b) * 64 + c by { assert [a, b, c][..2] == [a, b]; }
    assert [a, b, c, d][..3] == [a, b, c];
    assert n / 4096 == a * 64 + b;
    assert n / 64 == (a * 64 + b) * 64 + c;
  }

  lemma Utf8RoundTrip(c: char)
    ensures Utf8Length(Utf8(c)[0]) == |Utf8(c)|
    ensures Utf8Decode(Utf8(c)) == Some(c)
  {
    var n := c as int;
    if n < 0x80 {
    } else if n < 0x800 {
      Utf8TwoOctets(n);
    } else if n < 0x1_0000 {
      Utf8ThreeOctets(n);
    } else {
      Utf8FourOctets(n);
    }
  }

  /** Decoding one encoded character in front of any text. */
  lemma DecodeEncodedChar(c: char, t: string)
    ensures Decode(EncodeChar(c) + t) ==
            match Decode(t) case None => None case Some(u) => Some([c] + u)
  {
    if Unreserved(c) {
      assert (EncodeChar(c) + t)[1..] == t;
    } else {
      DecodePercentEncodedChar(c, Utf8(c), t);
    }
  }

  lemma DecodePercentEncodedChar(c: char, bs: seq<Byte>, t: string)
    requires bs == Utf8(c)
    ensures Decode(PercentOctets(bs) + t) ==
            match Decode(t) case None => None case Some(u) => Some([c] + u)
  {
    var s := PercentOctets(bs) + t;
    var tail := PercentOctets(bs[1..]) + t;
    assert s == PercentOctet(bs[0]) + tail;
    OctetAtPercentOctet(bs[0], tail);
    assert OctetAt(s, 0) == Some(bs[0]);
    Utf8RoundTrip(c);
    var n := Utf8Length(bs[0]);
    assert n == |bs|;
    OctetsAtPercentOctets(bs, t);
    assert OctetsAt(s, n) == Some(bs);
    assert Utf8Decode(bs) == Some(c);
    assert s[3 * n..] == t;
  }

  /** Decoding undoes encoding: `decodeURIComponent(encodeURIComponent(s)) === s`. */
  lemma {:induction false} DecodeEncode(s: string)
    ensures Decode(Encode(s)) == Some(s)
  {
    if s != "" {
      DecodeEncodedChar(s[0], Encode(s[1..]));
      DecodeEncode(s[1..]);
      assert [s[0]] + s[1..] == s;
    }
  }

  /** Encoding is one-to-one. */
  lemma EncodeInjective(s: string, t: string)
    requires Encode(s) == Encode(t)
    ensures s == t
  {
    DecodeEncode(s);
    DecodeEncode(t);
  }
}
