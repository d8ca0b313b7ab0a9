/** The partner of the token-preserving encoder: a decoder that copies every
    data-element token through and undoes `encodeURIComponent` on the text
    around it. Decoding an encoding gives back the original text, so the
    encoder loses nothing and two different texts never encode alike. */
module TokenCodec {
  import opened Prelude
  import UriComponent
  import opened QueryString
  import Strings

  /** The inverse of `EncodeWithTokens`: the text in front of the leftmost
      token decoded, the token, and the rest decoded in the same way. */
  function DecodeWithTokens(t: string): Option<string>
    decreases |t|
  {
    match FindToken(t)
    case None => UriComponent.Decode(t)
    case Some(m) =>
      match (UriComponent.Decode(t[..m.start]), DecodeWithTokens(t[m.end..]))
      case (Some(front), Some(back)) => Some(front + t[m.start..m.end] + back)
      case _ => None
  }

  /** When no match starts anywhere in `[i, j)`, the search from `i` goes on
      at `j`. */
  lemma {:induction false} FindFromSkip(s: string, i: nat, j: nat)
    requires i <= j <= |s|
    requires forall k :: i <= k < j ==> MatchAt(s, k).None?
    ensures FindFrom(s, i) == FindFrom(s, j)
    decreases j - i
  {
    if i < j {
      FindFromSkip(s, i + 1, j);
    }
  }

  /** Text without `{` holds no token. */
  lemma NoBraceNoToken(e: string)
    requires '{' !in e
    ensures FindToken(e) == None
  {
    forall k | 0 <= k <= |e| ensures MatchAt(e, k).None? {
      if k < |e| {
        assert e[k] != '{';
      }
    }
    FindFromSkip(e, 0, |e|);
  }

  /** A token behind text without `{` is the leftmost match. */
  lemma TokenBehindPlainText(e: string, t: string, r: string)
    requires '{' !in e && IsToken(t)
    ensures FindToken(e + t + r) == Some(Match(|e|, |e| + |t|))
  {
    var s := e + t + r;
    forall k | 0 <= k < |e| ensures MatchAt(s, k).None? {
      assert s[k] == e[k];
    }
    FindFromSkip(s, 0, |e|);
    assert s[|e|..|e| + |t|] == t;
    MatchAtToken(s, |e|, |e| + |t|);
  }

  lemma EncodeHasNoOpenBrace(s: string)
    ensures '{' !in UriComponent.Encode(s)
  {
    UriComponent.EncodeHasNoDelimiters(s);
  }

  /** Decoding a token behind text without `{`: the text decoded, the
      token, and the rest decoded. */
  lemma DecodeAroundToken(e: string, t: string, r: string, front: string, back: string)
    requires '{' !in e && IsToken(t)
    requires UriComponent.Decode(e) == Some(front) && DecodeWithTokens(r) == Some(back)
    ensures DecodeWithTokens(e + t + r) == Some(front + t + back)
  {
    var s := e + t + r;
    TokenBehindPlainText(e, t, r);
    assert s[..|e|] == e;
    assert s[|e|..|e| + |t|] == t;
    assert s[|e| + |t|..] == r;
  }

  lemma EncodeWithTokensAt(s: string, m: Match)
    requires FindToken(s) == Some(m)
    ensures EncodeWithTokens(s) == UriComponent.Encode(s[..m.start]) + s[m.start..m.end] + EncodeWithTokens(s[m.end..])
  {
  }

  /** Decoding undoes the token-preserving encoding, for every text. */
  lemma {:induction false} DecodeEncodeWithTokens(s: string)
    ensures DecodeWithTokens(EncodeWithTokens(s)) == Some(s)
    decreases |s|
  {
    match FindToken(s)
    case None => DecodeEncodeNoToken(s);
    case Some(m) =>
      DecodeEncodeWithTokens(s[m.end..]);
      DecodeEncodeAtToken(s, m);
  }

  lemma DecodeEncodeNoToken(s: string)
    requires FindToken(s) == None
    ensures DecodeWithTokens(EncodeWithTokens(s)) == Some(s)
  {
    EncodeHasNoOpenBrace(s);
    NoBraceNoToken(UriComponent.Encode(s));
    UriComponent.DecodeEncode(s);
  }

  /** One token: what lies behind it decodes back by the induction
      hypothesis, the text in front of it by `DecodeEncode`. */
  lemma DecodeEncodeAtToken(s: string, m: Match)
    requires FindToken(s) == Some(m)
    requires DecodeWithTokens(EncodeWithTokens(s[m.end..])) == Some(s[m.end..])
    ensures DecodeWithTokens(EncodeWithTokens(s)) == Some(s)
  {
    var front, t, back := s[..m.start], s[m.start..m.end], s[m.end..];
    EncodeWithTokensAt(s, m);
    EncodeHasNoOpenBrace(front);
    UriComponent.DecodeEncode(front);
    DecodeAroundToken(UriComponent.Encode(front), t, EncodeWithTokens(back), front, back);
    Strings.SliceParts(s, m.start, m.end);
  }

  /** Two texts with the same token-preserving encoding are the same text. */
  lemma EncodeWithTokensInjective(s: string, t: string)
    requires EncodeWithTokens(s) == EncodeWithTokens(t)
    ensures s == t
  {
    DecodeEncodeWithTokens(s);
    DecodeEncodeWithTokens(t);
  }
}
