/** The `String.prototype` operations the core relies on, `split` on a
    one-character separator and `join`, with the facts about concatenation
    and slices that the proofs use. */
module Strings {

  /** `s.split(sep)` for a one-character separator: the maximal pieces of `s`
      between occurrences of `sep`. There is always at least one piece. */
  function Split(s: string, sep: char): (ps: seq<string>)
    ensures |ps| >= 1
    ensures forall k :: 0 <= k < |ps| ==> sep !in ps[k]
    ensures sep !in s ==> ps == [s]
    decreases |s|
  {
    if s == "" then [""]
    else
      var rest := Split(s[1..], sep);
      if s[0] == sep then [""] + rest
      else
        assert sep !in s ==> sep !in s[1..] && [s[0]] + s[1..] == s;
        [[s[0]] + rest[0]] + rest[1..]
  }

  /** `ps.join(sep)`. */
  function Join(ps: seq<string>, sep: char): string
    requires |ps| >= 1
  {
    if |ps| == 1 then ps[0] else ps[0] + [sep] + Join(ps[1..], sep)
  }

  /** Splitting loses nothing: the pieces joined back give the original text. */
  lemma {:induction false} JoinSplit(s: string, sep: char)
    ensures Join(Split(s, sep), sep) == s
    decreases |s|
  {
    if s != "" {
      JoinSplit(s[1..], sep);
      var rest := Split(s[1..], sep);
      if s[0] == sep {
        assert s == [sep] + s[1..];
      } else {
        var ps := Split(s, sep);
        assert s == [s[0]] + s[1..];
        assert ps[0] == [s[0]] + rest[0] && ps[1..] == rest[1..];
        if |rest| > 1 {
          var tail := Join(rest[1..], sep);
          assert Join(ps, sep) == ps[0] + [sep] + tail;
          Regroup([s[0]], rest[0], [sep], tail);
        }
      }
    }
  }

  lemma {:induction false} SplitPieceThenSep(a: string, sep: char, t: string)
    requires sep !in a
    ensures Split(a + [sep] + t, sep) == [a] + Split(t, sep)
    decreases |a|
  {
    if a == "" {
      assert a + [sep] + t == [sep] + t;
      assert ([sep] + t)[1..] == t;
    } else {
      assert (a + [sep] + t)[1..] == a[1..] + [sep] + t;
      SplitPieceThenSep(a[1..], sep, t);
      assert [a[0]] + a[1..] == a;
    }
  }

  lemma SliceOfSlice(s: string, i: nat, j: nat, k: nat, l: nat)
    requires i <= j <= |s| && k <= l <= j - i
    ensures s[i..j][k..l] == s[i + k..i + l]
  {
    assert forall n :: 0 <= n < l - k ==> s[i..j][k..l][n] == s[i + k + n];
  }

  /** Joining pieces that do not contain the separator can be undone by
      splitting. */
  lemma {:induction false} SplitJoin(ps: seq<string>, sep: char)
    requires |ps| >= 1
    requires forall k :: 0 <= k < |ps| ==> sep !in ps[k]
    ensures Split(Join(ps, sep), sep) == ps
  {
    if |ps| > 1 {
      SplitJoin(ps[1..], sep);
      SplitPieceThenSep(ps[0], sep, Join(ps[1..], sep));
      assert [ps[0]] + ps[1..] == ps;
    }
  }

  /** Joining one more piece onto the end. */
  lemma {:induction false} JoinSnoc(ps: seq<string>, x: string, sep: char)
    requires |ps| >= 1
    ensures Join(ps + [x], sep) == Join(ps, sep) + [sep] + x
  {
    if |ps| == 1 {
      assert (ps + [x])[1..] == [x];
    } else {
      assert (ps + [x])[1..] == ps[1..] + [x];
      JoinSnoc(ps[1..], x, sep);
    }
  }

  /** Regrouping a separator between two strings. */
  lemma ConcatSep(a: string, b: string, sep: char, c: string)
    ensures a + (b + [sep] + c) == a + b + [sep] + c
  {
  }

  lemma Assoc(a: string, b: string, c: string)
    ensures a + b + c == a + (b + c)
  {
  }

  /** A text cut in three pieces and put back together. */
  lemma SliceParts(s: string, i: nat, j: nat)
    requires i <= j <= |s|
    ensures s[..i] + s[i..j] + s[j..] == s
  {
  }

  lemma Regroup(a: string, b: string, c: string, d: string)
    ensures a + b + c + d == a + (b + c + d)
  {
  }

  lemma AppendEmpty(a: string)
    ensures a + "" == a
  {
  }

  lemma PrependEmpty(a: string)
    ensures "" + a == a
  {
  }
}
