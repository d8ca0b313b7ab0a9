/** The error lookup of the validation wrapper: the field's name, a path such
    as `headers[0].key` or `headers.0.key`, is looked up in the form's tree
    of errors, and the field is marked invalid when a message is found. */
module ValidationWrapper {
  import opened Prelude
  import Strings

  /** The JavaScript values an error tree holds. Arrays are kept apart from
      objects because they are indexed by the text of a number. */
  datatype Value =
    | Undefined
    | Null
    | Bool(b: bool)
    | Num(n: int)
    | Str(s: string)
    | Arr(items: seq<Value>)
    | Obj(props: map<string, Value>)
  {
    /** JavaScript truthiness. */
    predicate Truthy() {
      match this
      case Undefined => false
      case Null => false
      case Bool(b) => b
      case Num(n) => n != 0
      case Str(s) => s != ""
      case Arr(_) => true
      case Obj(_) => true
    }
  }

  /** The value of a decimal digit. */
  function DigitValue(c: char): nat
    requires '0' <= c <= '9'
  {
    c as int - '0' as int
  }

  /** The number a text of decimal digits stands for. */
  function DecimalValue(s: string): nat
    requires forall k :: 0 <= k < |s| ==> '0' <= s[k] <= '9'
    decreases |s|
  {
    if s == "" then 0 else DecimalValue(s[..|s| - 1]) * 10 + DigitValue(s[|s| - 1])
  }

  /** The array index a property name denotes: a number written without
      leading zeros. */
  function ArrayIndex(part: string): (r: Option<nat>)
  {
    if part != "" && (forall k :: 0 <= k < |part| ==> '0' <= part[k] <= '9') && (part[0] != '0' || part == "0")
    then Some(DecimalValue(part)) else None
  }

  /** `obj[part]` for the own properties of `obj`: an object's keys, an
      array's or a string's elements and `length`; anything else reads as
      `undefined`. */
  function Lookup(obj: Value, part: string): Value {
    match obj
    case Obj(props) => if part in props then props[part] else Undefined
    case Arr(items) =>
      if part == "length" then Num(|items|)
      else (match ArrayIndex(part)
            case Some(i) => if i < |items| then items[i] else Undefined
            case None => Undefined)
    case Str(s) =>
      if part == "length" then Num(|s|)
      else (match ArrayIndex(part)
            case Some(i) => if i < |s| then Str([s[i]]) else Undefined
            case None => Undefined)
    case _ => Undefined
  }

  /** The property name `obj[path]` uses: an undefined path is the text
      `undefined`. */
  function PathKey(path: Option<string>): string {
    match path
    case None => "undefined"
    case Some(p) => p
  }

  /** `sk.replace(']', '')`: the first `]` removed, if there is one. */
  function RemoveFirstBracket(s: string): (r: string)
    ensures ']' !in s ==> r == s
    decreases |s|
  {
    if s == "" then ""
    else if s[0] == ']' then s[1..]
    else [s[0]] + RemoveFirstBracket(s[1..])
  }

  /** Only the first `]` goes: what follows it is kept as it is. */
  lemma {:induction false} RemoveFirstBracketAfter(a: string, b: string)
    requires ']' !in a
    ensures RemoveFirstBracket(a + "]" + b) == a + b
    decreases |a|
  {
    var s := a + "]" + b;
    if a == "" {
      assert s == "]" + b;
      assert s[1..] == b;
    } else {
      assert s[0] == a[0] && s[1..] == a[1..] + "]" + b;
      RemoveFirstBracketAfter(a[1..], b);
      assert a == [a[0]] + a[1..];
    }
  }

  /** The parts of one dot-separated piece: split on `[`, each sub-piece with
      its first `]` removed. */
  function PieceParts(subPieces: seq<string>): (r: seq<string>)
    ensures |r| == |subPieces|
    ensures forall k :: 0 <= k < |r| ==> r[k] == RemoveFirstBracket(subPieces[k])
  {
    if subPieces == [] then []
    else [RemoveFirstBracket(subPieces[0])] + PieceParts(subPieces[1..])
  }

  /** The pieces' parts, flattened in order. */
  function Flatten(pieces: seq<string>): seq<string> {
    if pieces == [] then []
    else PieceParts(Strings.Split(pieces[0], '[')) + Flatten(pieces[1..])
  }

  /** `path.split('.').map((k) => k.split('[').map(...)).flat()`. */
  function Parts(path: string): seq<string> {
    Flatten(Strings.Split(path, '.'))
  }

  /** The descent: at each part the value under it, stopping at the first
      falsy one and returning it. */
  function Walk(obj: Value, parts: seq<string>): Value
    decreases |parts|
  {
    if parts == [] then obj
    else
      var next := Lookup(obj, parts[0]);
      if next.Truthy() then Walk(next, parts[1..]) else next
  }

  /** `showError(obj, path)` as a value: the direct property if it is
      truthy, `''` for an empty or undefined path, and the descent
      otherwise. */
  function ShowErrorResult(obj: Value, path: Option<string>): Value {
    if Lookup(obj, PathKey(path)).Truthy() then Lookup(obj, PathKey(path))
    else if path.None? || path.value == "" then Str("")
    else Walk(obj, Parts(path.value))
  }

  /** `showError`. */
  method ShowError(errors: Value, path: Option<string>) returns (r: Value)
    ensures r == ShowErrorResult(errors, path)
    ensures Lookup(errors, PathKey(path)).Truthy() ==> r == Lookup(errors, PathKey(path))
    ensures !Lookup(errors, PathKey(path)).Truthy() && (path.None? || path.value == "") ==> r == Str("")
  {
    var obj := errors;
    if Lookup(obj, PathKey(path)).Truthy() {
      return Lookup(obj, PathKey(path));
    }
    if path.None? || path.value == "" {
      return Str("");
    }
    var parts := Parts(path.value);
    for i := 0 to |parts|
      invariant Walk(obj, parts[i..]) == Walk(errors, parts)
    {
      var part := parts[i];
      assert parts[i..][1..] == parts[i + 1..];
      if Lookup(obj, part).Truthy() {
        obj := Lookup(obj, part);
      } else {
        return Lookup(obj, part);
      }
    }
    r := obj;
  }

  /** `validationState`: `invalid` exactly when the lookup found a truthy
      value. */
  function ValidationState(showErrorResult: Value): (state: string)
    ensures state == "invalid" <==> showErrorResult.Truthy()
    ensures !showErrorResult.Truthy() ==> state == ""
  {
    if showErrorResult.Truthy() then "invalid" else ""
  }

  // ---------------------------------------------------------------------
  // Properties of the path and the descent.

  /** What the descent would reach by following every part,
      whatever it meets on the way. */
  function Follow(obj: Value, parts: seq<string>): Value
    decreases |parts|
  {
    if parts == [] then obj else Lookup(Follow(obj, parts[..|parts| - 1]), parts[|parts| - 1])
  }

  lemma {:induction false} FollowCons(obj: Value, p: string, rest: seq<string>)
    ensures Follow(obj, [p] + rest) == Follow(Lookup(obj, p), rest)
    decreases |rest|
  {
    if rest == [] {
      assert ([p] + rest)[..0] == [];
    } else {
      var init := rest[..|rest| - 1];
      assert ([p] + rest)[..|rest|] == [p] + init;
      FollowCons(obj, p, init);
    }
  }

  /** When every step finds a truthy value, the descent returns the last
      one. */
  lemma {:induction false} WalkAllPresent(obj: Value, parts: seq<string>)
    requires forall n :: 1 <= n <= |parts| ==> Follow(obj, parts[..n]).Truthy()
    ensures Walk(obj, parts) == Follow(obj, parts)
    decreases |parts|
  {
    if parts != [] {
      var next, rest := Lookup(obj, parts[0]), parts[1..];
      assert parts == [parts[0]] + rest;
      FollowCons(obj, parts[0], []);
      assert parts[..1] == [parts[0]] + [];
      assert next.Truthy();
      forall n | 1 <= n <= |rest| ensures Follow(next, rest[..n]).Truthy() {
        assert parts[..n + 1] == [parts[0]] + rest[..n];
        FollowCons(obj, parts[0], rest[..n]);
      }
      WalkAllPresent(next, rest);
      FollowCons(obj, parts[0], rest);
    }
  }

  /** At the first step that finds a falsy value, the descent stops and
      returns that value. */
  lemma {:induction false} WalkStopsAtFirstAbsent(obj: Value, parts: seq<string>, n: nat)
    requires 1 <= n <= |parts|
    requires !Follow(obj, parts[..n]).Truthy()
    requires forall m :: 1 <= m < n ==> Follow(obj, parts[..m]).Truthy()
    ensures Walk(obj, parts) == Follow(obj, parts[..n])
    decreases |parts|
  {
    var next, rest := Lookup(obj, parts[0]), parts[1..];
    FollowCons(obj, parts[0], []);
    assert parts[..1] == [parts[0]] + [];
    assert parts[..n] == [parts[0]] + rest[..n - 1];
    FollowCons(obj, parts[0], rest[..n - 1]);
    if n > 1 {
      assert next.Truthy();
      forall m | 1 <= m < n - 1 ensures Follow(next, rest[..m]).Truthy() {
        assert parts[..m + 1] == [parts[0]] + rest[..m];
        FollowCons(obj, parts[0], rest[..m]);
      }
      WalkStopsAtFirstAbsent(next, rest, n - 1);
    }
  }

  /** A piece without `[` or `]` is its own single part. */
  lemma PlainPiece(a: string)
    requires '[' !in a && ']' !in a
    ensures PieceParts(Strings.Split(a, '[')) == [a]
  {
  }

  /** `a[i]` is the parts `a` and `i`. */
  lemma BracketPiece(a: string, i: string)
    requires '[' !in a && '[' !in i && ']' !in a && ']' !in i
    ensures PieceParts(Strings.Split(a + "[" + i + "]", '[')) == [a, i]
  {
    var t := i + "]";
    assert a + "[" + i + "]" == a + ['['] + t;
    Strings.SplitPieceThenSep(a, '[', t);
    assert '[' !in t;
    assert Strings.Split(a + "[" + i + "]", '[') == [a, t];
    RemoveFirstBracketAfter(i, "");
    assert t == i + "]" + "" && i + "" == i;
    assert PieceParts([a, t]) == [RemoveFirstBracket(a), RemoveFirstBracket(t)];
  }

  /** The bracket form `a[i].b` is the parts `a`, `i`, `b`. */
  lemma BracketForm(a: string, i: string, b: string)
    requires '.' !in a && '.' !in i && '.' !in b
    requires '[' !in a && '[' !in i && '[' !in b && ']' !in a && ']' !in i && ']' !in b
    ensures Parts(a + "[" + i + "]." + b) == [a, i, b]
  {
    var bracketed := a + "[" + i + "]";
    assert a + "[" + i + "]." + b == bracketed + ['.'] + b;
    assert '.' !in bracketed;
    Strings.SplitPieceThenSep(bracketed, '.', b);
    assert Strings.Split(bracketed + ['.'] + b, '.') == [bracketed, b];
    BracketPiece(a, i);
    PlainPiece(b);
    FlattenTwo(bracketed, b);
  }

  /** The dotted form `a.i.b` is the same three parts. */
  lemma DotForm(a: string, i: string, b: string)
    requires '.' !in a && '.' !in i && '.' !in b
    requires '[' !in a && '[' !in i && '[' !in b && ']' !in a && ']' !in i && ']' !in b
    ensures Parts(a + "." + i + "." + b) == [a, i, b]
  {
    assert a + "." + i + "." + b == a + ['.'] + (i + ['.'] + b);
    Strings.SplitPieceThenSep(a, '.', i + ['.'] + b);
    Strings.SplitPieceThenSep(i, '.', b);
    assert Strings.Split(a + ['.'] + (i + ['.'] + b), '.') == [a, i, b];
    PlainPiece(a);
    PlainPiece(i);
    PlainPiece(b);
    FlattenThree(a, i, b);
    FlattenTwo(i, b);
  }

  lemma FlattenTwo(x: string, y: string)
    ensures Flatten([x, y]) == PieceParts(Strings.Split(x, '[')) + PieceParts(Strings.Split(y, '['))
  {
    var py := PieceParts(Strings.Split(y, '['));
    assert [x, y][1..] == [y] && [y][1..] == [];
    assert Flatten([y]) == py + Flatten([]);
    assert py + [] == py;
  }

  lemma FlattenThree(x: string, y: string, z: string)
    ensures Flatten([x, y, z]) == PieceParts(Strings.Split(x, '[')) + Flatten([y, z])
  {
    assert [x, y, z][1..] == [y, z];
  }

  /** Hence `headers[0].key` and `headers.0.key` look up the same error. */
  lemma BracketAndDotAgree(a: string, i: string, b: string)
    requires '.' !in a && '.' !in i && '.' !in b
    requires '[' !in a && '[' !in i && '[' !in b && ']' !in a && ']' !in i && ']' !in b
    ensures Parts(a + "[" + i + "]." + b) == Parts(a + "." + i + "." + b)
  {
    BracketForm(a, i, b);
    DotForm(a, i, b);
  }
}
