/** JavaScript values and the handful of standard-library operations the
    application relies on: property access, truthiness, string search,
    `split`/`join`, `trim`, `slice`, and the array methods `filter`,
    `findIndex` and `find`. */
module Js {

  datatype Option<T> = None | Some(value: T)

  /** The outcome of a call that may throw: its value, or the message of
      the error it raised. */
  datatype Result<T> = Ok(value: T) | Thrown(message: string)

  /** A JSON-like JavaScript value. Numbers are integers here. */
  datatype Value =
    | Undefined
    | Null
    | Bool(b: bool)
    | Num(n: int)
    | Str(s: string)
    | List(items: seq<Value>)
    | Obj(fields: map<string, Value>)

  /** A plain object: property name to value. Object spread `{...a, ...b}`
      is map union `a + b`, where the right operand wins. */
  type Record = map<string, Value>

  /** Property access; an absent property reads as `undefined`. */
  function Get(r: Record, k: string): Value
  {
    if k in r then r[k] else Undefined
  }

  /** A value with no `undefined` anywhere inside it. */
  predicate Defined(v: Value)
  {
    match v
    case Undefined => false
    case List(items) => forall i | 0 <= i < |items| :: Defined(items[i])
    case Obj(fields) => forall k | k in fields :: Defined(fields[k])
    case _ => true
  }

  /** JavaScript truthiness (objects and arrays are always truthy). */
  predicate Truthy(v: Value)
  {
    match v
    case Undefined => false
    case Null => false
    case Bool(b) => b
    case Num(n) => n != 0
    case Str(s) => s != ""
    case List(_) => true
    case Obj(_) => true
  }

  /** `String.prototype.startsWith`. */
  predicate StartsWith(s: string, prefix: string)
  {
    |prefix| <= |s| && s[..|prefix|] == prefix
  }

  lemma {:induction false} StartsWithConcat(prefix: string, rest: string)
    ensures StartsWith(prefix + rest, prefix)
  {
    assert (prefix + rest)[..|prefix|] == prefix;
  }

  /** Two prefixes that disagree at some position cannot both start a string. */
  lemma {:induction false} StartsWithDisjoint(s: string, p: string, q: string, i: nat)
    requires i < |p| && i < |q| && p[i] != q[i]
    ensures !(StartsWith(s, p) && StartsWith(s, q))
  {
    if StartsWith(s, p) {
      assert s[..|p|][i] == s[i];
    }
    if StartsWith(s, q) {
      assert s[..|q|][i] == s[i];
    }
  }

  /** `String.prototype.includes`. */
  predicate Contains(s: string, sub: string)
  {
    exists i | 0 <= i <= |s| - |sub| :: OccursAt(s, sub, i)
  }

  predicate OccursAt(s: string, sub: string, i: int)
  {
    0 <= i <= |s| - |sub| && s[i..i + |sub|] == sub
  }

  /** Decimal rendering of a natural number, as template literals print it. */
  function NatToString(n: nat): (r: string)
    ensures |r| >= 1
    ensures forall c :: c in r ==> '0' <= c <= '9'
    decreases n
  {
    var d := ['0' + (n % 10) as char];
    if n < 10 then d else NatToString(n / 10) + d
  }

  /** A number as a template literal prints it. */
  function IntToString(n: int): string
  {
    if n < 0 then "-" + NatToString(-n) else NatToString(n)
  }

  /** `${v}`: the text a template literal substitutes for a value. Arrays
      print their elements joined with ',', with null and undefined
      elements printed as nothing. */
  function Interpolate(v: Value): (r: string)
    ensures v.Str? ==> r == v.s
    decreases v, 1
  {
    match v
    case Undefined => "undefined"
    case Null => "null"
    case Bool(b) => if b then "true" else "false"
    case Num(n) => IntToString(n)
    case Str(s) => s
    case List(items) => InterpolateItems(items, v)
    case Obj(_) => "[object Object]"
  }

  function InterpolateItems(items: seq<Value>, ghost whole: Value): string
    requires whole.List? && items <= whole.items
    decreases whole, 0, |items|
  {
    if items == [] then ""
    else
      var e := items[|items| - 1];
      assert e in whole.items;
      var text := if e == Undefined || e == Null then "" else Interpolate(e);
      if |items| == 1 then text else InterpolateItems(items[..|items| - 1], whole) + "," + text
  }

  /** The characters matched by `\s` and removed by `trim()`: the
      ECMAScript WhiteSpace and LineTerminator code points. */
  predicate IsSpace(c: char)
  {
    c == ' ' || c == '\t' || c == '\n' || c == '\U{000B}' || c == '\U{000C}' || c == '\r'
    || c == '\U{00A0}' || c == '\U{1680}' || ('\U{2000}' <= c <= '\U{200A}')
    || c == '\U{2028}' || c == '\U{2029}' || c == '\U{202F}' || c == '\U{205F}'
    || c == '\U{3000}' || c == '\U{FEFF}'
  }

  function TrimStart(s: string): (r: string)
    ensures |r| <= |s| && r == s[|s| - |r|..]
    ensures r == [] || !IsSpace(r[0])
    ensures forall i :: 0 <= i < |s| - |r| ==> IsSpace(s[i])
  {
    if s != [] && IsSpace(s[0]) then TrimStart(s[1..]) else s
  }

  function TrimEnd(s: string): (r: string)
    ensures |r| <= |s| && r == s[..|r|]
    ensures r == [] || !IsSpace(r[|r| - 1])
    ensures forall i :: |r| <= i < |s| ==> IsSpace(s[i])
  {
    if s != [] && IsSpace(s[|s| - 1]) then TrimEnd(s[..|s| - 1]) else s
  }

  /** `String.prototype.trim`. */
  function Trim(s: string): string
  {
    TrimEnd(TrimStart(s))
  }

  /** `trim()` gives the empty string exactly when every character is white space. */
  lemma {:induction false} TrimEmpty(s: string)
    ensures Trim(s) == "" <==> forall i :: 0 <= i < |s| ==> IsSpace(s[i])
  {
    var a := TrimStart(s);
    if a != [] {
      assert a[0] == s[|s| - |a|];
    }
  }

  /** `s.split(sep)` for a one-character separator: always at least one
      piece, and no piece contains the separator. */
  function Split(s: string, sep: char): (r: seq<string>)
    ensures |r| >= 1
    ensures forall i :: 0 <= i < |r| ==> sep !in r[i]
    decreases |s|
  {
    if s == [] then [""]
    else
      var rest := Split(s[1..], sep);
      if s[0] == sep then [""] + rest else [[s[0]] + rest[0]] + rest[1..]
  }

  /** `parts.join(sep)`. */
  function Join(parts: seq<string>, sep: char): string
  {
    if |parts| == 0 then ""
    else if |parts| == 1 then parts[0]
    else parts[0] + [sep] + Join(parts[1..], sep)
  }

  lemma {:induction false} JoinSplit(s: string, sep: char)
    ensures Join(Split(s, sep), sep) == s
    decreases |s|
  {
    if s != [] {
      var rest := Split(s[1..], sep);
      JoinSplit(s[1..], sep);
      if s[0] == sep {
        assert Split(s, sep) == [""] + rest;
        assert Join([""] + rest, sep) == "" + [sep] + Join(rest, sep) by {
          assert ([""] + rest)[1..] == rest;
        }
        assert s == [s[0]] + s[1..];
      } else {
        var r := [[s[0]] + rest[0]] + rest[1..];
        assert Split(s, sep) == r;
        if |rest| == 1 {
          assert Join(r, sep) == [s[0]] + rest[0];
        } else {
          assert r[1..] == rest[1..];
          assert Join(rest, sep) == rest[0] + [sep] + Join(rest[1..], sep);
          assert Join(r, sep) == [s[0]] + rest[0] + [sep] + Join(rest[1..], sep);
        }
        assert s == [s[0]] + s[1..];
      }
    }
  }

  lemma {:induction false} SplitJoin(parts: seq<string>, sep: char)
    requires |parts| >= 1
    requires forall i :: 0 <= i < |parts| ==> sep !in parts[i]
    ensures Split(Join(parts, sep), sep) == parts
    decreases |parts|, |parts[0]|
  {
    var p := parts[0];
    if p == [] {
      if |parts| > 1 {
        var tail := parts[1..];
        assert Join(parts, sep) == [sep] + Join(tail, sep);
        SplitJoin(tail, sep);
        assert ([sep] + Join(tail, sep))[1..] == Join(tail, sep);
        assert parts == [""] + tail;
      }
    } else {
      var shorter := [p[1..]] + parts[1..];
      assert forall i :: 0 <= i < |shorter| ==> sep !in shorter[i] by {
        assert forall c :: c in p[1..] ==> c in p;
      }
      SplitJoin(shorter, sep);
      var j := Join(parts, sep);
      assert j == [p[0]] + Join(shorter, sep) by {
        if |parts| == 1 {
          assert p == [p[0]] + p[1..];
        } else {
          assert shorter[1..] == parts[1..];
          assert p == [p[0]] + p[1..];
        }
      }
      assert j[0] == p[0] && j[1..] == Join(shorter, sep);
      assert p[0] != sep by { assert p[0] in p; }
      var rest := Split(j[1..], sep);
      assert rest == shorter;
      assert [[p[0]] + rest[0]] + rest[1..] == parts by {
        assert [p[0]] + p[1..] == p;
      }
    }
  }

  /** `a.slice(0, end)` with JavaScript's treatment of a negative or
      oversized end. */
  function SliceTo<T>(s: seq<T>, end: int): (r: seq<T>)
    ensures end >= 0 ==> |r| == if end < |s| then end else |s|
    ensures |r| <= |s| && r == s[..|r|]
  {
    if end >= 0 then (if end < |s| then s[..end] else s)
    else if |s| + end >= 0 then s[..|s| + end]
    else []
  }

  /** `Array.prototype.filter`. */
  function Filter<T(==)>(s: seq<T>, p: T -> bool): (r: seq<T>)
    ensures |r| <= |s|
    ensures forall i :: 0 <= i < |r| ==> r[i] in s && p(r[i])
    ensures forall i :: 0 <= i < |s| && p(s[i]) ==> s[i] in r
  {
    if s == [] then []
    else if p(s[0]) then [s[0]] + Filter(s[1..], p)
    else Filter(s[1..], p)
  }

  /** A filter nothing passes is empty. */
  lemma {:induction false} FilterNone<T>(s: seq<T>, p: T -> bool)
    requires forall i :: 0 <= i < |s| ==> !p(s[i])
    ensures Filter(s, p) == []
  {
    if s != [] {
      assert !p(s[0]);
      FilterNone(s[1..], p);
    }
  }

  /** `a` occurs in `b` in order, possibly with gaps. */
  predicate IsSubsequence<T(==)>(a: seq<T>, b: seq<T>)
    decreases |b|
  {
    if a == [] then true
    else if b == [] then false
    else (a[0] == b[0] && IsSubsequence(a[1..], b[1..])) || IsSubsequence(a, b[1..])
  }

  lemma {:induction false} FilterIsSubsequence<T>(s: seq<T>, p: T -> bool)
    ensures IsSubsequence(Filter(s, p), s)
  {
    if s != [] {
      FilterIsSubsequence(s[1..], p);
      if p(s[0]) {
        assert ([s[0]] + Filter(s[1..], p))[1..] == Filter(s[1..], p);
      }
    }
  }

  /** Keeping every element when the test holds of all of them. */
  lemma {:induction false} FilterAll<T>(s: seq<T>, p: T -> bool)
    requires forall i :: 0 <= i < |s| ==> p(s[i])
    ensures Filter(s, p) == s
  {
    if s != [] {
      FilterAll(s[1..], p);
      assert [s[0]] + s[1..] == s;
    }
  }

  /** Filtering an array with one more element at the end. */
  lemma {:induction false} FilterSnoc<T>(s: seq<T>, x: T, p: T -> bool)
    ensures Filter(s + [x], p) == Filter(s, p) + (if p(x) then [x] else [])
  {
    if s == [] {
      assert Filter([x], p) == (if p(x) then [x] else []) + Filter([x][1..], p);
    } else {
      var t := s + [x];
      assert t[0] == s[0] && t[1..] == s[1..] + [x];
      FilterSnoc(s[1..], x, p);
    }
  }

  /** A filter and its complement split the array. */
  lemma {:induction false} FilterComplement<T>(s: seq<T>, p: T -> bool, q: T -> bool)
    requires forall x :: q(x) == !p(x)
    ensures |Filter(s, p)| + |Filter(s, q)| == |s|
  {
    if s != [] {
      FilterComplement(s[1..], p, q);
    }
  }

  /** Filtering shortens the array exactly when some element fails the test. */
  lemma {:induction false} FilterShorter<T>(s: seq<T>, p: T -> bool)
    ensures |Filter(s, p)| < |s| <==> exists i :: 0 <= i < |s| && !p(s[i])
  {
    if s != [] {
      FilterShorter(s[1..], p);
      if !p(s[0]) {
        assert |Filter(s, p)| <= |s[1..]|;
      } else {
        assert |Filter(s, p)| < |s| <==> |Filter(s[1..], p)| < |s[1..]|;
        if exists i :: 0 <= i < |s| && !p(s[i]) {
          var i :| 0 <= i < |s| && !p(s[i]);
          assert s[1..][i - 1] == s[i];
        }
        if exists i :: 0 <= i < |s[1..]| && !p(s[1..][i]) {
          var i :| 0 <= i < |s[1..]| && !p(s[1..][i]);
          assert s[i + 1] == s[1..][i];
        }
      }
    }
  }

  /** `Array.prototype.findIndex`: the first index passing the test, or -1. */
  function FindIndex<T>(s: seq<T>, p: T -> bool): (i: int)
    ensures -1 <= i < |s|
    ensures 0 <= i ==> p(s[i]) && forall j :: 0 <= j < i ==> !p(s[j])
    ensures i == -1 ==> forall j :: 0 <= j < |s| ==> !p(s[j])
  {
    if s == [] then -1
    else if p(s[0]) then 0
    else
      var k := FindIndex(s[1..], p);
      if k < 0 then -1 else k + 1
  }

  /** `Array.prototype.find` followed by `|| null`: the first element
      passing the test (an object, hence truthy), if any. */
  function Find<T(==)>(s: seq<T>, p: T -> bool): (r: Option<T>)
    ensures r.None? <==> forall j :: 0 <= j < |s| ==> !p(s[j])
    ensures r.Some? ==> r.value in s && p(r.value)
    ensures forall i | 0 <= i < |s| && p(s[i]) && (forall j | 0 <= j < i :: !p(s[j])) :: r == Some(s[i])
  {
    var i := FindIndex(s, p);
    if i < 0 then None else Some(s[i])
  }
}
