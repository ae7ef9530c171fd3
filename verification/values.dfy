/** `Option`, standing for JavaScript's `undefined`/`null` results. */
module Wrappers {

  /** `None` stands for JavaScript's `undefined`/`null` results. */
  datatype Option<+T> = None | Some(value: T)
}

/**
 The untyped tree that js-yaml hands the extractor when it parses with
 `json: true`, and the handful of JavaScript operations the extractor applies
 to it: truthiness, `typeof v === 'object'`, `Object.keys`, property access,
 the `in` test behind `hasKey`, and `String(v)` coercion.

 Objects are association lists in `Object.keys` order. js-yaml never yields
 two entries with the same key, so property access finds the first (only)
 entry with that key.
 */
module JsValues {
  import opened Wrappers

  datatype Value =
    | Str(text: string)
    | Num(num: int)
    | Bool(flag: bool)
    | Null
    | Obj(props: seq<(string, Value)>)
    | Arr(elems: seq<Value>)

  /** JavaScript truthiness, as used by `v && …` and `if (v)`. */
  predicate Truthy(v: Value) {
    match v
    case Str(t) => t != ""
    case Num(n) => n != 0
    case Bool(b) => b
    case Null => false
    case Obj(_) => true
    case Arr(_) => true
  }

  /** `typeof v === 'object'`: objects, arrays, and null. */
  predicate IsObjectType(v: Value) {
    v.Obj? || v.Arr? || v.Null?
  }

  function DigitChar(d: nat): char
    requires d < 10
  {
    "0123456789"[d]
  }

  predicate IsDigit(c: char) {
    '0' <= c <= '9'
  }

  /** The decimal numeral JavaScript prints for a non-negative integer. */
  function NatToDecimal(n: nat): string
  {
    if n < 10 then [DigitChar(n)] else NatToDecimal(n / 10) + [DigitChar(n % 10)]
  }

  /** Every character of a decimal numeral is a digit, and there is at least one. */
  lemma {:induction false} NatToDecimalDigits(n: nat)
    ensures |NatToDecimal(n)| > 0
    ensures forall i :: 0 <= i < |NatToDecimal(n)| ==> IsDigit(NatToDecimal(n)[i])
  {
    if n >= 10 {
      NatToDecimalDigits(n / 10);
    }
  }

  function IntToDecimal(n: int): string {
    if n < 0 then "-" + NatToDecimal(-n) else NatToDecimal(n)
  }

  /** The key `Object.keys` reports for position `i` of an array or string. */
  function IndexKey(i: nat): string {
    NatToDecimal(i)
  }

  /**
   `Object.keys(v)` paired with `v[key]`. Arrays and strings report their
   indices; numbers and booleans have no own keys; `Object.keys(null)`
   throws, hence the precondition.
   */
  function Entries(v: Value): (es: seq<(string, Value)>)
    requires v != Null
    ensures v.Arr? ==> |es| == |v.elems|
  {
    match v
    case Obj(ps) => ps
    case Arr(xs) => seq(|xs|, i requires 0 <= i < |xs| => (IndexKey(i), xs[i]))
    case Str(t) => seq(|t|, i requires 0 <= i < |t| => (IndexKey(i), Str([t[i]])))
    case Num(_) => []
    case Bool(_) => []
  }

  /** The value stored under `key` in an association list, if any. */
  function Lookup(ps: seq<(string, Value)>, key: string): Option<Value>
  {
    if |ps| == 0 then None
    else if ps[0].0 == key then Some(ps[0].1)
    else Lookup(ps[1..], key)
  }

  /** `key in ps`: there is an entry for the key. */
  ghost predicate HasEntry(ps: seq<(string, Value)>, key: string) {
    exists i :: 0 <= i < |ps| && ps[i].0 == key
  }

  /** Lookup finds a value exactly when some entry carries the key, and the value
      it finds is stored under that key. */
  lemma {:induction false} LookupFindsEntry(ps: seq<(string, Value)>, key: string)
    ensures Lookup(ps, key).Some? <==> HasEntry(ps, key)
    ensures Lookup(ps, key).Some? ==> (key, Lookup(ps, key).value) in ps
  {
    if |ps| > 0 && ps[0].0 != key {
      LookupFindsEntry(ps[1..], key);
      if HasEntry(ps, key) {
        var i :| 0 <= i < |ps| && ps[i].0 == key;
        assert ps[1..][i - 1].0 == key;
      }
      if HasEntry(ps[1..], key) {
        var i :| 0 <= i < |ps[1..]| && ps[1..][i].0 == key;
        assert ps[i + 1].0 == key;
      }
    }
  }

  /** Lookup of one key ignores entries for other keys, wherever they sit. */
  lemma {:induction false} LookupSkipsOtherKey(ps: seq<(string, Value)>, qs: seq<(string, Value)>,
                                               other: string, v: Value, key: string)
    requires other != key
    ensures Lookup(ps + [(other, v)] + qs, key) == Lookup(ps + qs, key)
  {
    if |ps| == 0 {
      assert ps + [(other, v)] + qs == [(other, v)] + qs;
      assert ([(other, v)] + qs)[1..] == qs;
      assert ps + qs == qs;
    } else {
      assert (ps + [(other, v)] + qs)[1..] == ps[1..] + [(other, v)] + qs;
      assert (ps + qs)[1..] == ps[1..] + qs;
      LookupSkipsOtherKey(ps[1..], qs, other, v, key);
    }
  }

  /** Property access `v[key]`: only objects carry the named properties this
      extractor reads (`values`, `releases`, `helmfiles`, `registry`,
      `repository`, `tag`); on any other value the access yields `undefined`
      or, for `values` on an array, a function, which is not an array either. */
  function Get(v: Value, key: string): Option<Value> {
    if v.Obj? then Lookup(v.props, key) else None
  }

  /** `hasKey(key, v)`: `typeof v === 'object' && key in v`. Only presence is
      tested; the stored value may be anything, null included. */
  predicate HasKey(key: string, v: Value) {
    Get(v, key).Some?
  }

  /** `String(v)` for array elements: null becomes the empty string. */
  function ElemToStr(v: Value): string
    decreases v, 2
  {
    if v.Null? then "" else ToStr(v)
  }

  /** `String(v)` (and `${v}`): JavaScript's string coercion on this value type. */
  function ToStr(v: Value): string
    decreases v, 1
  {
    match v
    case Str(t) => t
    case Num(n) => IntToDecimal(n)
    case Bool(b) => if b then "true" else "false"
    case Null => "null"
    case Obj(_) => "[object Object]"  // a map without an own `toString` key
    case Arr(xs) => JoinElems(xs, v)
  }

  /** `Array.prototype.join(',')` over the coerced elements of `xs`, which are
      elements of the array `whole`. */
  function JoinElems(xs: seq<Value>, ghost whole: Value): string
    requires whole.Arr? && forall x <- xs :: x in whole.elems
    decreases whole, 0, |xs|
  {
    if |xs| == 0 then ""
    else
      var last := xs[|xs| - 1];
      assert last in whole.elems;
      if |xs| == 1 then ElemToStr(last)
      else JoinElems(xs[..|xs| - 1], whole) + "," + ElemToStr(last)
  }
}
