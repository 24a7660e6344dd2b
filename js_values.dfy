/**
  The JavaScript values the library works on, as a tree without sharing:
  plain objects are maps from property names to values, arrays are sequences.
  Numbers are integers only. Inherited (prototype) properties are not part of
  the model: reading a property that an object does not own gives `undefined`.
 */
module JsValues {
  import opened Strings

  datatype JsVal =
    | Undefined
    | Null
    | Bool(b: bool)
    | Num(n: int)
    | Str(s: string)
    | Arr(items: seq<JsVal>)
    | Obj(fields: map<string, JsVal>)

  datatype Option<T> = None | Some(value: T)

  /** How a call ends: with a value, or by throwing a `TypeError` (the library
      runs in strict mode, so writing to a primitive or reading a property
      of `null` or `undefined` throws). */
  datatype Result<T> = Ok(value: T) | TypeError

  /** JavaScript's ToBoolean: `undefined`, `null`, `false`, `0` and `""` are falsy. */
  predicate Truthy(v: JsVal) {
    match v
    case Undefined => false
    case Null => false
    case Bool(b) => b
    case Num(n) => n != 0
    case Str(s) => s != ""
    case Arr(_) => true
    case Obj(_) => true
  }

  predicate Nullish(v: JsVal) {
    v.Undefined? || v.Null?
  }

  /** `typeof v === 'object'`, which holds for `null` too. */
  predicate IsObjectType(v: JsVal) {
    v.Null? || v.Arr? || v.Obj?
  }

  /** The value `x || y`. */
  function Or(x: JsVal, y: JsVal): (r: JsVal)
    ensures Truthy(r) <==> Truthy(x) || Truthy(y)
    ensures Truthy(x) ==> r == x
  {
    if Truthy(x) then x else y
  }

  // ---- Decimal strings and array indices ----

  predicate IsDigit(c: char) {
    '0' <= c <= '9'
  }

  function DigitChar(d: nat): (c: char)
    requires d < 10
    ensures IsDigit(c) && c as int - '0' as int == d
  {
    ('0' as int + d) as char
  }

  /** The decimal representation of `n`, as `Number.prototype.toString` writes it. */
  function NatToString(n: nat): (s: string)
    ensures |s| >= 1 && forall i :: 0 <= i < |s| ==> IsDigit(s[i])
    ensures |s| > 1 ==> s[0] != '0'
    ensures n == DigitsValue(s)
  {
    if n < 10 then [DigitChar(n)]
    else
      var s := NatToString(n / 10) + [DigitChar(n % 10)];
      assert s[..|s| - 1] == NatToString(n / 10);
      s
  }

  /** The number a non-empty run of digits denotes. */
  function DigitsValue(s: string): nat
    requires forall i :: 0 <= i < |s| ==> IsDigit(s[i])
  {
    if s == [] then 0
    else
      assert IsDigit(s[|s| - 1]);
      DigitsValue(s[..|s| - 1]) * 10 + (s[|s| - 1] as int - '0' as int)
  }

  /** The array index `k` names, if it is a canonical decimal numeral
      (no sign, no leading zero other than "0" itself). */
  function ArrayIndex(k: string): (r: Option<nat>)
    ensures r.Some? ==> NatToString(r.value) == k
  {
    if |k| >= 1 && (forall i :: 0 <= i < |k| ==> IsDigit(k[i])) && (|k| == 1 || k[0] != '0')
    then
      CanonicalDigits(k);
      Some(DigitsValue(k))
    else None
  }

  lemma {:induction false} CanonicalDigits(k: string)
    requires |k| >= 1 && forall i :: 0 <= i < |k| ==> IsDigit(k[i])
    requires |k| == 1 || k[0] != '0'
    ensures NatToString(DigitsValue(k)) == k
  {
    var n := DigitsValue(k);
    if |k| == 1 {
      assert k[..0] == [];
    } else {
      var p := k[..|k| - 1];
      assert p[0] == k[0];
      CanonicalDigits(p);
      var d := k[|k| - 1] as int - '0' as int;
      assert n == DigitsValue(p) * 10 + d;
      NonZeroLeadIsLarge(p);
      assert n / 10 == DigitsValue(p) && n % 10 == d;
      assert k == p + [k[|k| - 1]];
    }
  }

  lemma {:induction false} NonZeroLeadIsLarge(p: string)
    requires |p| >= 1 && forall i :: 0 <= i < |p| ==> IsDigit(p[i])
    requires p[0] != '0'
    ensures DigitsValue(p) >= 1
  {
    if |p| > 1 {
      NonZeroLeadIsLarge(p[..|p| - 1]);
    }
  }

  /** Every natural number's decimal string is the canonical index of that number. */
  lemma IndexOfNatToString(n: nat)
    ensures ArrayIndex(NatToString(n)) == Some(n)
  {
  }

  /** `k` reads element `i` of a sequence of length `len`. */
  predicate InRangeIndex(k: string, len: nat) {
    ArrayIndex(k).Some? && ArrayIndex(k).value < len
  }

  // ---- Property access ----

  /** `v[k]` on a value that is not `null` or `undefined` (on those the model
      answers `undefined`; the operations that would throw check for them
      first). */
  function Prop(v: JsVal, k: string): JsVal {
    match v
    case Obj(m) => if k in m then m[k] else Undefined
    case Arr(xs) =>
      if InRangeIndex(k, |xs|) then xs[ArrayIndex(k).value]
      else if k == "length" then Num(|xs|)
      else Undefined
    case Str(s) =>
      if InRangeIndex(k, |s|) then Str([s[ArrayIndex(k).value]])
      else if k == "length" then Num(|s|)
      else Undefined
    case _ => Undefined
  }

  /** The value reached from `v` by reading the properties of `path` in turn. */
  function At(v: JsVal, path: seq<string>): JsVal
    decreases |path|
  {
    if path == [] then v else At(Prop(v, path[0]), path[1..])
  }

  /** Reading a path is reading its first part, then the rest. */
  lemma {:induction false} AtAppend(v: JsVal, p: seq<string>, q: seq<string>)
    ensures At(v, p + q) == At(At(v, p), q)
    decreases |p|
  {
    if p != [] {
      assert (p + q)[1..] == p[1..] + q;
      AtAppend(Prop(v, p[0]), p[1..], q);
    } else {
      assert p + q == q;
    }
  }

  /** Below a missing value every path reads `undefined`. */
  lemma {:induction false} AtNullish(v: JsVal, path: seq<string>)
    requires Nullish(v)
    ensures path != [] ==> At(v, path) == Undefined
    decreases |path|
  {
    if |path| > 1 {
      AtNullish(Prop(v, path[0]), path[1..]);
    }
  }

  // ---- Own enumerable properties ----

  /** The property names of the indices below `n`. */
  function IndexKeys(n: nat): set<string> {
    set i: nat | i < n :: NatToString(i)
  }

  /** The index names below `n` are exactly the keys that read an element of
      a sequence of length `n`. */
  lemma IndexKeysInRange(k: string, n: nat)
    ensures k in IndexKeys(n) <==> InRangeIndex(k, n)
  {
    if k in IndexKeys(n) {
      var i: nat :| i < n && k == NatToString(i);
      IndexOfNatToString(i);
    }
  }

  /** The own enumerable property names of `v`, which `Object.keys`,
      `Object.assign` and `for`-`in` visit: an object's fields, the indices of
      an array or string (not `length`), nothing on other values. */
  function OwnKeys(v: JsVal): set<string> {
    match v
    case Obj(m) => m.Keys
    case Arr(xs) => IndexKeys(|xs|)
    case Str(s) => IndexKeys(|s|)
    case _ => {}
  }

  /** Only own properties and the `length` of an array or string are seen:
      any other name reads `undefined`. An index of a string reads a
      one-character string. */
  lemma PropOwn(v: JsVal, k: string)
    ensures !Prop(v, k).Undefined? ==> k in OwnKeys(v) || (k == "length" && (v.Arr? || v.Str?))
    ensures v.Str? && k in OwnKeys(v) ==> Prop(v, k).Str? && |Prop(v, k).s| == 1
  {
    if v.Arr? {
      IndexKeysInRange(k, |v.items|);
    } else if v.Str? {
      IndexKeysInRange(k, |v.s|);
    }
  }

  /** The own enumerable properties of `v` with their values. */
  function OwnEntries(v: JsVal): (m: map<string, JsVal>)
    ensures m.Keys == OwnKeys(v)
    ensures v.Obj? ==> m == v.fields
  {
    map k | k in OwnKeys(v) :: Prop(v, k)
  }

  // ---- ToString ----

  function IntToString(n: int): string {
    if n < 0 then "-" + NatToString(-n) else NatToString(n)
  }

  /** JavaScript's ToString: what `String(v)`, `v.toString()` and `'' + v` give. */
  function ToStr(v: JsVal): (r: string)
    ensures v.Num? && v.n >= 0 ==> ArrayIndex(r) == Some(v.n)
    ensures v.Num? && v.n < 0 ==> r != [] && r[0] == '-' && ArrayIndex(r) == None
  {
    match v
    case Undefined => "undefined"
    case Null => "null"
    case Bool(b) => if b then "true" else "false"
    case Num(n) =>
      if n >= 0 then
        IndexOfNatToString(n);
        IntToString(n)
      else IntToString(n)
    case Str(s) => s
    case Arr(xs) =>
      // `Array.prototype.join` writes `null` and `undefined` elements as ""
      Join(seq(|xs|, i requires 0 <= i < |xs| => if Nullish(xs[i]) then "" else ToStr(xs[i])), ",")
    case Obj(_) => "[object Object]"
  }
}
