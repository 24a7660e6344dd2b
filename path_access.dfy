/**
  Dotted-path access: `g.get` (index.js:174-218) and the object branch of
  `g.set` (index.js:134-153).
 */
module PathAccess {
  import opened Strings
  import opened JsValues
  import opened Cookies

  // ---- get ----

  /** Every step of `segs` from `v` lands on a truthy value. */
  predicate PathDefined(v: JsVal, segs: seq<string>) {
    forall j :: 1 <= j <= |segs| ==> Truthy(At(v, segs[..j]))
  }

  /** What the object branch of `get` answers, said without its loop: the value
      at the path when every step is truthy, otherwise `defaultValue || false`. */
  function GetInObject(source: JsVal, segs: seq<string>, defaultValue: JsVal): (r: JsVal)
    ensures r == At(source, segs) || r == Or(defaultValue, Bool(false))
    ensures PathDefined(source, segs) ==> r == At(source, segs)
    ensures segs != [] && !Truthy(r) ==> r == Or(defaultValue, Bool(false))
  {
    if PathDefined(source, segs) then
      assert segs != [] ==> segs[..|segs|] == segs;
      At(source, segs)
    else Or(defaultValue, Bool(false))
  }

  /** The object branch of `get`: walk the segments of `key`, stopping at the
      first missing or falsy one. Reading a property of `null` throws. */
  method GetFromObject(source: JsVal, key: string, defaultValue: JsVal) returns (r: Result<JsVal>)
    requires IsObjectType(source)
    ensures source.Null? ==> r == TypeError
    ensures !source.Null? ==> r == Ok(GetInObject(source, Split(key, '.'), defaultValue))
  {
    var split := Split(key, '.');
    var tmp := source;
    var i := 0;
    while i < |split|
      invariant 0 <= i <= |split|
      invariant tmp == At(source, split[..i])
      invariant forall j :: 1 <= j <= i ==> Truthy(At(source, split[..j]))
      invariant i > 0 ==> !tmp.Null?
      invariant source.Null? ==> tmp.Null?
    {
      var current := split[i];
      if tmp.Null? {
        return TypeError;
      }
      var next := Prop(tmp, current);
      AtAppend(source, split[..i], [current]);
      assert split[..i] + [current] == split[..i + 1];
      if !Truthy(next) {
        return Ok(Or(defaultValue, Bool(false)));
      }
      tmp := next;
      i := i + 1;
    }
    assert split[..i] == split;
    return Ok(tmp);
  }

  /** The browser state that `get` reads besides its arguments. */
  datatype Browser = Browser(cookie: string, localStorage: map<string, string>)

  /** `localStorage.getItem(key)`: the stored string, or `null`. */
  function GetItem(env: Browser, key: string): JsVal {
    if key in env.localStorage then Str(env.localStorage[key]) else Null
  }

  /** `g.get(key, where, defaultValue)`: an object-typed `where` is walked by
      the dotted path, the strings "localStorage" and "cookie" select browser
      storage, and anything else yields `undefined`. */
  function GetValue(key: string, where: JsVal, defaultValue: JsVal, env: Browser): (r: Result<JsVal>)
    ensures r.TypeError? <==> where.Null?
    ensures where == Str("localStorage") && key !in env.localStorage ==> r == Ok(defaultValue)
    ensures where == Str("cookie") && CookieValue(env.cookie, key).None? ==> r == Ok(defaultValue)
    ensures !IsObjectType(where) && where != Str("localStorage") && where != Str("cookie") ==> r == Ok(Undefined)
  {
    if where.Null? then TypeError
    else if IsObjectType(where) then Ok(GetInObject(where, Split(key, '.'), defaultValue))
    else if where == Str("localStorage") then Ok(Or(GetItem(env, key), defaultValue))
    else if where == Str("cookie") then
      Ok(if CookieValue(env.cookie, key).Some? then Str(CookieValue(env.cookie, key).value) else defaultValue)
    else Ok(Undefined)
  }

  /** A key without `.` reads one field of an object. */
  lemma GetOneSegment(key: string, m: map<string, JsVal>, defaultValue: JsVal, env: Browser)
    requires '.' !in key
    ensures GetValue(key, Obj(m), defaultValue, env)
            == Ok(if key in m && Truthy(m[key]) then m[key] else Or(defaultValue, Bool(false)))
  {
    SplitFree(key, '.');
    var segs := [key];
    assert segs[..1] == segs;
    assert segs[1..] == [];
    assert At(Obj(m), segs) == Prop(Obj(m), key);
    assert PathDefined(Obj(m), segs) <==> Truthy(At(Obj(m), segs));
    assert GetValue(key, Obj(m), defaultValue, env) == Ok(GetInObject(Obj(m), segs, defaultValue));
  }

  /** `g.get` with its three stores. */
  method Get(key: string, where: JsVal, defaultValue: JsVal, env: Browser) returns (r: Result<JsVal>)
    ensures r == GetValue(key, where, defaultValue, env)
  {
    if IsObjectType(where) {
      r := GetFromObject(where, key, defaultValue);
    } else if where == Str("localStorage") {
      r := Ok(Or(GetItem(env, key), defaultValue));
    } else if where == Str("cookie") {
      var v := ReadCookie(env.cookie, key, defaultValue);
      r := Ok(v);
    } else {
      r := Ok(Undefined);
    }
  }

  /** A missing or falsy step anywhere on the path gives the fallback, never
      a part of the object. */
  lemma {:induction false} GetFalsyStep(source: JsVal, segs: seq<string>, defaultValue: JsVal, j: nat)
    requires 1 <= j <= |segs| && !Truthy(At(source, segs[..j]))
    ensures GetInObject(source, segs, defaultValue) == Or(defaultValue, Bool(false))
    ensures Truthy(GetInObject(source, segs, defaultValue)) <==> Truthy(defaultValue)
  {
  }

  // ---- set ----

  /** A value a property can be written into without leaving the model. */
  predicate Writable(c: JsVal, k: string) {
    c.Obj? || (c.Arr? && InRangeIndex(k, |c.items|))
  }

  /** `c[k] = v` on an object, or on an array at an existing index. */
  function Put(c: JsVal, k: string, v: JsVal): (r: JsVal)
    requires Writable(c, k)
    ensures Prop(r, k) == v
    ensures forall k' :: k' != k ==> Prop(r, k') == Prop(c, k')
    ensures r.Obj? == c.Obj? && r.Arr? == c.Arr?
  {
    if c.Obj? then Obj(c.fields[k := v])
    else
      var i := ArrayIndex(k).value;
      assert forall k' :: k' != k && InRangeIndex(k', |c.items|) ==> ArrayIndex(k').value != i;
      Arr(c.items[i := v])
  }

  /** The walk of `set` writes into arrays only at existing indices. A write at
      or past the end, and a write of a named property (`length` included),
      are outside the model. */
  predicate ArrayWritesInRange(c: JsVal, segs: seq<string>)
    decreases |segs|
  {
    if |segs| == 0 then true
    else if c.Arr? && !InRangeIndex(segs[0], |c.items|) && !(|segs| > 1 && segs[0] == "length") then false
    else |segs| == 1 || ArrayWritesInRange(Prop(c, segs[0]), segs[1..])
  }

  predicate IsContainer(v: JsVal) {
    v.Obj? || v.Arr?
  }

  /** The object branch of `set` on the path `segs`, from the container `c`.
      It answers the new value of `c` and the innermost container after the
      write (the object `set` returns). Every `undefined` or `null` on the way
      becomes `{}`; a primitive on the way throws, because the library runs
      in strict mode, and so does a `null` root. */
  function SetPath(c: JsVal, segs: seq<string>, value: JsVal): (r: Result<(JsVal, JsVal)>)
    requires |segs| >= 1
    requires ArrayWritesInRange(c, segs)
    ensures r.Ok? ==> IsContainer(c)
    decreases |segs|
  {
    if !IsContainer(c) then TypeError
    else if |segs| == 1 then
      var c' := Put(c, segs[0], value);
      Ok((c', c'))
    else
      var child := Prop(c, segs[0]);
      var next := if Nullish(child) then Obj(map[]) else child;
      EmptyWritesInRange(segs[1..]);
      match SetPath(next, segs[1..], value)
      case TypeError => TypeError
      case Ok((next', inner)) => Ok((Put(c, segs[0], next'), inner))
  }

  /** `g.set(key, value, where)` with an object-typed `where`. */
  function Set(key: string, value: JsVal, where: JsVal): (r: Result<(JsVal, JsVal)>)
    requires IsObjectType(where)
    requires ArrayWritesInRange(where, Split(key, '.'))
    ensures var segs := Split(key, '.'); var k := FirstBlocked(where, segs);
      r.TypeError? <==> k < |segs| && (k == 0 || !Nullish(At(where, segs[..k])))
    ensures r.Ok? ==> At(r.value.0, Split(key, '.')) == value
    ensures r.Ok? ==> r.value.1 == At(r.value.0, Split(key, '.')[..|Split(key, '.')| - 1])
  {
    var segs := Split(key, '.');
    SetThrows(where, segs, value);
    if SetPath(where, segs, value).Ok? then
      SetReadsBack(where, segs, value);
      SetInner(where, segs, value);
      SetPath(where, segs, value)
    else TypeError
  }

  /** After `set`, the path reads back the value written, and every container
      on the way is an object or array, so `get` returns the value when it
      is truthy. */
  lemma SetThenAt(c: JsVal, segs: seq<string>, value: JsVal)
    requires |segs| >= 1 && ArrayWritesInRange(c, segs)
    requires SetPath(c, segs, value).Ok?
    ensures var (c', inner) := SetPath(c, segs, value).value;
      && At(c', segs) == value
      && (forall j :: 0 <= j < |segs| ==> IsContainer(At(c', segs[..j])))
      && inner == At(c', segs[..|segs| - 1])
  {
    SetReadsBack(c, segs, value);
    SetKeepsContainers(c, segs, value);
    SetInner(c, segs, value);
  }

  lemma {:induction false} SetReadsBack(c: JsVal, segs: seq<string>, value: JsVal)
    requires |segs| >= 1 && ArrayWritesInRange(c, segs)
    requires SetPath(c, segs, value).Ok?
    ensures At(SetPath(c, segs, value).value.0, segs) == value
    decreases |segs|
  {
    if |segs| > 1 {
      var child := Prop(c, segs[0]);
      var next := if Nullish(child) then Obj(map[]) else child;
      SetPathStep(c, segs, value);
      SetReadsBack(next, segs[1..], value);
    }
  }

  lemma {:induction false} SetKeepsContainers(c: JsVal, segs: seq<string>, value: JsVal)
    requires |segs| >= 1 && ArrayWritesInRange(c, segs)
    requires SetPath(c, segs, value).Ok?
    ensures forall j :: 0 <= j < |segs| ==> IsContainer(At(SetPath(c, segs, value).value.0, segs[..j]))
    decreases |segs|
  {
    var c' := SetPath(c, segs, value).value.0;
    if |segs| == 1 {
      assert segs[..0] == [];
    } else {
      var child := Prop(c, segs[0]);
      var next := if Nullish(child) then Obj(map[]) else child;
      SetPathStep(c, segs, value);
      SetKeepsContainers(next, segs[1..], value);
      forall j | 0 <= j < |segs| ensures IsContainer(At(c', segs[..j])) {
        if j > 0 {
          AtPrefix(c', segs, j);
        }
      }
    }
  }

  lemma {:induction false} SetInner(c: JsVal, segs: seq<string>, value: JsVal)
    requires |segs| >= 1 && ArrayWritesInRange(c, segs)
    requires SetPath(c, segs, value).Ok?
    ensures SetPath(c, segs, value).value.1 == At(SetPath(c, segs, value).value.0, segs[..|segs| - 1])
    decreases |segs|
  {
    var c' := SetPath(c, segs, value).value.0;
    if |segs| == 1 {
      assert segs[..0] == [];
    } else {
      var child := Prop(c, segs[0]);
      var next := if Nullish(child) then Obj(map[]) else child;
      SetPathStep(c, segs, value);
      SetInner(next, segs[1..], value);
      AtPrefix(c', segs, |segs| - 1);
    }
  }

  /** One level of `SetPath`: the write below the first segment succeeds, the
      first segment now holds its result, and the innermost container is
      the one it returns. */
  lemma SetPathStep(c: JsVal, segs: seq<string>, value: JsVal)
    requires |segs| >= 2 && ArrayWritesInRange(c, segs)
    requires SetPath(c, segs, value).Ok?
    ensures var child := Prop(c, segs[0]);
      var next := if Nullish(child) then Obj(map[]) else child;
      && ArrayWritesInRange(next, segs[1..])
      && SetPath(next, segs[1..], value).Ok?
      && Prop(SetPath(c, segs, value).value.0, segs[0]) == SetPath(next, segs[1..], value).value.0
      && SetPath(c, segs, value).value.1 == SetPath(next, segs[1..], value).value.1
  {
    EmptyWritesInRange(segs[1..]);
  }

  /** Reading the first `j` segments is reading the first, then the next `j - 1`. */
  lemma AtPrefix(c: JsVal, segs: seq<string>, j: nat)
    requires 1 <= j <= |segs|
    ensures At(c, segs[..j]) == At(Prop(c, segs[0]), segs[1..][..j - 1])
  {
    assert segs[..j][1..] == segs[1..][..j - 1];
  }

  /** `get` after `set` on the same key returns the value written, when it is truthy. */
  lemma SetThenGet(key: string, value: JsVal, where: JsVal, defaultValue: JsVal)
    requires IsObjectType(where) && ArrayWritesInRange(where, Split(key, '.'))
    requires Set(key, value, where).Ok? && Truthy(value)
    ensures GetInObject(Set(key, value, where).value.0, Split(key, '.'), defaultValue) == value
  {
    var segs := Split(key, '.');
    SetThenAt(where, segs, value);
    var c' := Set(key, value, where).value.0;
    forall j | 1 <= j <= |segs| ensures Truthy(At(c', segs[..j])) {
      if j == |segs| {
        assert segs[..j] == segs;
      }
    }
    assert segs[..|segs|] == segs;
  }

  /** `set` changes nothing off its path: a path that leaves the written path
      at some level, by a different key, reads the same before and after. */
  lemma {:induction false} SetFrame(c: JsVal, segs: seq<string>, value: JsVal, j: nat, k: string, rest: seq<string>)
    requires |segs| >= 1 && ArrayWritesInRange(c, segs)
    requires SetPath(c, segs, value).Ok?
    requires j < |segs| && k != segs[j]
    ensures At(SetPath(c, segs, value).value.0, segs[..j] + [k] + rest) == At(c, segs[..j] + [k] + rest)
    decreases |segs|
  {
    if j == 0 {
      assert segs[..j] + [k] + rest == [k] + rest;
      SetFrameHere(c, segs, value, k, rest);
    } else {
      var child := Prop(c, segs[0]);
      var next := if Nullish(child) then Obj(map[]) else child;
      SetPathStep(c, segs, value);
      SetFrame(next, segs[1..], value, j - 1, k, rest);
      SetFrameStep(c, segs, value, j, k, rest);
    }
  }

  /** One level of `SetFrame`: the first segment now holds the result of the
      write below it, so a path through it reads what it read there. */
  lemma SetFrameStep(c: JsVal, segs: seq<string>, value: JsVal, j: nat, k: string, rest: seq<string>)
    requires |segs| >= 2 && ArrayWritesInRange(c, segs)
    requires SetPath(c, segs, value).Ok?
    requires 1 <= j < |segs|
    requires var child := Prop(c, segs[0]);
      var next := if Nullish(child) then Obj(map[]) else child;
      && ArrayWritesInRange(next, segs[1..])
      && SetPath(next, segs[1..], value).Ok?
      && Prop(SetPath(c, segs, value).value.0, segs[0]) == SetPath(next, segs[1..], value).value.0
      && At(SetPath(next, segs[1..], value).value.0, segs[1..][..j - 1] + [k] + rest)
         == At(next, segs[1..][..j - 1] + [k] + rest)
    ensures At(SetPath(c, segs, value).value.0, segs[..j] + [k] + rest) == At(c, segs[..j] + [k] + rest)
  {
    var c' := SetPath(c, segs, value).value.0;
    var child := Prop(c, segs[0]);
    var p := segs[..j] + [k] + rest;
    var tail := segs[1..][..j - 1] + [k] + rest;
    assert p[0] == segs[0] && p[1..] == tail;
    if Nullish(child) {
      AtNullish(child, tail);
      EmptyObjectReads(tail);
    }
  }

  /** A path that leaves the written path at the first segment reads the same. */
  lemma SetFrameHere(c: JsVal, segs: seq<string>, value: JsVal, k: string, rest: seq<string>)
    requires |segs| >= 1 && ArrayWritesInRange(c, segs)
    requires SetPath(c, segs, value).Ok? && k != segs[0]
    ensures At(SetPath(c, segs, value).value.0, [k] + rest) == At(c, [k] + rest)
  {
    var c' := SetPath(c, segs, value).value.0;
    assert Prop(c', k) == Prop(c, k) by {
      if |segs| > 1 {
        EmptyWritesInRange(segs[1..]);
      }
    }
    assert ([k] + rest)[1..] == rest;
  }

  /** A fresh `{}` reads `undefined` along every non-empty path. */
  lemma EmptyObjectReads(path: seq<string>)
    requires path != []
    ensures At(Obj(map[]), path) == Undefined
  {
    AtNullish(Prop(Obj(map[]), path[0]), path[1..]);
  }

  /** Every `undefined` or `null` on the path becomes an object holding only
      the next segment. */
  lemma {:induction false} SetCreates(c: JsVal, segs: seq<string>, value: JsVal, j: nat)
    requires |segs| >= 1 && ArrayWritesInRange(c, segs)
    requires SetPath(c, segs, value).Ok?
    requires 1 <= j < |segs| && Nullish(At(c, segs[..j]))
    ensures var made := At(SetPath(c, segs, value).value.0, segs[..j]);
      made.Obj? && made.fields.Keys == {segs[j]}
    decreases |segs|
  {
    var child := Prop(c, segs[0]);
    var next := if Nullish(child) then Obj(map[]) else child;
    AtPrefix(SetPath(c, segs, value).value.0, segs, j);
    if j == 1 {
      assert segs[..1] == [segs[0]] && [segs[0]][1..] == [];
      assert At(c, segs[..1]) == child;
      SetCreatesHere(c, segs, value);
    } else {
      AtPrefix(c, segs, j);
      SetPathStep(c, segs, value);
      if Nullish(child) {
        AtNullish(child, segs[1..][..j - 1]);
        SetFromEmpty(segs[1..], value, j - 1);
      } else {
        SetCreates(next, segs[1..], value, j - 1);
      }
    }
  }

  /** A missing first level becomes an object holding only the second segment. */
  lemma SetCreatesHere(c: JsVal, segs: seq<string>, value: JsVal)
    requires |segs| >= 2 && ArrayWritesInRange(c, segs)
    requires SetPath(c, segs, value).Ok?
    requires Nullish(Prop(c, segs[0]))
    ensures var made := Prop(SetPath(c, segs, value).value.0, segs[0]);
      made.Obj? && made.fields.Keys == {segs[1]}
  {
    SetPathStep(c, segs, value);
    var next' := SetPath(Obj(map[]), segs[1..], value).value.0;
    if |segs| == 2 {
      assert next' == Obj(map[segs[1] := value]);
    } else {
      assert next'.fields.Keys == {segs[1]};
    }
  }

  /** Starting from `{}`, every level of the written path holds only its next segment. */
  lemma {:induction false} SetFromEmpty(segs: seq<string>, value: JsVal, j: nat)
    requires |segs| >= 1 && j < |segs|
    ensures ArrayWritesInRange(Obj(map[]), segs)
    ensures SetPath(Obj(map[]), segs, value).Ok?
    ensures var made := At(SetPath(Obj(map[]), segs, value).value.0, segs[..j]);
      made.Obj? && made.fields.Keys == {segs[j]}
    decreases |segs|
  {
    var e := Obj(map[]);
    if |segs| > 1 {
      SetFromEmpty(segs[1..], value, if j > 0 then j - 1 else 0);
      assert Prop(e, segs[0]) == Undefined;
      if j > 0 {
        assert segs[..j][1..] == segs[1..][..j - 1];
      }
    }
  }

  /** A fresh `{}` has no arrays below it. */
  lemma EmptyWritesInRange(segs: seq<string>)
    ensures ArrayWritesInRange(Obj(map[]), segs)
  {
    if |segs| > 1 {
      NullishWritesInRange(Undefined, segs[1..]);
    }
  }

  lemma {:induction false} NullishWritesInRange(v: JsVal, segs: seq<string>)
    requires Nullish(v)
    ensures ArrayWritesInRange(v, segs)
    decreases |segs|
  {
    if |segs| > 1 {
      NullishWritesInRange(Prop(v, segs[0]), segs[1..]);
    }
  }

  /** How many steps of `segs` the walk from `c` can take through objects and
      arrays: the first position whose value is not one, or `|segs|`. */
  function FirstBlocked(c: JsVal, segs: seq<string>): (k: nat)
    ensures k <= |segs|
    ensures forall i :: 0 <= i < k ==> IsContainer(At(c, segs[..i]))
    ensures k < |segs| ==> !IsContainer(At(c, segs[..k]))
    decreases |segs|
  {
    if segs == [] || !IsContainer(c) then
      assert segs[..0] == [];
      0
    else
      var k := 1 + FirstBlocked(Prop(c, segs[0]), segs[1..]);
      assert forall i :: 1 <= i <= |segs| ==> segs[..i][1..] == segs[1..][..i - 1];
      assert segs[..0] == [];
      k
  }

  /** `set` throws exactly when the walk meets a value it cannot enter before
      any `undefined` or `null` is replaced: a `null` root, or a primitive. */
  lemma {:induction false} SetThrows(c: JsVal, segs: seq<string>, value: JsVal)
    requires |segs| >= 1 && ArrayWritesInRange(c, segs)
    ensures var k := FirstBlocked(c, segs);
      SetPath(c, segs, value).TypeError? <==> k < |segs| && (k == 0 || !Nullish(At(c, segs[..k])))
    decreases |segs|
  {
    var k := FirstBlocked(c, segs);
    if IsContainer(c) {
      var child := Prop(c, segs[0]);
      assert segs[..1] == [segs[0]];
      if |segs| == 1 {
        assert k == 1;
      } else if Nullish(child) {
        SetFromEmpty(segs[1..], value, 0);
        assert k == 1;
      } else {
        SetThrows(child, segs[1..], value);
        var k' := FirstBlocked(child, segs[1..]);
        assert k == k' + 1;
        assert segs[..k][1..] == segs[1..][..k'];
      }
    }
  }
}
