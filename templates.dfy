/**
  `g.map` (index.js:6-19) and the template engine `g.tpl` (index.js:305-318):
  placeholders `{{ path }}` in a template are replaced with the escaped value
  at that path of a data item, once per item when the data is an array.
 */
module Templates {
  import opened Strings
  import opened JsValues
  import opened PathAccess
  import opened Escape

  // ---- g.map ----

  /** What `map` returns: the callback's result on a non-array, or an array of results. */
  datatype Mapped<T> = Single(value: T) | Each(values: seq<T>)

  /** `g.map`: applies `cb` to each element of an array, or once to anything else. */
  method Map<T>(arr: JsVal, cb: JsVal -> T) returns (r: Mapped<T>)
    ensures !arr.Arr? ==> r == Single(cb(arr))
    ensures arr.Arr? ==> r.Each? && |r.values| == |arr.items|
    ensures arr.Arr? ==> forall i :: 0 <= i < |arr.items| ==> r.values[i] == cb(arr.items[i])
  {
    if !arr.Arr? {
      return Single(cb(arr));
    }
    var result: seq<T> := [];
    var i := 0;
    var len := |arr.items|;
    while i < len
      invariant 0 <= i <= len
      invariant |result| == i
      invariant forall j :: 0 <= j < i ==> result[j] == cb(arr.items[j])
    {
      result := result + [cb(arr.items[i])];
      i := i + 1;
    }
    return Each(result);
  }

  // ---- Finding the placeholders ----

  /** A template cut at its placeholders: literal text, or the text between
      a `{{` and the `}}` that closes it. */
  datatype Piece = Text(text: string) | Hole(inner: string)

  /** The position of the first `}` at or after `i`, or `|s|` if there is none. */
  function CloseAt(s: string, i: nat): (q: nat)
    requires i <= |s|
    ensures i <= q <= |s|
    ensures forall k :: i <= k < q ==> s[k] != '}'
    ensures q < |s| ==> s[q] == '}'
    decreases |s| - i
  {
    if i == |s| || s[i] == '}' then i else CloseAt(s, i + 1)
  }

  /** The pattern `/{{\s*([^}]*)\s*}}/` matches at position `p`: `{{`, then
      anything but `}` (white space included), then `}}`. */
  predicate MatchAt(s: string, p: nat) {
    p + 2 <= |s| && s[p] == '{' && s[p + 1] == '{'
    && CloseAt(s, p + 2) + 1 < |s| && s[CloseAt(s, p + 2) + 1] == '}'
  }

  /** `MatchAt` is the pattern read literally: `{{`, a run of characters other
      than `}`, then `}}`. */
  lemma MatchAtMeans(s: string, p: nat)
    ensures MatchAt(s, p) <==>
              exists q :: p + 2 <= q && q + 2 <= |s| && s[p] == '{' && s[p + 1] == '{'
                          && (forall k :: p + 2 <= k < q ==> s[k] != '}') && s[q] == '}' && s[q + 1] == '}'
  {
    if MatchAt(s, p) {
      var q := CloseAt(s, p + 2);
      assert s[q] == '}';
    }
    if exists q :: p + 2 <= q && q + 2 <= |s| && s[p] == '{' && s[p + 1] == '{'
                   && (forall k :: p + 2 <= k < q ==> s[k] != '}') && s[q] == '}' && s[q + 1] == '}' {
      var q :| p + 2 <= q && q + 2 <= |s| && s[p] == '{' && s[p + 1] == '{'
               && (forall k :: p + 2 <= k < q ==> s[k] != '}') && s[q] == '}' && s[q + 1] == '}';
      assert CloseAt(s, p + 2) == q;
    }
  }

  /** The global match of the pattern from left to right: at each position
      either a placeholder starts, or one character is kept as text. */
  function Scan(s: string): (ps: seq<Piece>)
    ensures forall i :: 0 <= i < |ps| && ps[i].Hole? ==> '}' !in ps[i].inner
    decreases |s|
  {
    if s == [] then []
    else if MatchAt(s, 0) then
      var q := CloseAt(s, 2);
      var rest := Scan(s[q + 2..]);
      var h := s[2..q];
      assert '}' !in h by {
        forall k | 0 <= k < |h| ensures h[k] != '}' {
          assert h[k] == s[2 + k];
        }
      }
      [Hole(h)] + rest
    else [Text([s[0]])] + Scan(s[1..])
  }

  /** The template text a list of pieces was cut from. */
  function Unscan(ps: seq<Piece>): string {
    if ps == [] then ""
    else
      (match ps[0]
       case Text(t) => t
       case Hole(e) => "{{" + e + "}}") + Unscan(ps[1..])
  }

  /** Cutting a template into pieces loses nothing. */
  lemma {:induction false} UnscanScan(s: string)
    ensures Unscan(Scan(s)) == s
    decreases |s|
  {
    if s != [] {
      if MatchAt(s, 0) {
        var q := CloseAt(s, 2);
        assert Scan(s) == [Hole(s[2..q])] + Scan(s[q + 2..]);
        UnscanScan(s[q + 2..]);
        UnscanCons(Hole(s[2..q]), Scan(s[q + 2..]));
        HoleText(s, q);
      } else {
        assert Scan(s) == [Text([s[0]])] + Scan(s[1..]);
        UnscanScan(s[1..]);
        UnscanCons(Text([s[0]]), Scan(s[1..]));
        assert s == [s[0]] + s[1..];
      }
    }
  }

  lemma UnscanCons(p: Piece, ps: seq<Piece>)
    ensures Unscan([p] + ps) == (match p case Text(t) => t case Hole(e) => "{{" + e + "}}") + Unscan(ps)
  {
    assert ([p] + ps)[0] == p;
    assert ([p] + ps)[1..] == ps;
  }

  /** A placeholder at the start: `{{`, its inner text, `}}`, then the rest. */
  lemma HoleText(s: string, q: nat)
    requires 2 <= q && q + 2 <= |s|
    requires s[0] == '{' && s[1] == '{' && s[q] == '}' && s[q + 1] == '}'
    ensures s == "{{" + s[2..q] + "}}" + s[q + 2..]
  {
    var t := "{{" + s[2..q] + "}}" + s[q + 2..];
    assert |t| == |s|;
    forall i | 0 <= i < |s| ensures t[i] == s[i] {
      if i < 2 {
      } else if i < q {
        assert t[i] == s[2..q][i - 2];
      } else if i < q + 2 {
      } else {
        assert t[i] == s[q + 2..][i - q - 2];
      }
    }
  }

  // ---- Rendering ----

  /** The regular expression's capture group: the leading `\s*` takes the
      white space at the start, `[^}]*` the rest. */
  function Capture(inner: string): (r: string)
    ensures |r| <= |inner| && r == inner[|inner| - |r|..] && AllSpace(inner[..|inner| - |r|])
    ensures r == [] || !IsJsSpace(r[0])
  {
    inner[LeadingSpaces(inner)..]
  }

  /** The path looked up for a placeholder is its inner text, trimmed. */
  lemma CapturePath(inner: string)
    ensures Trim(Capture(inner)) == Trim(inner)
  {
    TrimAfterLeftTrim(inner);
  }

  /** One placeholder's replacement: `clean(get(capture.trim(), data))`. */
  function HoleValue(inner: string, data: JsVal, env: Browser): (r: Result<string>)
    ensures r.TypeError? <==> data.Null?
    ensures r.Ok? ==> forall i :: 0 <= i < |r.value| ==> r.value[i] !in "<>\"'/"
  {
    match GetValue(Trim(Capture(inner)), data, Undefined, env)
    case TypeError => TypeError
    case Ok(v) => Ok(CleanValue(v))
  }

  /** Two results one after the other: the concatenation, or a throw if
      either part throws. */
  function Append(x: Result<string>, y: Result<string>): Result<string> {
    if x.Ok? && y.Ok? then Ok(x.value + y.value) else TypeError
  }

  /** What one piece contributes to the output. */
  function PieceValue(p: Piece, data: JsVal, env: Browser): Result<string> {
    match p
    case Text(t) => Ok(t)
    case Hole(e) => HoleValue(e, data, env)
  }

  /** The `replace` call of `parsed(data)`: every piece in order, a throwing
      placeholder ending the whole call. */
  function Render(ps: seq<Piece>, data: JsVal, env: Browser): (r: Result<string>)
    ensures r.TypeError? <==> data.Null? && HasHole(ps)
  {
    if ps == [] then Ok("")
    else Append(PieceValue(ps[0], data, env), Render(ps[1..], data, env))
  }

  /** `r.join('')` over the results of `parsed` on every item; a throw in any
      of them ends the call. */
  function JoinResults(rs: seq<Result<string>>): (r: Result<string>)
    ensures r.TypeError? <==> exists i :: 0 <= i < |rs| && rs[i].TypeError?
  {
    if rs == [] then Ok("")
    else
      assert forall i :: 1 <= i < |rs| ==> rs[i] == rs[1..][i - 1];
      Append(rs[0], JoinResults(rs[1..]))
  }

  /** What `tpl` returns for the template text `html`: the rendering of the
      data, or the concatenated renderings of its items. */
  function TplValue(html: string, data: JsVal, env: Browser): (r: Result<string>)
    ensures r.TypeError? <==> HasHole(Scan(html))
                              && (data.Null? || (data.Arr? && exists i :: 0 <= i < |data.items| && data.items[i].Null?))
  {
    if data.Arr? then
      var rs := seq(|data.items|, i requires 0 <= i < |data.items| => Render(Scan(html), data.items[i], env));
      assert forall i :: 0 <= i < |rs| ==> (rs[i].TypeError? <==> HasHole(Scan(html)) && data.items[i].Null?);
      JoinResults(rs)
    else Render(Scan(html), data, env)
  }

  /** `g.tpl`, with the template's text (which the library reads from the
      element whose id is the template's name) passed in. */
  method Tpl(html: string, data: JsVal, env: Browser) returns (r: Result<string>)
    ensures r == TplValue(html, data, env)
  {
    var pieces := Scan(html);
    var m := Map(data, d => Render(pieces, d, env));
    match m
    case Single(x) =>
      r := x;
    case Each(xs) =>
      assert xs == seq(|data.items|, i requires 0 <= i < |data.items| => Render(Scan(html), data.items[i], env));
      r := JoinResults(xs);
  }

  // ---- What rendering guarantees ----

  /** A template without placeholders renders as itself, whatever the data. */
  lemma {:induction false} NoPlaceholders(s: string, data: JsVal, env: Browser)
    requires forall p :: 0 <= p < |s| ==> !MatchAt(s, p)
    ensures Render(Scan(s), data, env) == Ok(s)
    decreases |s|
  {
    if s != [] {
      assert !MatchAt(s, 0);
      forall p | 0 <= p < |s[1..]| ensures !MatchAt(s[1..], p) {
        MatchShift(s, p);
      }
      NoPlaceholders(s[1..], data, env);
      var ps := Scan(s);
      assert ps == [Text([s[0]])] + Scan(s[1..]);
      assert ps[0] == Text([s[0]]) && ps[1..] == Scan(s[1..]);
      assert Render(ps, data, env) == Append(Ok([s[0]]), Ok(s[1..]));
      assert s == [s[0]] + s[1..];
    }
  }

  /** A match in a suffix is a match in the whole string, one position later. */
  lemma MatchShift(s: string, p: nat)
    requires |s| >= 1
    ensures MatchAt(s[1..], p) ==> MatchAt(s, p + 1)
  {
    if MatchAt(s[1..], p) {
      CloseShift(s, p + 2);
    }
  }

  lemma {:induction false} CloseShift(s: string, i: nat)
    requires |s| >= 1 && i <= |s| - 1
    ensures CloseAt(s[1..], i) + 1 == CloseAt(s, i + 1)
    decreases |s| - i
  {
    if i < |s| - 1 && s[1..][i] != '}' {
      CloseShift(s, i + 1);
    }
  }

  /** A path that is missing (or reaches a falsy value) in an object renders as "". */
  lemma MissingRendersEmpty(inner: string, data: JsVal, env: Browser)
    requires data.Obj? || data.Arr?
    requires !PathDefined(data, Split(Trim(inner), '.'))
    ensures HoleValue(inner, data, env) == Ok("")
  {
    CapturePath(inner);
  }

  /** Some piece is a placeholder. */
  predicate HasHole(ps: seq<Piece>) {
    ps != [] && (ps[0].Hole? || HasHole(ps[1..]))
  }

  lemma {:induction false} HasHoleMeans(ps: seq<Piece>)
    ensures HasHole(ps) <==> exists i :: 0 <= i < |ps| && ps[i].Hole?
  {
    if ps != [] {
      HasHoleMeans(ps[1..]);
      if HasHole(ps[1..]) {
        var i :| 0 <= i < |ps[1..]| && ps[1..][i].Hole?;
        assert ps[i + 1].Hole?;
      }
      if (exists i :: 0 <= i < |ps| && ps[i].Hole?) && !ps[0].Hole? {
        var i :| 0 <= i < |ps| && ps[i].Hole?;
        assert ps[1..][i - 1].Hole?;
      }
    }
  }

  /** A piece throws exactly when it is a placeholder and the data is `null`. */
  lemma PieceValueThrows(p: Piece, data: JsVal, env: Browser)
    ensures PieceValue(p, data, env).TypeError? <==> p.Hole? && data.Null?
  {
  }

  /** An empty array of data renders as "". */
  lemma TplEmptyArray(html: string, env: Browser)
    ensures TplValue(html, Arr([]), env) == Ok("")
  {
  }

  /** A one-element array renders as its element alone. */
  lemma TplSingle(html: string, x: JsVal, env: Browser)
    ensures TplValue(html, Arr([x]), env) == Render(Scan(html), x, env)
  {
    var r := Render(Scan(html), x, env);
    var rs := seq(|[x]|, i requires 0 <= i < |[x]| => Render(Scan(html), [x][i], env));
    assert rs == [r];
    assert [r][1..] == [];
    assert JoinResults([r]) == Append(r, Ok(""));
    if r.Ok? {
      assert r.value + "" == r.value;
    }
  }

  /** An array of data renders as the renderings of its items, in order. */
  lemma {:induction false} TplArrayAppend(html: string, items: seq<JsVal>, x: JsVal, env: Browser)
    requires TplValue(html, Arr(items), env).Ok? && Render(Scan(html), x, env).Ok?
    ensures TplValue(html, Arr(items + [x]), env)
            == Ok(TplValue(html, Arr(items), env).value + Render(Scan(html), x, env).value)
  {
    var f := (i: nat, xs: seq<JsVal>) requires i < |xs| => Render(Scan(html), xs[i], env);
    var rs := seq(|items|, i requires 0 <= i < |items| => Render(Scan(html), items[i], env));
    var rs' := seq(|items + [x]|, i requires 0 <= i < |items + [x]| => Render(Scan(html), (items + [x])[i], env));
    assert rs' == rs + [Render(Scan(html), x, env)];
    JoinResultsAppend(rs, Render(Scan(html), x, env));
  }

  lemma {:induction false} JoinResultsAppend(rs: seq<Result<string>>, r: Result<string>)
    requires JoinResults(rs).Ok? && r.Ok?
    ensures JoinResults(rs + [r]) == Ok(JoinResults(rs).value + r.value)
  {
    if rs == [] {
      assert rs + [r] == [r];
      assert [r][1..] == [];
      assert r.value + "" == r.value && "" + r.value == r.value;
      assert JoinResults([r]) == Ok(r.value + "");
    } else {
      assert (rs + [r])[0] == rs[0];
      assert (rs + [r])[1..] == rs[1..] + [r];
      JoinResultsAppend(rs[1..], r);
      var a := rs[0].value;
      var b := JoinResults(rs[1..]).value;
      assert JoinResults(rs) == Ok(a + b);
      assert JoinResults(rs + [r]) == Ok(a + (b + r.value));
      assert a + (b + r.value) == (a + b) + r.value;
    }
  }

  /** The pieces of text without a `{`: one text piece per character. */
  function TextPieces(a: string): seq<Piece> {
    if a == [] then [] else [Text([a[0]])] + TextPieces(a[1..])
  }

  /** Text without a `{` is kept as it is, whatever follows it. */
  lemma {:induction false} ScanPlainPrefix(a: string, t: string)
    requires '{' !in a
    ensures Scan(a + t) == TextPieces(a) + Scan(t)
  {
    if a != [] {
      assert (a + t)[0] == a[0];
      assert !MatchAt(a + t, 0);
      assert (a + t)[1..] == a[1..] + t;
      assert '{' !in a[1..] by {
        assert forall c :: c in a[1..] ==> c in a;
      }
      ScanPlainPrefix(a[1..], t);
    } else {
      assert a + t == t;
    }
  }

  /** Pieces rendered one list after the other. */
  lemma {:induction false} RenderAppend(ps: seq<Piece>, qs: seq<Piece>, data: JsVal, env: Browser)
    ensures Render(ps + qs, data, env) == Append(Render(ps, data, env), Render(qs, data, env))
  {
    if ps == [] {
      assert ps + qs == qs;
      AppendUnit(Render(qs, data, env));
    } else {
      RenderAppend(ps[1..], qs, data, env);
      assert Render(ps + qs, data, env)
             == Append(PieceValue(ps[0], data, env), Render(ps[1..] + qs, data, env)) by {
        assert (ps + qs)[0] == ps[0];
        assert (ps + qs)[1..] == ps[1..] + qs;
      }
      AppendAssoc(PieceValue(ps[0], data, env), Render(ps[1..], data, env), Render(qs, data, env));
    }
  }

  lemma AppendUnit(x: Result<string>)
    ensures Append(Ok(""), x) == x
  {
    if x.Ok? {
      assert "" + x.value == x.value;
    }
  }

  lemma AppendAssoc(x: Result<string>, y: Result<string>, z: Result<string>)
    ensures Append(x, Append(y, z)) == Append(Append(x, y), z)
  {
    if x.Ok? && y.Ok? && z.Ok? {
      assert x.value + (y.value + z.value) == (x.value + y.value) + z.value;
    }
  }

  /** Text pieces render as their text for any data. */
  lemma {:induction false} RenderText(a: string, data: JsVal, env: Browser)
    ensures Render(TextPieces(a), data, env) == Ok(a)
  {
    if a != [] {
      RenderText(a[1..], data, env);
      assert a == [a[0]] + a[1..];
    }
  }

  /** The placeholder `{{name}}` looks up the one-segment path `name`. */
  lemma NamePath()
    ensures Trim(Capture("name")) == "name" && Split("name", '.') == ["name"]
  {
    assert LeadingSpaces("name") == 0;
    assert TrimEnd("name") == "name";
    assert '.' !in "name";
    SplitFree("name", '.');
  }

  /** `{{name}}` in an item whose `name` is a non-empty string without special
      characters renders as that string. */
  lemma NamePlaceholder(v: string, env: Browser)
    requires v != [] && forall i :: 0 <= i < |v| ==> v[i] !in Specials
    ensures HoleValue("name", Obj(map["name" := Str(v)]), env) == Ok(v)
  {
    var d := Obj(map["name" := Str(v)]);
    NameHole(d, env);
    NameLookup(v, env);
    CleanPlain(v);
  }

  /** `{{name}}` is replaced by the cleaned value of `get('name', data)`. */
  lemma NameHole(data: JsVal, env: Browser)
    requires data.Obj?
    ensures GetValue("name", data, Undefined, env).Ok?
    ensures HoleValue("name", data, env) == Ok(CleanValue(GetValue("name", data, Undefined, env).value))
  {
    NamePath();
    var g := GetValue(Trim(Capture("name")), data, Undefined, env);
    assert g == GetValue("name", data, Undefined, env);
    assert g.Ok?;
    assert HoleValue("name", data, env) == Ok(CleanValue(g.value));
  }

  /** `clean` returns a non-empty string without special characters as it is. */
  lemma CleanPlain(v: string)
    requires v != [] && forall i :: 0 <= i < |v| ==> v[i] !in Specials
    ensures CleanValue(Str(v)) == v
  {
    EscapedPlain(v);
  }

  /** `get('name', {name: v})` is `v` when `v` is a non-empty string. */
  lemma NameLookup(v: string, env: Browser)
    requires v != []
    ensures GetValue("name", Obj(map["name" := Str(v)]), Undefined, env) == Ok(Str(v))
  {
    var d := Obj(map["name" := Str(v)]);
    assert GetValue("name", d, Undefined, env) == Ok(GetInObject(d, Split("name", '.'), Undefined));
    NamePath();
    NameDefined(v);
  }

  lemma NameDefined(v: string)
    requires v != []
    ensures GetInObject(Obj(map["name" := Str(v)]), ["name"], Undefined) == Str(v)
  {
    assert ["name"][..1] == ["name"];
    assert ["name"][1..] == [];
  }

  /** The placeholder and the text after it in the list-item template. */
  lemma ListItemTailScan()
    ensures Scan("{{name}}</li>") == [Hole("name")] + TextPieces("</li>")
  {
    var rest := "{{name}}</li>";
    assert CloseAt(rest, 2) == 6;
    assert MatchAt(rest, 0);
    assert rest[2..6] == "name";
    assert rest[8..] == "</li>" + [];
    ScanPlainPrefix("</li>", []);
  }

  /** The pieces of the list-item template. */
  lemma ListItemScan()
    ensures Scan("<li>{{name}}</li>") == TextPieces("<li>") + [Hole("name")] + TextPieces("</li>")
  {
    assert "<li>{{name}}</li>" == "<li>" + "{{name}}</li>";
    ScanPlainPrefix("<li>", "{{name}}</li>");
    ListItemTailScan();
  }

  /** The placeholder alone renders as the name. */
  lemma NameRender(v: string, env: Browser)
    requires v != [] && forall i :: 0 <= i < |v| ==> v[i] !in Specials
    ensures Render([Hole("name")], Obj(map["name" := Str(v)]), env) == Ok(v)
  {
    var d := Obj(map["name" := Str(v)]);
    var ps := [Hole("name")];
    assert Render(ps, d, env) == Append(HoleValue("name", d, env), Render(ps[1..], d, env));
    NamePlaceholder(v, env);
    assert v + "" == v;
  }

  lemma ListItemRender(html: string, v: string, env: Browser)
    requires html == "<li>{{name}}</li>"
    requires v != [] && forall i :: 0 <= i < |v| ==> v[i] !in Specials
    ensures Render(Scan(html), Obj(map["name" := Str(v)]), env) == Ok("<li>" + v + "</li>")
  {
    var d := Obj(map["name" := Str(v)]);
    ListItemScan();
    NameRender(v, env);
    RenderText("<li>", d, env);
    RenderText("</li>", d, env);
    RenderAppend(TextPieces("<li>"), [Hole("name")], d, env);
    RenderAppend(TextPieces("<li>") + [Hole("name")], TextPieces("</li>"), d, env);
  }

  /** A list item per element, in order. */
  lemma ListExample(html: string, x: string, y: string, env: Browser)
    requires html == "<li>{{name}}</li>"
    requires x != [] && forall i :: 0 <= i < |x| ==> x[i] !in Specials
    requires y != [] && forall i :: 0 <= i < |y| ==> y[i] !in Specials
    ensures TplValue(html, Arr([Obj(map["name" := Str(x)]), Obj(map["name" := Str(y)])]), env)
            == Ok("<li>" + x + "</li><li>" + y + "</li>")
  {
    var dx := Obj(map["name" := Str(x)]);
    var dy := Obj(map["name" := Str(y)]);
    ListItemRender(html, x, env);
    ListItemRender(html, y, env);
    TplSingle(html, dx, env);
    TplArrayAppend(html, [dx], dy, env);
    assert [dx] + [dy] == [dx, dy];
    assert ("<li>" + x + "</li>") + ("<li>" + y + "</li>") == "<li>" + x + "</li><li>" + y + "</li>";
  }
}
