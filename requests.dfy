/**
  The computations inside `g.req` (index.js:76-132) around the transport:
  the request URL with its base and query string, what is sent, and how the
  outcome of the request is reported to the callback.
 */
module Requests {
  import opened Strings
  import opened JsValues
  import opened Uri

  // ---- URL ----

  /** `baseUrl ? baseUrl + '/' + url : url`. */
  function JoinUrl(baseUrl: JsVal, url: string): (r: string)
    ensures |r| >= |url| && r[|r| - |url|..] == url
    ensures r == url <==> !Truthy(baseUrl)
    ensures Truthy(baseUrl) ==> r[..|r| - |url|] == ToStr(baseUrl) + "/"
  {
    if Truthy(baseUrl) then
      var r := ToStr(baseUrl) + "/" + url;
      assert r[|r| - |url|..] == url;
      r
    else url
  }

  /** `keys` is an order of `Object.keys(data)`: every own key exactly once. */
  predicate KeyOrder(data: JsVal, keys: seq<string>) {
    (forall i, j :: 0 <= i < j < |keys| ==> keys[i] != keys[j])
    && (forall i :: 0 <= i < |keys| ==> keys[i] in OwnKeys(data))
    && |keys| == |OwnKeys(data)|
  }

  /** `key + "=" + encodeURIComponent(data[key])`: the key as it is, then a
      value part that cannot end the pair early and decodes to the value's
      string form. */
  function QueryPair(data: JsVal, key: string): (r: string)
    ensures |r| > |key| && r[..|key|] == key && r[|key|] == '='
    ensures '&' !in r[|key| + 1..] && '=' !in r[|key| + 1..]
    ensures DecodeUriComponent(r[|key| + 1..]) == Some(ToStr(Prop(data, key)))
  {
    var v := ToStr(Prop(data, key));
    NoEqualsInEncoding(v);
    DecodeEncode(v);
    var r := key + "=" + EncodeUriComponent(v);
    assert r[|key| + 1..] == EncodeUriComponent(v);
    r
  }

  /** The query string: the pairs of the keys in order, joined by `&`. It is
      empty only when there are no keys. */
  function QueryString(data: JsVal, keys: seq<string>): (r: string)
    ensures r == "" <==> keys == []
    ensures keys != [] ==> |r| >= |QueryPair(data, keys[0])| && r[..|QueryPair(data, keys[0])|] == QueryPair(data, keys[0])
  {
    Join(seq(|keys|, i requires 0 <= i < |keys| => QueryPair(data, keys[i])), "&")
  }

  /** The URL `req` opens: the joined URL, followed by `?` and the query
      string exactly when the method name is "get" (as written, in lower
      case) and the data is truthy, even when the query string is empty. */
  function RequestUrl(verb: string, url: string, baseUrl: JsVal, data: JsVal, keys: seq<string>): (r: string)
    requires KeyOrder(data, keys)
    ensures |r| >= |JoinUrl(baseUrl, url)| && r[..|JoinUrl(baseUrl, url)|] == JoinUrl(baseUrl, url)
    ensures r == JoinUrl(baseUrl, url) <==> !(verb == "get" && Truthy(data))
    ensures verb == "get" && Truthy(data) ==> r[|JoinUrl(baseUrl, url)|..] == "?" + QueryString(data, keys)
  {
    var u := JoinUrl(baseUrl, url);
    if verb == "get" && Truthy(data) then
      var q := QueryString(data, keys);
      AppendQuery(u, q);
      u + "?" + q
    else u
  }

  lemma AppendQuery(u: string, q: string)
    ensures |u + "?" + q| >= |u| && (u + "?" + q)[..|u|] == u
    ensures (u + "?" + q)[|u|..] == "?" + q && u + "?" + q != u
  {
    var r := u + "?" + q;
    assert r[..|u|] == u;
    assert r[|u|..] == "?" + q;
    assert |r| > |u|;
  }

  /** Data without own keys (an empty object, a number, `true`) leaves a bare `?`. */
  lemma EmptyQuery(url: string, baseUrl: JsVal, data: JsVal, keys: seq<string>)
    requires KeyOrder(data, keys) && Truthy(data) && OwnKeys(data) == {}
    ensures RequestUrl("get", url, baseUrl, data, keys) == JoinUrl(baseUrl, url) + "?"
  {
  }

  /** Any other method name, "GET" included, leaves the URL without a query string. */
  lemma OtherMethodNoQuery(verb: string, url: string, baseUrl: JsVal, data: JsVal, keys: seq<string>)
    requires KeyOrder(data, keys) && verb != "get"
    ensures RequestUrl(verb, url, baseUrl, data, keys) == JoinUrl(baseUrl, url)
  {
  }

  // ---- Reading the query string back ----

  /** The position of the first `=` in `p`, or `|p|`. */
  function FirstEq(p: string): (i: nat)
    ensures i <= |p| && (forall j :: 0 <= j < i ==> p[j] != '=') && (i < |p| ==> p[i] == '=')
  {
    if p == [] || p[0] == '=' then 0 else 1 + FirstEq(p[1..])
  }

  /** A `name=value` pair read as a server reads it: both halves decoded,
      an absent `=` giving an empty value. */
  function ParsePair(p: string): (Option<string>, Option<string>) {
    var i := FirstEq(p);
    (DecodeUriComponent(p[..i]), DecodeUriComponent(if i < |p| then p[i + 1..] else ""))
  }

  /** A query string read as a list of decoded pairs. */
  function ParseQuery(q: string): seq<(Option<string>, Option<string>)> {
    if q == "" then []
    else
      var parts := Split(q, '&');
      seq(|parts|, i requires 0 <= i < |parts| => ParsePair(parts[i]))
  }

  /** A string of unreserved characters is its own encoding and decoding. */
  lemma {:induction false} PlainDecodes(s: string)
    requires forall i :: 0 <= i < |s| ==> Unreserved(s[i])
    ensures EncodeUriComponent(s) == s
    ensures DecodeUriComponent(s) == Some(s)
  {
    if s != [] {
      PlainDecodes(s[1..]);
      assert s == [s[0]] + s[1..];
    }
  }

  lemma SplitPairAt(k: string, v: string)
    requires '=' !in k
    ensures FirstEq(k + "=" + v) == |k|
    ensures (k + "=" + v)[..|k|] == k && (k + "=" + v)[|k| + 1..] == v
  {
    var p := k + "=" + v;
    assert p[|k|] == '=';
    assert forall j :: 0 <= j < |k| ==> p[j] == k[j];
  }

  lemma NoEqualsInEncoding(s: string)
    ensures '=' !in EncodeUriComponent(s) && '&' !in EncodeUriComponent(s)
  {
    var e := EncodeUriComponent(s);
    assert InEncodedAlphabet(e);
  }

  /** With keys made of unreserved characters, a server reading the query
      string gets every key, in order, with the string form of its value. */
  lemma QueryRoundTrip(data: JsVal, keys: seq<string>)
    requires forall i :: 0 <= i < |keys| ==> forall j :: 0 <= j < |keys[i]| ==> Unreserved(keys[i][j])
    ensures ParseQuery(QueryString(data, keys))
            == seq(|keys|, i requires 0 <= i < |keys| => (Some(keys[i]), Some(ToStr(Prop(data, keys[i])))))
  {
    var parts := seq(|keys|, i requires 0 <= i < |keys| => QueryPair(data, keys[i]));
    forall i | 0 <= i < |keys|
      ensures '&' !in parts[i]
      ensures ParsePair(parts[i]) == (Some(keys[i]), Some(ToStr(Prop(data, keys[i]))))
    {
      PlainDecodes(keys[i]);
      EncodedPair(keys[i], ToStr(Prop(data, keys[i])));
    }
    assert QueryString(data, keys) == Join(parts, "&");
    ParseJoin(parts);
  }

  /** Pairs without `&`, joined by `&`, are read back one by one. */
  lemma ParseJoin(parts: seq<string>)
    requires forall i :: 0 <= i < |parts| ==> '&' !in parts[i]
    requires |parts| >= 1 ==> parts[0] != ""
    ensures ParseQuery(Join(parts, "&")) == seq(|parts|, i requires 0 <= i < |parts| => ParsePair(parts[i]))
  {
    if parts != [] {
      SplitJoin(parts, '&');
      assert |Join(parts, "&")| >= |parts[0]| > 0;
    }
  }

  /** A key holding `&` comes back as two pairs. */
  lemma KeyWithAmpersand()
    ensures |ParseQuery(QueryString(Obj(map["a&b" := Str("1")]), ["a&b"]))| == 2
  {
    var data := Obj(map["a&b" := Str("1")]);
    OnePair(data, "a&b");
    assert ToStr(Prop(data, "a&b")) == "1";
    assert QueryString(data, ["a&b"]) == "a&b=1";
    SplitAfterFree("a", '&', "b=1");
    SplitFree("b=1", '&');
    assert "a&b=1" == "a" + ['&'] + "b=1";
    assert Split("a&b=1", '&') == ["a", "b=1"];
  }

  /** The query string with the keys encoded as well as the values. */
  function QueryStringEncoded(data: JsVal, keys: seq<string>): string {
    Join(seq(|keys|, i requires 0 <= i < |keys| =>
           EncodeUriComponent(keys[i]) + "=" + EncodeUriComponent(ToStr(Prop(data, keys[i])))), "&")
  }

  /** With the keys encoded, every key reads back, whatever it holds. */
  lemma QueryEncodedRoundTrip(data: JsVal, keys: seq<string>)
    ensures ParseQuery(QueryStringEncoded(data, keys))
            == seq(|keys|, i requires 0 <= i < |keys| => (Some(keys[i]), Some(ToStr(Prop(data, keys[i])))))
  {
    var parts := seq(|keys|, i requires 0 <= i < |keys| =>
                   EncodeUriComponent(keys[i]) + "=" + EncodeUriComponent(ToStr(Prop(data, keys[i]))));
    forall i | 0 <= i < |keys|
      ensures '&' !in parts[i]
      ensures ParsePair(parts[i]) == (Some(keys[i]), Some(ToStr(Prop(data, keys[i]))))
    {
      EncodedPair(keys[i], ToStr(Prop(data, keys[i])));
      assert |parts[i]| > 0;
    }
    assert QueryStringEncoded(data, keys) == Join(parts, "&");
    ParseJoin(parts);
  }

  /** One encoded pair holds no `&` and reads back as its key and value. */
  lemma EncodedPair(k: string, v: string)
    ensures '&' !in EncodeUriComponent(k) + "=" + EncodeUriComponent(v)
    ensures ParsePair(EncodeUriComponent(k) + "=" + EncodeUriComponent(v)) == (Some(k), Some(v))
  {
    var ek := EncodeUriComponent(k);
    var ev := EncodeUriComponent(v);
    NoEqualsInEncoding(k);
    NoEqualsInEncoding(v);
    assert forall c :: c in ek + "=" + ev ==> c in ek || c == '=' || c in ev;
    SplitPairAt(ek, ev);
    DecodeEncode(k);
    DecodeEncode(v);
  }

  // ---- Method name ----

  /** Whether the method name is exactly "GET" once lower-cased (ASCII). */
  function LowerAscii(s: string): (r: string)
    ensures |r| == |s|
    ensures forall i :: 0 <= i < |s| ==> r[i] == (if 'A' <= s[i] <= 'Z' then (s[i] as int + 32) as char else s[i])
  {
    if s == [] then [] else
      var c := if 'A' <= s[0] <= 'Z' then (s[0] as int + 32) as char else s[0];
      [c] + LowerAscii(s[1..])
  }

  /** "GET" written in capitals skips the query string: the data of a GET
      request is dropped. */
  lemma UpperCaseGet(url: string, baseUrl: JsVal)
    ensures var data := Obj(map["a" := Num(1)]);
            RequestUrl("GET", url, baseUrl, data, ["a"]) == JoinUrl(baseUrl, url)
            && RequestUrl("get", url, baseUrl, data, ["a"]) == JoinUrl(baseUrl, url) + "?a=1"
  {
    var data := Obj(map["a" := Num(1)]);
    QueryOfA();
    var u := JoinUrl(baseUrl, url);
    assert RequestUrl("get", url, baseUrl, data, ["a"]) == u + "?" + QueryString(data, ["a"]);
    assert u + "?" + "a=1" == u + "?a=1";
  }

  /** `{a: 1}` has the one key "a" and the query string "a=1". */
  lemma QueryOfA()
    ensures KeyOrder(Obj(map["a" := Num(1)]), ["a"])
    ensures QueryString(Obj(map["a" := Num(1)]), ["a"]) == "a=1"
  {
    var data := Obj(map["a" := Num(1)]);
    assert OwnKeys(data) == {"a"};
    OnePair(data, "a");
    assert ToStr(Prop(data, "a")) == "1" by {
      assert Prop(data, "a") == Num(1);
    }
  }

  /** The query string of one key whose value's string form is unreserved
      text is that key, `=` and the text. */
  lemma OnePair(data: JsVal, key: string)
    requires forall i :: 0 <= i < |ToStr(Prop(data, key))| ==> Unreserved(ToStr(Prop(data, key))[i])
    ensures QueryString(data, [key]) == key + "=" + ToStr(Prop(data, key))
  {
    PlainDecodes(ToStr(Prop(data, key)));
    assert QueryString(data, [key]) == Join([QueryPair(data, key)], "&");
  }

  /** The URL with the method name compared without regard to case: every
      spelling of "get" builds the URL that "get" builds, and every other
      method name the bare URL. */
  function RequestUrlAnyCase(verb: string, url: string, baseUrl: JsVal, data: JsVal, keys: seq<string>): (r: string)
    requires KeyOrder(data, keys)
    ensures LowerAscii(verb) == "get" ==> r == RequestUrl("get", url, baseUrl, data, keys)
    ensures LowerAscii(verb) != "get" ==> r == JoinUrl(baseUrl, url)
  {
    RequestUrl(LowerAscii(verb), url, baseUrl, data, keys)
  }

  // ---- Sending ----

  /** The arguments of the `send` calls `req` makes, in order: `send(data)`
      for a method other than "get" with truthy data, then `send()`. */
  function Sends(verb: string, data: JsVal): (r: seq<Option<JsVal>>)
    ensures |r| >= 1 && r[|r| - 1] == None
  {
    (if verb != "get" && Truthy(data) then [Some(data)] else []) + [None]
  }

  /** A request with a body is sent twice, the second time without it. */
  lemma BodySentTwice(verb: string, data: JsVal)
    requires verb != "get" && Truthy(data)
    ensures Sends(verb, data) == [Some(data), None]
  {
  }

  /** One `send` call, carrying the data when the method is not "get". */
  function SendsOnce(verb: string, data: JsVal): (r: seq<Option<JsVal>>)
    ensures |r| == 1
    ensures r[0].Some? <==> verb != "get" && Truthy(data)
    ensures r[0].Some? ==> r[0].value == data
  {
    [if verb != "get" && Truthy(data) then Some(data) else None]
  }

  // ---- Outcome ----

  /** `200 <= status < 400`: a status in the 2xx or 3xx class. */
  predicate IsSuccess(status: int)
    ensures IsSuccess(status) <==> status / 100 == 2 || status / 100 == 3
  {
    200 <= status && status < 400
  }

  /** What the transport reports: a response with its status and its body
      (already through the `JSON.parse` fallback), a network error, or a
      timeout. */
  datatype Event = Load(status: int, body: JsVal) | NetworkError | TimedOut

  /** The arguments the callback receives: a success flag and, after a
      response, its body. */
  datatype Report = Report(success: bool, body: Option<JsVal>)

  /** The callback's arguments for an event, or `None` if no handler is
      installed for it (a timeout when no timeout is configured). */
  function Settle(ev: Event, timeout: JsVal): (r: Option<Report>)
    ensures r.None? <==> ev.TimedOut? && !Truthy(timeout)
    ensures r.Some? ==> (r.value.success <==> ev.Load? && IsSuccess(ev.status))
    ensures r.Some? ==> (r.value.body.Some? <==> ev.Load?)
  {
    match ev
    case Load(status, body) => Some(Report(IsSuccess(status), Some(body)))
    case NetworkError => Some(Report(false, None))
    case TimedOut => if Truthy(timeout) then Some(Report(false, None)) else None
  }
}
