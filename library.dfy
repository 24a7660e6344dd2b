/**
  The library object's own state, `g.settings`: `g.setup` (index.js:68-74)
  merges options into it, and `g.req` (index.js:76-132) reads its base URL,
  timeout and headers from it before building the request.
 */
module Library {
  import opened JsValues
  import opened PathAccess
  import opened Requests

  /** `Object.assign(target, source)` on a plain-object target: every own
      enumerable property of `source` is copied over, the rest of `target` stays. */
  function Assign(target: map<string, JsVal>, source: JsVal): (r: map<string, JsVal>)
    ensures r.Keys == target.Keys + OwnKeys(source)
    ensures forall k :: k in OwnKeys(source) ==> r[k] == Prop(source, k)
    ensures forall k :: k in target && k !in OwnKeys(source) ==> r[k] == target[k]
  {
    target + OwnEntries(source)
  }

  /** Applying the same options twice is the same as applying them once. */
  lemma AssignIdempotent(target: map<string, JsVal>, source: JsVal)
    ensures Assign(Assign(target, source), source) == Assign(target, source)
  {
    var once := Assign(target, source);
    var twice := Assign(once, source);
    assert twice.Keys == once.Keys;
    forall k | k in once.Keys ensures twice[k] == once[k] {
    }
  }

  /** A one-segment setting that the options set to a truthy value is what
      `get` then reads. */
  lemma ReadAfterAssign(target: map<string, JsVal>, options: JsVal, key: string,
                        defaultValue: JsVal, env: Browser)
    requires '.' !in key && key in OwnKeys(options) && Truthy(Prop(options, key))
    ensures GetValue(key, Obj(Assign(target, options)), defaultValue, env) == Ok(Prop(options, key))
  {
    GetOneSegment(key, Assign(target, options), defaultValue, env);
  }

  /** A request as `req` hands it to the transport. */
  datatype Request = Request(url: string, headers: JsVal, timeout: JsVal, sends: seq<Option<JsVal>>)

  class Library {
    /** `g.settings`: absent until the first `setup`, then a plain object. */
    var settings: JsVal

    ghost predicate Valid()
      reads this
    {
      settings.Undefined? || settings.Obj?
    }

    constructor()
      ensures Valid() && settings == Undefined
    {
      settings := Undefined;
    }

    /** The settings' fields; none before the first `setup`. */
    function Fields(): map<string, JsVal>
      reads this
    {
      if settings.Obj? then settings.fields else map[]
    }

    /** `g.setup(options)`: start from `{}` if there are no settings yet,
        then copy the options' own properties over. */
    method Setup(options: JsVal)
      requires Valid()
      modifies this
      ensures Valid()
      ensures settings == Obj(Assign(old(Fields()), options))
    {
      if !Truthy(settings) {
        settings := Obj(map[]);
      }
      settings := Obj(Assign(settings.fields, options));
    }

    /** What `g.get(key, g.settings, defaultValue)` gives; the settings are
        never `null`, so it does not throw. */
    function Setting(key: string, defaultValue: JsVal, env: Browser): JsVal
      requires Valid()
      reads this
    {
      GetValue(key, settings, defaultValue, env).value
    }

    /** One `g.get(key, g.settings, defaultValue)` call. */
    method ReadSetting(key: string, defaultValue: JsVal, env: Browser) returns (v: JsVal)
      requires Valid()
      ensures v == Setting(key, defaultValue, env)
    {
      var r := Get(key, settings, defaultValue, env);
      v := r.value;
    }

    /** The part of `g.req` that runs before the transport: read the
        settings, build the URL, decide what is sent. */
    method Prepare(verb: string, url: string, data: JsVal, keys: seq<string>, env: Browser) returns (r: Request)
      requires Valid() && KeyOrder(data, keys)
      ensures r.url == RequestUrl(verb, url, Setting("baseUrl", Str(""), env), data, keys)
      ensures r.timeout == Setting("timeout", Bool(false), env)
      ensures r.headers == Setting("headers", Obj(map[]), env)
      ensures r.sends == Sends(verb, data)
    {
      var baseUrl := ReadSetting("baseUrl", Str(""), env);
      var timeout := ReadSetting("timeout", Bool(false), env);
      var headers := ReadSetting("headers", Obj(map[]), env);
      r := Request(RequestUrl(verb, url, baseUrl, data, keys), headers, timeout, Sends(verb, data));
    }
  }

  /** Before any `setup` the URL is used as given. */
  lemma NoSetupNoBase(lib: Library, verb: string, url: string, env: Browser)
    requires lib.Valid() && lib.settings == Undefined
    ensures lib.Setting("baseUrl", Str(""), env) == Undefined
    ensures RequestUrl(verb, url, lib.Setting("baseUrl", Str(""), env), Undefined, []) == url
  {
  }

  /** After `setup({baseUrl: b})` with a non-empty string `b`, every URL is put under `b`. */
  lemma BaseUrlAfterSetup(fields: map<string, JsVal>, b: string, url: string, env: Browser)
    requires b != ""
    ensures var s := Obj(Assign(fields, Obj(map["baseUrl" := Str(b)])));
            JoinUrl(GetValue("baseUrl", s, Str(""), env).value, url) == b + "/" + url
  {
    ReadAfterAssign(fields, Obj(map["baseUrl" := Str(b)]), "baseUrl", Str(""), env);
  }
}
