# gorgonzola in Dafny

gorgonzola is a small browser helper library. It is one object, `g`, later
published as `window.g8a`. This project models the part of it that computes:

- **`g.get`** reads a dotted path such as `"user.name"` out of an object, and
  reads a named cookie or a `localStorage` entry.
- **`g.set`** writes a dotted path into an object, creating the missing
  levels as `{}` on the way.
- **`g.clean`** HTML-escapes a value.
- **`g.tpl`** fills the `{{ path }}` placeholders of a template with the
  cleaned values found in the data, once per item when the data is an array.
- **`g.map`** applies a callback to every item of an array, or once to
  anything else.
- **`g.setup`** merges options into the library's settings.
- **`g.req`** needs its request URL (the base URL plus the `get` query
  string), what it sends, and how the outcome reaches the callback.

JavaScript values are the datatype `JsValues.JsVal`:

- `undefined`, `null`, booleans, integer numbers and strings;
- arrays and plain objects, as trees of values.

ToBoolean, ToString and property reads follow JavaScript. The library runs
in strict mode, so reading or writing a property of `null`, or writing a
property of a primitive, throws a `TypeError`. A `Result` makes that outcome
visible.

Each module models the following:

- `Strings`: `split`, `join` and `trim`.
- `JsValues`: values, truthiness, `||`, property access, `Object.keys` as a
  set, and `String(v)`.
- `Cookies`: the cookie branch of `get`.
- `PathAccess`: the object branch of `get` and of `set`, and `get`'s
  dispatch over its three stores.
- `Escape`: `clean`, its inverse, and how an HTML parser reads its output
  back.
- `Templates`: `map` and `tpl`.
- `Uri`: `encodeURIComponent`, following section 19.2.6 of ECMA-262, and its
  inverse.
- `Requests`: the computations inside `req`.
- `Library`: the `g.settings` state, as a class with `setup`, and the part of
  `req` that reads the settings.

Some parts of the source are loops or change state. All but one of these
are methods whose `ensures` ties the result to a specification function. The
lemmas then state their properties about that function:

- the path walk of `get`: `PathAccess.GetFromObject`;
- the cookie scan: `Cookies.ReadCookie`;
- the six passes of `clean`: `Escape.Clean`;
- the loop of `map`: `Templates.Map`;
- `setup`'s update of the settings: `Library.Library.Setup`.

The exception is the loop of `set` (index.js:141-151). It walks the path one
level at a time and writes into the objects it passes. The model is the
recursive function `PathAccess.SetPath`, which computes the new value of every
level, because the value model has no shared objects to write into.

## Model

| member | source | states |
|---|---|---|
| Strings.Split | index.js:135 | `key.split('.')` gives at least one part, and no part contains the separator. |
| Strings.Join | index.js:86-88 | Joining no parts gives ""; otherwise the first part begins the result. |
| Strings.JoinSplit | index.js:135 | Joining the pieces of `key.split('.')` with `.` gives the key back: the split loses nothing. |
| Strings.SplitJoin | index.js:202 | Splitting a join of parts that do not contain the separator gives the parts back. |
| Strings.SplitFree | index.js:180 | A key without `.` splits into itself alone. |
| Strings.SplitAfterFree | index.js:202 | A string cut at its first separator splits into its first part followed by the split of the rest. |
| Strings.Trim | index.js:311 | `trim()` returns a contiguous slice with only white space removed on either side, and starts and ends with a non-space character. |
| Strings.TrimAfterLeftTrim | index.js:310-311 | Trimming after the regex has already stripped the leading white space gives the same path as trimming the raw placeholder text. |
| JsValues.Or | index.js:187 | `x \|\| y` is truthy iff either operand is, and it is `x` whenever `x` is truthy. |
| JsValues.NatToString | index.js:295 | The decimal form of a number has only digits, no leading zero, and denotes the number. |
| JsValues.ArrayIndex | index.js:186 | A property name reads an array element only when it is the canonical decimal form of the index. |
| JsValues.CanonicalDigits | index.js:186 | A canonical numeral is the decimal form of the number it denotes. |
| JsValues.IndexOfNatToString | index.js:186 | Every index's decimal form reads that index back. |
| JsValues.PropOwn | index.js:186 | Reading a property that is not an own key, nor the `length` of an array or string, gives `undefined`; an index of a string reads a one-character string. |
| JsValues.ToStr | index.js:295 | `String(n)` of a non-negative integer is its canonical index form, and of a negative one starts with `-` and is no array index. |
| JsValues.AtAppend | index.js:183-191 | Walking a path is walking its first part and then the rest from where that ends. |
| JsValues.AtNullish | index.js:186 | Below `undefined` or `null` every non-empty path reads `undefined`. |
| JsValues.OwnEntries | index.js:73 | The own enumerable properties of a value are exactly its keys (the fields of an object, the indices of an array or string), with their values. |
| Cookies.StripSpaces | index.js:207-209 | After the loop the entry does not start with a space. |
| Cookies.StripSpacesSuffix | index.js:207-209 | The loop removes a run of leading spaces and nothing else. |
| Cookies.CookieValue | index.js:200-217 | An empty cookie string yields nothing, and a found value never contains `;`. |
| Cookies.FirstMatch | index.js:204-214 | The scan stops at the first entry, after its leading spaces, that begins with `key=`; no earlier entry matches. |
| Cookies.FindCookie | index.js:200-217 | Nothing is found iff no entry matches, and a found value is the text after `key=` in the first matching entry. |
| Cookies.ReadCookie | index.js:200-217 | The loop returns the first matching entry's value when there is one and the default value otherwise. |
| Cookies.ReadBack | index.js:200-217 | In a cookie string of well-formed `name=value` pairs, the lookup of a key finds nothing iff no cookie has that name, and otherwise finds the value of the first cookie with that name. |
| Cookies.NameMatch | index.js:211 | An entry `name=value` begins with `key=` iff the name is the key. |
| Cookies.SplitHeader | index.js:202-209 | Splitting `"a=1; b=2"` at `;` gives the entries, every one after the first with exactly one leading space. |
| PathAccess.GetInObject | index.js:183-193 | The result is the value at the path or `defaultValue \|\| false`: the value when every step is truthy, the fallback when the result would be falsy. |
| PathAccess.GetValue | index.js:174-218 | `get` throws iff `where` is `null`; a missing `localStorage` key or cookie gives the default, and a `where` that is neither an object nor one of those two strings gives `undefined`. |
| PathAccess.GetFromObject | index.js:174-194 | The path walk throws on `null`, returns the value at the path when every step is truthy, and returns `defaultValue \|\| false` otherwise. |
| PathAccess.Get | index.js:174-218 | `get` walks an object-typed `where`, reads `localStorage` (the stored string `\|\| defaultValue`) or the cookies for the strings "localStorage" and "cookie", and returns `undefined` for anything else. |
| PathAccess.GetOneSegment | index.js:183-193 | A key without `.` reads one field: the field when it is truthy, the fallback otherwise. |
| PathAccess.GetFalsyStep | index.js:186-188 | One missing or falsy step anywhere on the path gives the fallback, whose truthiness is that of the default. |
| PathAccess.Put | index.js:151 | Writing `c[k] = v` changes property `k` to `v` and no other property. |
| PathAccess.SetPath | index.js:141-152 | A write that succeeds started from a value it could enter. |
| PathAccess.Set | index.js:134-153 | `set` throws iff the walk meets a level it cannot enter; otherwise the path reads back the value, and the returned object is the last level of the path. |
| PathAccess.SetThenAt | index.js:134-153 | After `set`, the path reads back the written value, every level of the path is a container, and the returned container is the last level. |
| PathAccess.SetThenGet | index.js:134-153 | `get` of a key just `set` to a truthy value returns that value. |
| PathAccess.SetFrame | index.js:134-153 | `set` changes nothing off the written path. |
| PathAccess.SetCreates | index.js:144-146 | An `undefined` or `null` level on the path becomes an object holding only the next segment. |
| PathAccess.SetFromEmpty | index.js:136-151 | Starting from `{}`, `set` succeeds and every level holds only its next segment. |
| PathAccess.FirstBlocked | index.js:141-151 | Finds the first level of the path that is neither an object nor an array; every level before it is one. |
| PathAccess.SetThrows | index.js:141-151 | `set` throws iff the walk meets a level it cannot enter: a `null` root, or a primitive that is not `undefined` or `null` below the root (those become `{}`). |
| Escape.ReplaceAll | index.js:295 | Every character of the output comes from the replacement or is a character of the input other than the one replaced; so a replacement without that character removes it. |
| Escape.ReplaceAllAppend | index.js:295 | A global one-character `replace` works piece by piece. |
| Escape.ReplaceAllAbsent | index.js:295 | `replace` of a character that does not occur leaves the string unchanged. |
| Escape.PassesAppend | index.js:294-296 | The sequence of replacement passes works piece by piece. |
| Escape.PassesOnOneChar | index.js:294-296 | The first k passes turn a single character into its escape when it is one of the first k special characters, and leave it unchanged otherwise. No later pass touches an earlier replacement. |
| Escape.PassesAreCharwise | index.js:294-296 | The six sequential passes equal escaping every character on its own. |
| Escape.CleanValue | index.js:286-299 | `clean` gives "" for a falsy value; otherwise its output has no markup character and unescapes to the string form of the value. |
| Escape.Clean | index.js:286-299 | `clean` returns "" for a falsy argument, and otherwise the per-character escape of its string form. |
| Escape.EscapedHasNoMarkup | index.js:287-288 | After `clean` no `<`, `>`, `"`, `'` or `/` is left. |
| Escape.EscapedPlain | index.js:294-296 | A string without special characters is returned unchanged. |
| Escape.EscapeTwice | index.js:287-296 | `clean` is not idempotent: cleaning "&" twice gives "&amp;amp;". |
| Escape.UnescapeEscaped | index.js:287-296 | Escaping is injective: the entities read back as the original string. |
| Escape.QuoteBeforeHexDigit | index.js:288 | As written, `'` followed by any hex digit `d` becomes `&#x27d`. An HTML parser reads that as the one character U+027d (U+027A for `'a`), not as the two characters. |
| Escape.EscapedFixed | index.js:288 | With `;` closing the last two entities, the output still carries no markup characters. |
| Escape.HtmlDecodeEscapedFixed | index.js:288 | With `;` closing the last two entities, an HTML parser reads every escaped string back as the original. |
| Templates.Map | index.js:6-19 | `map` calls the callback once on a non-array, and otherwise gives an array of the same length holding the callback's result on each item in order. |
| Templates.MatchAtMeans | index.js:310 | The pattern matches at a position iff `{{` starts there and the first `}` after it begins `}}`. |
| Templates.Capture | index.js:310 | The captured text is the placeholder's inner text with a run of leading white space removed, and starts with no white space. |
| Templates.HoleValue | index.js:311 | A placeholder throws iff the data is `null`; otherwise it inserts no markup character other than `&`. |
| Templates.Render | index.js:309-313 | Rendering throws iff the data is `null` and the template has a placeholder. |
| Templates.JoinResults | index.js:316-317 | The per-item renderings join into an error iff one of them throws. |
| Templates.TplValue | index.js:305-318 | `tpl` throws iff the template has a placeholder and the data is `null` or an array holding `null`. |
| Templates.HasHoleMeans | index.js:310 | A list of pieces has a placeholder iff one of its pieces is one. |
| Templates.CloseAt | index.js:310 | Finds the first `}` at or after a position. |
| Templates.Scan | index.js:310 | Placeholder text never contains `}`. |
| Templates.UnscanScan | index.js:310 | Cutting the template at the pattern's matches loses nothing. |
| Templates.CapturePath | index.js:310-311 | The path a placeholder looks up is its inner text, trimmed. |
| Templates.Tpl | index.js:305-318 | `tpl` renders the template once for non-array data, and for array data joins the per-item renderings with "". |
| Templates.NoPlaceholders | index.js:310 | A template with no match renders as itself, whatever the data. |
| Templates.MissingRendersEmpty | index.js:311 | A placeholder whose path is missing or falsy in the data renders as "". |
| Templates.PieceValueThrows | index.js:310-311 | One piece throws iff it is a placeholder and the data is `null`. |
| Templates.TplEmptyArray | index.js:316-317 | An empty array of data renders as "". |
| Templates.TplSingle | index.js:316-317 | A one-item array renders as its item alone. |
| Templates.TplArrayAppend | index.js:316-317 | One more array item appends its rendering to the output. |
| Templates.ScanPlainPrefix | index.js:310 | Text without `{` passes through the scan unchanged, whatever follows it. |
| Templates.RenderAppend | index.js:310 | Rendering pieces one list after another concatenates the outputs, and throws iff either list throws. |
| Templates.RenderText | index.js:310 | Text renders as itself. |
| Templates.NamePlaceholder | index.js:311 | `{{name}}` on `{name: v}` gives `v` when `v` is plain text. |
| Templates.ListItemRender | index.js:305-318 | `<li>{{name}}</li>` on `{name: v}` gives `<li>v</li>`. |
| Templates.ListExample | index.js:305-318 | `<li>{{name}}</li>` on a two-item array gives the two list items in order. |
| Uri.PercentByte | index.js:86 | Every encoded byte takes three characters: `%` and two hex digits whose value is the byte. |
| Uri.EncodeChar | index.js:86 | A character encodes as at least one character, all unreserved or `%`. |
| Uri.EncodeUriComponent | index.js:86 | The encoding is at least as long as the string and holds only unreserved characters and `%`, in particular no `&`, `=` or `#`. |
| Uri.DecodeTriplesPrefix | index.js:86 | Decoding fewer `%XX` triples reads the same first byte. |
| Uri.DecodePercentBytes | index.js:86 | The percent-encoded bytes decode back to those bytes. |
| Uri.Utf8RoundTrip | index.js:86 | The UTF-8 form of a character announces its own length in its lead byte and decodes back to the character. |
| Uri.DecodeEncode | index.js:86 | `decodeURIComponent` undoes `encodeURIComponent` on every string. |
| Requests.JoinUrl | index.js:82 | The URL is used unchanged iff the base URL is falsy, and otherwise it comes after the base URL and a `/`. |
| Requests.QueryPair | index.js:86 | A pair is the key, `=`, then a value that contains no `&` or `=` and decodes to the string form of the property. |
| Requests.QueryString | index.js:84-89 | The query string is empty iff there are no keys, and it begins with the pair of the first key. |
| Requests.RequestUrl | index.js:82-89 | The URL begins with the joined URL. A query string `?...` follows iff the method is exactly "get" and the data is truthy. |
| Requests.EmptyQuery | index.js:84-88 | Truthy data without own keys still adds a bare `?`. |
| Requests.OtherMethodNoQuery | index.js:84 | Any method name but "get" adds no query string. |
| Requests.FirstEq | index.js:86 | Finds the first `=` of a pair. |
| Requests.PlainDecodes | index.js:86 | Unreserved text is its own encoding and decoding. |
| Requests.QueryRoundTrip | index.js:84-89 | For keys of unreserved characters, a server parsing the query string gets every key, in `Object.keys` order, with the string form of its value. |
| Requests.KeyWithAmpersand | index.js:86 | As written, keys go unencoded, so a key holding `&` is read back as two pairs. |
| Requests.QueryEncodedRoundTrip | index.js:86 | With keys encoded as well, every key and value reads back, whatever characters they hold. |
| Requests.LowerAscii | index.js:84 | Lower-casing changes only A-Z, position by position. |
| Requests.UpperCaseGet | index.js:84-91 | As written, "GET" with data `{a: 1}` opens the bare URL, while "get" adds `?a=1`. |
| Requests.RequestUrlAnyCase | index.js:84 | With the method name compared without regard to case, every spelling of "get" builds the URL that "get" builds, and any other method builds the bare URL. |
| Requests.Sends | index.js:98-130 | The last `send` call never carries data. |
| Requests.BodySentTwice | index.js:98-130 | As written, a request with a body calls `send(data)` and then `send()`. |
| Requests.SendsOnce | index.js:98-130 | One `send` call, carrying the data iff the method is not "get" and the data is truthy. |
| Requests.IsSuccess | index.js:111 | Success is exactly a 2xx or 3xx status. |
| Requests.Settle | index.js:102-128 | The callback gets no call on a timeout iff no timeout is set. It reports success iff a response has a status in [200, 400), and receives a body iff a response arrived. |
| Library.Assign | index.js:73 | `Object.assign` keeps the union of the keys. The options' own values win, and every other setting is kept. |
| Library.AssignIdempotent | index.js:73 | Applying the same options twice is the same as applying them once. |
| Library.ReadAfterAssign | index.js:73-80 | A one-segment option with a truthy value is what `get` then reads from the settings. |
| Library.Library.constructor | index.js:4 | A new library has no settings. |
| Library.Library.Setup | index.js:68-74 | The new settings are the old settings (or `{}` when there were none) merged with the options. |
| Library.Library.ReadSetting | index.js:78-80 | Reading a setting is `get(key, settings, default)`, which never throws on the settings. |
| Library.Library.Prepare | index.js:76-130 | The request's URL comes from the `baseUrl` setting and the query string, its timeout and headers from the settings, and what is sent from the method and the data. |
| Library.NoSetupNoBase | index.js:78-82 | Before any `setup` the URL is used as given. |
| Library.BaseUrlAfterSetup | index.js:68-82 | After `setup({baseUrl: b})` every URL is put under `b/`. |

## Left out

- The DOM helpers (`el`, `classes`, `remove`, `html`, `text`, `append`, `prepend`, `bind`, `attr`, `value`, `values`) are not modelled. They only touch the document.
- `tpl` reads its template text from the DOM, so `Templates.Tpl` takes that text as a parameter.
- The `XMLHttpRequest` transport is not modelled: `open`, the `Content-Type` header, the loop over the `headers` setting, and the timers. `Requests.Settle` takes the transport's event as a parameter.
- `JSON.parse` of the response body is not modelled; the body arrives already parsed.
- `toUpperCase` of the method name is not modelled; only the method names that reach the URL logic matter.
- The cookie and `localStorage` writes of `set` are not modelled; they are browser I/O. The cookie write also uses the global `name` where `key` is evidently meant.
- The cookie string and `localStorage` contents that `get` reads are the parameter `PathAccess.Browser`.
- `watch` is not modelled: it installs property accessors, which the value model has no notion of.
- `d` is not modelled: it only logs to the console.
- `is` is not modelled on its own: it is the `typeof` test `JsValues.IsObjectType`.
- Numbers are unbounded integers. JavaScript numbers are doubles, which lose precision above 2^53; that rounding is not modelled. Fractions, `NaN` and infinities are not modelled either, nor is a number's exponent form in `String(v)`.
- Strings are sequences of Unicode scalar values, one `char` per code point. Lone surrogates, and the `URIError` that `encodeURIComponent` throws on them, are not modelled.
- `JsValues.Prop` and `JsValues.OwnKeys` count string lengths and indices in code points, not UTF-16 code units: `"😀".length` is 2 in JavaScript and 1 here, and its index keys differ accordingly.
- Only own data properties exist in the value model. Prototype members (`toString`, `length` of an object, getters) and `__proto__` are left out of `Prop`, `OwnKeys` and `Library.Assign`.
- `Object.keys` order is not modelled. `Requests.KeyOrder` accepts any order that lists every own key once, so the query-string lemmas hold for every order.
- `PathAccess.SetPath` models `set` on values: there is no aliasing, and the caller's `where` object is not updated in place. `set` returns the new root alongside the innermost container.
- `PathAccess.SetPath` and `PathAccess.Set` require that every write into an array lands on an existing index. A write at or past the end, and a write of a named property of an array (`length` included), are excluded. JavaScript would append an element (at the end), grow the array with holes (past it), truncate or extend it (`length`), or add a property the value model cannot hold (any other name); the model does not capture these.
- `Templates.Map` does not model the `NodeList` case of `map`: node lists come from the DOM.
- `Library.Library.Setup` does not model that `Object.assign` mutates the settings object in place, which other holders of that object would observe.
- `Escape.HtmlDecode` models only the numeric hexadecimal references and the four named references that `clean` writes. The parser's remapping of references 0x80-0x9F to windows-1252 characters is left out.

## Findings

| source | as written | input that shows it | evidently intended | confidence | as-written member | corrected member |
|---|---|---|---|---|---|---|
| index.js:288 | `'` and `/` become `&#x27` and `&#x2F`, with no closing `;`. | `clean("'a")` gives `&#x27a`, which an HTML parser reads as the single character U+027A. | `&#x27;` and `&#x2F;`, so every escaped string reads back as itself. | not executed | Escape.QuoteBeforeHexDigit | Escape.HtmlDecodeEscapedFixed |
| index.js:84 | The query string is added only when the method is exactly `'get'`, while line 91 sends the upper-cased name. | `req('GET', url, {a: 1})` opens `url` without `?a=1`, so the data is lost. | Compare the method name without regard to case. | not executed | Requests.UpperCaseGet | Requests.RequestUrlAnyCase |
| index.js:98-130 | `send(data)` is followed by an unconditional `send()`. | `req('post', url, {a: 1})` calls `send` twice on the same request; the second call throws `InvalidStateError`. | One `send`, carrying the data when there is a body. | not executed | Requests.BodySentTwice | Requests.SendsOnce |
| index.js:86 | Query keys are concatenated without `encodeURIComponent`. | `{"a&b": "1"}` gives `a&b=1`, which a server reads as two pairs. | Encode the key as well as the value. | not executed | Requests.KeyWithAmpersand | Requests.QueryEncodedRoundTrip |
