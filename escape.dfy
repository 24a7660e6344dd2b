/**
  HTML escaping: `g.clean` (index.js:286-299), six global replacements run
  one after the other, and what an HTML parser makes of its output.
 */
module Escape {
  import opened Strings
  import opened JsValues

  /** The characters `clean` replaces, in the order of its passes. */
  const Specials: seq<char> := ['&', '<', '>', '"', '\'', '/']

  /** What each of them is replaced with; the last two carry no `;`. */
  const Entities: seq<string> := ["&amp;", "&lt;", "&gt;", "&quot;", "&#x27", "&#x2F"]

  /** `s.replace(new RegExp(c, 'g'), r)` for a character `c` that is not
      special in a regular expression (none of `Specials` is). */
  function ReplaceAll(s: string, c: char, r: string): (t: string)
    ensures c !in r ==> c !in t
    ensures forall i :: 0 <= i < |t| ==> t[i] in r || (t[i] in s && t[i] != c)
  {
    if s == [] then []
    else
      assert s == [s[0]] + s[1..];
      var h := if s[0] == c then r else [s[0]];
      var rest := ReplaceAll(s[1..], c, r);
      assert forall i :: |h| <= i < |h + rest| ==> (h + rest)[i] == rest[i - |h|];
      h + rest
  }

  lemma {:induction false} ReplaceAllAppend(a: string, b: string, c: char, r: string)
    ensures ReplaceAll(a + b, c, r) == ReplaceAll(a, c, r) + ReplaceAll(b, c, r)
  {
    if a == [] {
      assert a + b == b;
    } else {
      assert (a + b)[1..] == a[1..] + b;
      ReplaceAllAppend(a[1..], b, c, r);
    }
  }

  lemma {:induction false} ReplaceAllAbsent(s: string, c: char, r: string)
    requires c !in s
    ensures ReplaceAll(s, c, r) == s
  {
    if s != [] {
      assert c !in s[1..] by {
        assert forall x :: x in s[1..] ==> x in s;
      }
      ReplaceAllAbsent(s[1..], c, r);
      assert [s[0]] + s[1..] == s;
    }
  }

  /** The string after the first `n` passes of `clean`'s loop. */
  function Passes(s: string, n: nat): string
    requires n <= |Specials|
  {
    if n == 0 then s else ReplaceAll(Passes(s, n - 1), Specials[n - 1], Entities[n - 1])
  }

  /** The escape of one character, on its own. */
  function EscapeChar(ch: char): string {
    if ch == '&' then "&amp;"
    else if ch == '<' then "&lt;"
    else if ch == '>' then "&gt;"
    else if ch == '"' then "&quot;"
    else if ch == '\'' then "&#x27"
    else if ch == '/' then "&#x2F"
    else [ch]
  }

  /** Every character escaped independently. */
  function Escaped(s: string): string {
    if s == [] then [] else EscapeChar(s[0]) + Escaped(s[1..])
  }

  lemma {:induction false} PassesAppend(a: string, b: string, n: nat)
    requires n <= |Specials|
    ensures Passes(a + b, n) == Passes(a, n) + Passes(b, n)
  {
    if n > 0 {
      PassesAppend(a, b, n - 1);
      ReplaceAllAppend(Passes(a, n - 1), Passes(b, n - 1), Specials[n - 1], Entities[n - 1]);
    }
  }

  lemma ReplaceAllOne(ch: char, c: char, r: string)
    ensures ReplaceAll([ch], c, r) == if ch == c then r else [ch]
  {
    assert [ch][1..] == [];
  }

  /** No escape holds a character of the passes after the first. */
  lemma EscapeCharLacksLaterSpecials(ch: char)
    ensures forall j :: 1 <= j < |Specials| ==> Specials[j] !in EscapeChar(ch)
  {
  }

  /** The first `k` passes on one character: its escape if it is among the
      first `k` special characters, the character itself otherwise. The
      first pass, on `&`, comes before any replacement text exists, and no
      replacement text holds a character of a later pass. */
  lemma {:induction false} PassesOnOneChar(ch: char, k: nat)
    requires 1 <= k <= |Specials|
    ensures Passes([ch], k) == if ch in Specials[..k] then EscapeChar(ch) else [ch]
  {
    if k == 1 {
      ReplaceAllOne(ch, '&', "&amp;");
      assert Specials[..1] == ['&'];
    } else {
      PassesOnOneChar(ch, k - 1);
      var s := Passes([ch], k - 1);
      var c := Specials[k - 1];
      assert Specials[..k] == Specials[..k - 1] + [c];
      if ch in Specials[..k - 1] {
        EscapeCharLacksLaterSpecials(ch);
        ReplaceAllAbsent(s, c, Entities[k - 1]);
      } else {
        ReplaceAllOne(ch, c, Entities[k - 1]);
        if ch == c {
          EscapeSpecial(k - 1);
        }
      }
    }
  }

  /** Each special character's escape is its entity. */
  lemma EscapeSpecial(j: nat)
    requires j < |Specials|
    ensures EscapeChar(Specials[j]) == Entities[j]
  {
  }

  /** The six sequential passes are the same as escaping each character on its own. */
  lemma {:induction false} PassesAreCharwise(s: string)
    ensures Passes(s, 6) == Escaped(s)
  {
    if s != [] {
      assert s == [s[0]] + s[1..];
      PassesAppend([s[0]], s[1..], 6);
      PassesOnOneChar(s[0], 6);
      assert Specials[..6] == Specials;
      assert s[0] !in Specials ==> EscapeChar(s[0]) == [s[0]];
      assert Escaped(s) == EscapeChar(s[0]) + Escaped(s[1..]);
      PassesAreCharwise(s[1..]);
      assert Passes(s, 6) == Passes([s[0]], 6) + Passes(s[1..], 6);
    } else {
      PassesOnEmpty(6);
    }
  }

  lemma {:induction false} PassesOnEmpty(n: nat)
    requires n <= |Specials|
    ensures Passes([], n) == []
  {
    if n > 0 {
      PassesOnEmpty(n - 1);
    }
  }

  /** What `clean(str)` returns: "" for a falsy argument, otherwise the escape
      of its string form. */
  function CleanValue(v: JsVal): (r: string)
    ensures forall i :: 0 <= i < |r| ==> r[i] !in "<>\"'/"
    ensures Truthy(v) ==> Unescape(r) == ToStr(v)
    ensures !Truthy(v) ==> r == ""
  {
    if Truthy(v) then
      EscapedHasNoMarkup(ToStr(v));
      UnescapeEscaped(ToStr(v));
      Escaped(ToStr(v))
    else ""
  }

  /** `g.clean`: the loop over the six (character, replacement) pairs. */
  method Clean(str: JsVal) returns (r: string)
    ensures r == CleanValue(str)
  {
    var c := Specials;
    var rs := Entities;
    if !Truthy(str) {
      return "";
    }
    var s := ToStr(str);
    for i := 0 to |c|
      invariant s == Passes(ToStr(str), i)
    {
      s := ReplaceAll(s, c[i], rs[i]);
    }
    PassesAreCharwise(ToStr(str));
    return s;
  }

  // ---- What the escaping guarantees ----

  /** No markup-significant character other than `&` survives escaping. */
  lemma {:induction false} EscapedHasNoMarkup(s: string)
    ensures forall i :: 0 <= i < |Escaped(s)| ==> Escaped(s)[i] !in "<>\"'/"
  {
    if s != [] {
      EscapedHasNoMarkup(s[1..]);
      var e := EscapeChar(s[0]);
      assert forall i :: 0 <= i < |e| ==> e[i] !in "<>\"'/";
      assert Escaped(s) == e + Escaped(s[1..]);
      forall i | 0 <= i < |Escaped(s)| ensures Escaped(s)[i] !in "<>\"'/" {
        if i >= |e| {
          assert Escaped(s)[i] == Escaped(s[1..])[i - |e|];
        }
      }
    }
  }

  /** A string without special characters is left as it is. */
  lemma {:induction false} EscapedPlain(s: string)
    requires forall i :: 0 <= i < |s| ==> s[i] !in Specials
    ensures Escaped(s) == s
  {
    if s != [] {
      EscapedPlain(s[1..]);
      assert s == [s[0]] + s[1..];
    }
  }

  /** Escaping is not idempotent: a second pass escapes the `&` of the first. */
  lemma EscapeTwice()
    ensures Escaped(Escaped("&")) == "&amp;amp;"
    ensures Escaped(Escaped("&")) != Escaped("&")
  {
    assert Escaped("&") == "&amp;" by {
      assert "&"[1..] == [];
    }
    var e := "&amp;";
    assert e[1..] == "amp;";
    EscapedPlain("amp;");
    assert Escaped(e) == EscapeChar('&') + Escaped("amp;");
  }

  /** Reads the output of `Escaped` back: each entity that `clean` writes
      becomes its character again, everything else is copied. */
  function Unescape(s: string): string
    decreases |s|
  {
    if s == [] then []
    else if StartsWith(s, "&amp;") then "&" + Unescape(s[5..])
    else if StartsWith(s, "&lt;") then "<" + Unescape(s[4..])
    else if StartsWith(s, "&gt;") then ">" + Unescape(s[4..])
    else if StartsWith(s, "&quot;") then "\"" + Unescape(s[6..])
    else if StartsWith(s, "&#x27") then "'" + Unescape(s[5..])
    else if StartsWith(s, "&#x2F") then "/" + Unescape(s[5..])
    else [s[0]] + Unescape(s[1..])
  }

  lemma UnescapeAfterEntity(ch: char, t: string)
    ensures Unescape(EscapeChar(ch) + t) == [ch] + Unescape(t)
  {
    var e := EscapeChar(ch);
    var s := e + t;
    assert s[|e|..] == t;
    if ch in Specials {
      PrefixExtends(e, t, e);
      if ch == '<' || ch == '>' || ch == '"' {
        MismatchAt(e, t, "&amp;", 1);
      }
      if ch == '>' || ch == '"' {
        MismatchAt(e, t, "&lt;", 1);
      }
      if ch == '"' {
        MismatchAt(e, t, "&gt;", 1);
      }
      if ch == '\'' || ch == '/' {
        MismatchAt(e, t, "&amp;", 1);
        MismatchAt(e, t, "&lt;", 1);
        MismatchAt(e, t, "&gt;", 1);
        MismatchAt(e, t, "&quot;", 1);
      }
      if ch == '/' {
        MismatchAt(e, t, "&#x27", 4);
      }
    } else {
      assert e == [ch];
      forall p | |p| > 0 && p[0] == '&' ensures !StartsWith(s, p) {
        MismatchAt(e, t, p, 0);
      }
      assert s[0] == ch && s[1..] == t;
    }
  }

  /** Escaping loses nothing: `Unescape` undoes it. */
  lemma {:induction false} UnescapeEscaped(s: string)
    ensures Unescape(Escaped(s)) == s
  {
    if s != [] {
      UnescapeEscaped(s[1..]);
      UnescapeAfterEntity(s[0], Escaped(s[1..]));
      assert [s[0]] + s[1..] == s;
    }
  }

  // ---- How an HTML parser reads the output ----

  /** The number a run of hexadecimal digits denotes. */
  function HexNumber(s: string): nat
    requires forall i :: 0 <= i < |s| ==> IsHexDigit(s[i])
  {
    if s == [] then 0 else HexNumber(s[..|s| - 1]) * 16 + HexDigitValue(s[|s| - 1])
  }

  /** The length of the run of hexadecimal digits at the start of `s`. */
  function HexRun(s: string): (n: nat)
    ensures n <= |s| && forall i :: 0 <= i < n ==> IsHexDigit(s[i])
    ensures n < |s| ==> !IsHexDigit(s[n])
  {
    if s == [] || !IsHexDigit(s[0]) then 0 else 1 + HexRun(s[1..])
  }

  /** The character a numeric reference stands for; zero, surrogates and values
      past U+10FFFF become U+FFFD. */
  function RefChar(v: nat): char {
    if (0 < v < 0xD800) || (0xE000 <= v <= 0x10FFFF) then v as char else '\U{FFFD}'
  }

  /** Character-reference decoding as an HTML parser does it in text, for the
      forms that escaping can produce: the named references `&amp;`, `&lt;`,
      `&gt;`, `&quot;`, and hexadecimal references `&#x` that take every hex
      digit that follows, then an optional `;`. */
  function HtmlDecode(s: string): string
    decreases |s|
  {
    if s == [] then []
    else if StartsWith(s, "&amp;") then "&" + HtmlDecode(s[5..])
    else if StartsWith(s, "&lt;") then "<" + HtmlDecode(s[4..])
    else if StartsWith(s, "&gt;") then ">" + HtmlDecode(s[4..])
    else if StartsWith(s, "&quot;") then "\"" + HtmlDecode(s[6..])
    else if (StartsWith(s, "&#x") || StartsWith(s, "&#X")) && HexRun(s[3..]) > 0 then
      var n := HexRun(s[3..]);
      var end := if 3 + n < |s| && s[3 + n] == ';' then 4 + n else 3 + n;
      [RefChar(HexNumber(s[3..3 + n]))] + HtmlDecode(s[end..])
    else [s[0]] + HtmlDecode(s[1..])
  }

  /** As written, a quote followed by a hex digit is escaped to a reference
      that an HTML parser reads as one different character: "'a" becomes
      "&#x27a", which is U+027A. */
  lemma QuoteBeforeHexDigit(d: char)
    requires IsHexDigit(d)
    ensures Escaped(['\'', d]) == "&#x27" + [d]
    ensures HtmlDecode(Escaped(['\'', d])) == [RefChar(0x270 + HexDigitValue(d))]
    ensures HtmlDecode(Escaped(['\'', d])) != ['\'', d]
  {
    var s := ['\'', d];
    assert s[1..] == [d] && [d][1..] == [];
    assert EscapeChar(d) == [d];
    assert Escaped([d]) == [d] + Escaped([]);
    assert Escaped(s) == "&#x27" + Escaped([d]);
    var e := "&#x27" + [d];
    MismatchAt(e, [], "&amp;", 1);
    MismatchAt(e, [], "&lt;", 1);
    MismatchAt(e, [], "&gt;", 1);
    MismatchAt(e, [], "&quot;", 1);
    assert e + [] == e;
    assert e[..3] == "&#x";
    var h := e[3..];
    RefDigits(h, d);
    assert h[..3] == h;
    assert e[6..] == [];
    assert HtmlDecode(e) == [RefChar(HexNumber(h))] + HtmlDecode([]);
  }

  /** The digits of the reference `clean` writes for a quote, followed by one more hex digit. */
  lemma RefDigits(h: string, d: char)
    requires IsHexDigit(d) && h == ['2', '7', d]
    ensures HexRun(h) == 3
    ensures forall i :: 0 <= i < |h| ==> IsHexDigit(h[i])
    ensures HexNumber(h) == 0x270 + HexDigitValue(d)
  {
    assert h[1..] == ['7', d] && h[1..][1..] == [d] && [d][1..] == [];
    assert h[..2] == ['2', '7'] && h[..2][..1] == ['2'] && ['2'][..0] == [];
    assert HexNumber(['2']) == 2;
    assert HexNumber(['2', '7']) == 0x27;
    assert HexNumber(h) == HexNumber(['2', '7']) * 16 + HexDigitValue(d);
  }

  /** The escape with the `;` that `&#x27` and `&#x2F` lack. */
  function EscapeCharFixed(ch: char): string {
    if ch == '\'' then "&#x27;"
    else if ch == '/' then "&#x2F;"
    else EscapeChar(ch)
  }

  /** No character of a fixed entity is markup. */
  lemma FixedEntitySafe(ch: char)
    ensures forall i :: 0 <= i < |EscapeCharFixed(ch)| ==> EscapeCharFixed(ch)[i] !in "<>\"'/"
  {
    if ch == '&' || ch == '<' || ch == '>' || ch == '"' || ch == '\'' || ch == '/' {
    } else {
      assert EscapeCharFixed(ch) == [ch];
    }
  }

  function EscapedFixed(s: string): (r: string)
    ensures forall i :: 0 <= i < |r| ==> r[i] !in "<>\"'/"
  {
    if s == [] then []
    else
      var e := EscapeCharFixed(s[0]);
      FixedEntitySafe(s[0]);
      var r := e + EscapedFixed(s[1..]);
      assert forall i :: |e| <= i < |r| ==> r[i] == EscapedFixed(s[1..])[i - |e|];
      r
  }

  /** The hexadecimal reference `&#x` HEX HEX `;` at the start of `e + t`
      reads as the character with that number, and decoding goes on after
      the `;`. */
  lemma HexRefTwoDigits(e: string, t: string)
    requires |e| == 6 && e[..3] == "&#x" && IsHexDigit(e[3]) && IsHexDigit(e[4]) && e[5] == ';'
    requires e[1] != 'a' && e[1] != 'l' && e[1] != 'g' && e[1] != 'q'
    ensures HtmlDecode(e + t) == [RefChar(HexNumber(e[3..5]))] + HtmlDecode(t)
  {
    var s := e + t;
    MismatchAt(e, t, "&amp;", 1);
    MismatchAt(e, t, "&lt;", 1);
    MismatchAt(e, t, "&gt;", 1);
    MismatchAt(e, t, "&quot;", 1);
    PrefixExtends(e, t, "&#x");
    var h := s[3..];
    assert h[0] == e[3] && h[1] == e[4] && h[2] == ';';
    assert HexRun(h[2..]) == 0;
    assert HexRun(h[1..]) == 1 by {
      assert h[1..][1..] == h[2..];
    }
    assert HexRun(h) == 2;
    assert s[3..5] == e[3..5];
    assert s[6..] == t;
  }

  /** `&#x27;` and `&#x2F;` read back as `'` and `/`. */
  lemma HtmlDecodeAfterHexEntity(ch: char, t: string)
    requires ch == '\'' || ch == '/'
    ensures HtmlDecode(EscapeCharFixed(ch) + t) == [ch] + HtmlDecode(t)
  {
    var e := EscapeCharFixed(ch);
    HexRefTwoDigits(e, t);
    if ch == '\'' {
      assert HexNumber(e[3..5]) == 0x27 by {
        assert e[3..5] == "27" && "27"[..1] == "2" && "2"[..0] == [];
      }
    } else {
      assert HexNumber(e[3..5]) == 0x2F by {
        assert e[3..5] == "2F" && "2F"[..1] == "2" && "2"[..0] == [];
      }
    }
  }

  lemma HtmlDecodeAfterFixedEntity(ch: char, t: string)
    ensures HtmlDecode(EscapeCharFixed(ch) + t) == [ch] + HtmlDecode(t)
  {
    var e := EscapeCharFixed(ch);
    var s := e + t;
    assert s[|e|..] == t;
    if ch == '\'' || ch == '/' {
      HtmlDecodeAfterHexEntity(ch, t);
    } else if ch in Specials {
      PrefixExtends(e, t, e);
      if ch == '<' || ch == '>' || ch == '"' {
        MismatchAt(e, t, "&amp;", 1);
      }
      if ch == '>' || ch == '"' {
        MismatchAt(e, t, "&lt;", 1);
      }
      if ch == '"' {
        MismatchAt(e, t, "&gt;", 1);
      }
    } else {
      assert e == [ch];
      forall p | |p| > 0 && p[0] == '&' ensures !StartsWith(s, p) {
        MismatchAt(e, t, p, 0);
      }
      assert s[0] == ch && s[1..] == t;
    }
  }

  /** With the `;` in place every escaped string reads back as the original. */
  lemma {:induction false} HtmlDecodeEscapedFixed(s: string)
    ensures HtmlDecode(EscapedFixed(s)) == s
  {
    if s != [] {
      HtmlDecodeEscapedFixed(s[1..]);
      HtmlDecodeAfterFixedEntity(s[0], EscapedFixed(s[1..]));
      assert [s[0]] + s[1..] == s;
    }
  }
}
