/**
  The cookie branch of `get` (index.js:200-217): a scan of the raw
  `document.cookie` string, which the model takes as a parameter.
 */
module Cookies {
  import opened Strings
  import opened JsValues

  /** `c` with its leading spaces removed; only U+0020 counts, as in the
      `while (c.charAt(0) === ' ')` loop. */
  function StripSpaces(c: string): (r: string)
    ensures r == [] || r[0] != ' '
  {
    if c != [] && c[0] == ' ' then StripSpaces(c[1..]) else c
  }

  /** Stripping removes a run of spaces from the front and nothing else. */
  lemma {:induction false} StripSpacesSuffix(c: string)
    ensures var r := StripSpaces(c);
      |r| <= |c| && r == c[|c| - |r|..] && Blank(c[..|c| - |r|])
  {
    if c != [] && c[0] == ' ' {
      StripSpacesSuffix(c[1..]);
      var r := StripSpaces(c);
      assert c[1..][|c| - 1 - |r|..] == c[|c| - |r|..];
      assert forall i :: 1 <= i < |c| - |r| ==> c[i] == c[1..][..|c| - 1 - |r|][i - 1];
    } else {
      assert c[|c|..] == [];
    }
  }

  /** Nothing but U+0020 spaces. */
  predicate Blank(s: string) {
    forall i :: 0 <= i < |s| ==> s[i] == ' '
  }

  /** The cookie entry `entry` is the one named by `nameEQ` (which is `key + "="`). */
  predicate EntryMatches(entry: string, nameEQ: string) {
    StartsWith(StripSpaces(entry), nameEQ)
  }

  /** The position of the first entry named by `nameEQ`, or `|entries|` if there is none. */
  function FirstMatch(entries: seq<string>, nameEQ: string): (k: nat)
    ensures k <= |entries|
    ensures forall j :: 0 <= j < k ==> !EntryMatches(entries[j], nameEQ)
    ensures k < |entries| ==> EntryMatches(entries[k], nameEQ)
  {
    if entries == [] || EntryMatches(entries[0], nameEQ) then 0
    else
      var k := 1 + FirstMatch(entries[1..], nameEQ);
      assert forall j :: 1 <= j < k ==> entries[j] == entries[1..][j - 1];
      k
  }

  /** The raw text after `nameEQ` in the first matching entry, if any. */
  function FindCookie(entries: seq<string>, nameEQ: string): (r: Option<string>)
    ensures r.None? <==> forall i :: 0 <= i < |entries| ==> !EntryMatches(entries[i], nameEQ)
    ensures forall i :: (0 <= i < |entries| && EntryMatches(entries[i], nameEQ)
                         && (forall j :: 0 <= j < i ==> !EntryMatches(entries[j], nameEQ)))
                         ==> r == Some(StripSpaces(entries[i])[|nameEQ|..])
  {
    var k := FirstMatch(entries, nameEQ);
    if k < |entries| then Some(StripSpaces(entries[k])[|nameEQ|..]) else None
  }

  /** What the cookie lookup yields for `key` in the cookie string `cookie`. */
  function CookieValue(cookie: string, key: string): (r: Option<string>)
    ensures r.Some? ==> ';' !in r.value
    ensures cookie == "" ==> r.None?
  {
    var entries := Split(cookie, ';');
    var r := FindCookie(entries, key + "=");
    if r.Some? then
      var k := FirstMatch(entries, key + "=");
      var e := StripSpaces(entries[k]);
      StripSpacesSuffix(entries[k]);
      assert forall x :: x in e ==> x in entries[k];
      assert forall x :: x in e[|key| + 1..] ==> x in e;
      r
    else
      r
  }

  /** The cookie branch of `get`: the loop over the `;`-separated entries. */
  method ReadCookie(cookie: string, key: string, defaultValue: JsVal) returns (r: JsVal)
    ensures CookieValue(cookie, key).Some? ==> r == Str(CookieValue(cookie, key).value)
    ensures CookieValue(cookie, key).None? ==> r == defaultValue
  {
    var nameEQ := key + "=";
    var ca := Split(cookie, ';');
    ghost var found := FindCookie(ca, nameEQ);
    assert found == CookieValue(cookie, key);
    var i := 0;
    while i < |ca|
      invariant 0 <= i <= |ca|
      invariant forall j :: 0 <= j < i ==> !EntryMatches(ca[j], nameEQ)
    {
      var c := ca[i];
      while |c| > 0 && c[0] == ' '
        invariant StripSpaces(c) == StripSpaces(ca[i])
        decreases |c|
      {
        c := c[1..];
      }
      assert c == StripSpaces(ca[i]);
      if StartsWith(c, nameEQ) {
        assert found == Some(c[|nameEQ|..]);
        return Str(c[|nameEQ|..]);
      }
      assert !EntryMatches(ca[i], nameEQ);
      i := i + 1;
    }
    assert found.None?;
    return defaultValue;
  }

  // ---- Reading back what the browser writes ----

  /** A cookie the browser lists as `name=value`: a non-empty name (a nameless
      cookie is listed as its value alone, without `=`), no `;` anywhere, no
      `=` in the name, and the name does not start with a space. */
  predicate WellFormed(name: string, value: string) {
    name != [] && ';' !in name && '=' !in name && name[0] != ' ' && ';' !in value
  }

  /** The `document.cookie` string for a list of cookies: `name=value` pairs joined by "; ". */
  function CookieHeader(cookies: seq<(string, string)>): string {
    Join(seq(|cookies|, i requires 0 <= i < |cookies| => cookies[i].0 + "=" + cookies[i].1), "; ")
  }

  /** Looking up a name in a cookie string built from well-formed cookies
      finds the value of the first cookie with that name, raw, and finds
      nothing when no cookie has that name. */
  lemma ReadBack(cookies: seq<(string, string)>, key: string)
    requires forall i :: 0 <= i < |cookies| ==> WellFormed(cookies[i].0, cookies[i].1)
    requires '=' !in key
    ensures CookieValue(CookieHeader(cookies), key).None? <==> forall i :: 0 <= i < |cookies| ==> cookies[i].0 != key
    ensures forall i :: (0 <= i < |cookies| && cookies[i].0 == key && (forall j :: 0 <= j < i ==> cookies[j].0 != key))
                         ==> CookieValue(CookieHeader(cookies), key) == Some(cookies[i].1)
  {
    var ps := seq(|cookies|, i requires 0 <= i < |cookies| => cookies[i].0 + "=" + cookies[i].1);
    var entries := Split(CookieHeader(cookies), ';');
    var nameEQ := key + "=";
    if cookies == [] {
      assert entries == [""];
    } else {
      forall i | 0 <= i < |ps| ensures ';' !in ps[i] {
        assert ps[i] == cookies[i].0 + "=" + cookies[i].1;
      }
      SplitHeader(ps);
      forall i | 0 <= i < |cookies|
        ensures StripSpaces(entries[i]) == ps[i]
        ensures EntryMatches(entries[i], nameEQ) <==> cookies[i].0 == key
      {
        StripNoLeadingSpace(cookies[i].0, cookies[i].1);
        if i > 0 {
          assert (" " + ps[i])[1..] == ps[i];
        }
        NameMatch(cookies[i].0, cookies[i].1, key);
      }
      forall i | 0 <= i < |cookies| && cookies[i].0 == key
        ensures StripSpaces(entries[i])[|nameEQ|..] == cookies[i].1
      {
        assert ps[i] == key + "=" + cookies[i].1;
      }
    }
  }

  lemma StripNoLeadingSpace(name: string, value: string)
    requires name == [] || name[0] != ' '
    ensures StripSpaces(name + "=" + value) == name + "=" + value
  {
    if name == [] {
      assert (name + "=" + value)[0] == '=';
    } else {
      assert (name + "=" + value)[0] == name[0];
    }
  }

  /** An entry `name=value` is the one asked for exactly when its name is the key. */
  lemma NameMatch(name: string, value: string, key: string)
    requires '=' !in name && '=' !in key
    ensures StartsWith(name + "=" + value, key + "=") <==> name == key
  {
    var e := name + "=" + value;
    if StartsWith(e, key + "=") {
      assert forall i :: 0 <= i < |key| ==> e[i] == key[i];
      FirstEquals(e, |name|, |key|);
      assert name == e[..|name|];
    }
  }

  /** Two positions that each hold the first `=` of `e` are the same. */
  lemma FirstEquals(e: string, a: nat, b: nat)
    requires a < |e| && b < |e| && e[a] == '=' && e[b] == '='
    requires forall i :: 0 <= i < a ==> e[i] != '='
    requires forall i :: 0 <= i < b ==> e[i] != '='
    ensures a == b
  {
  }

  /** The browser's "; " separators become `;` plus a leading space on every entry but the first. */
  lemma {:induction false} SplitHeader(ps: seq<string>)
    requires |ps| >= 1
    requires forall i :: 0 <= i < |ps| ==> ';' !in ps[i]
    ensures var e := Split(Join(ps, "; "), ';');
      |e| == |ps| && e[0] == ps[0] && forall i :: 1 <= i < |ps| ==> e[i] == " " + ps[i]
  {
    if |ps| == 1 {
      SplitFree(ps[0], ';');
    } else {
      var tail := Join(ps[1..], "; ");
      SplitHeader(ps[1..]);
      var e' := Split(tail, ';');
      assert Join(ps, "; ") == ps[0] + [';'] + ([' '] + tail);
      SplitAfterFree(ps[0], ';', [' '] + tail);
      assert ([' '] + tail)[1..] == tail;
      var e := Split(Join(ps, "; "), ';');
      assert e == [ps[0]] + ([[' '] + e'[0]] + e'[1..]);
      forall i | 1 <= i < |ps| ensures e[i] == " " + ps[i] {
        if i == 1 {
          assert e[1] == [' '] + e'[0];
        } else {
          assert e[i] == e'[i - 1];
        }
      }
    }
  }
}
