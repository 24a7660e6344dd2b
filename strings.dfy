/**
  String helpers that the library borrows from the JavaScript built-ins:
  `String.prototype.split` on a one-character separator, `Array.prototype.join`,
  `String.prototype.trim` and the prefix test `s.indexOf(p) === 0`.
  Strings are sequences of Unicode scalar values: one `char` stands for one
  code point, where JavaScript counts UTF-16 code units (so a character
  above U+FFFF is one `char` here and two units there).
 */
module Strings {

  /** `s.split(sep)` for a one-character separator: the maximal runs between separators. */
  function Split(s: string, sep: char): (parts: seq<string>)
    ensures |parts| >= 1
    ensures forall i :: 0 <= i < |parts| ==> sep !in parts[i]
  {
    if s == [] then [""]
    else
      var rest := Split(s[1..], sep);
      if s[0] == sep then [""] + rest
      else [[s[0]] + rest[0]] + rest[1..]
  }

  /** `parts.join(sep)`. */
  function Join(parts: seq<string>, sep: string): (r: string)
    ensures |parts| == 0 ==> r == ""
    ensures |parts| >= 1 ==> |r| >= |parts[0]| && r[..|parts[0]|] == parts[0]
  {
    if |parts| == 0 then ""
    else if |parts| == 1 then parts[0]
    else parts[0] + sep + Join(parts[1..], sep)
  }

  /** Joining what `Split` produced gives the string back. */
  lemma {:induction false} JoinSplit(s: string, sep: char)
    ensures Join(Split(s, sep), [sep]) == s
  {
    if s != [] {
      var rest := Split(s[1..], sep);
      JoinSplit(s[1..], sep);
      assert Join(rest, [sep]) == s[1..];
      if s[0] == sep {
        var parts := [""] + rest;
        assert Split(s, sep) == parts;
        assert parts[1..] == rest;
        assert Join(parts, [sep]) == "" + [sep] + Join(rest, [sep]);
        assert [s[0]] + s[1..] == s;
      } else {
        var parts := [[s[0]] + rest[0]] + rest[1..];
        assert Split(s, sep) == parts;
        if |rest| == 1 {
          assert Join(parts, [sep]) == [s[0]] + rest[0];
          assert [s[0]] + s[1..] == s;
        } else {
          assert parts[1..] == rest[1..];
          assert Join(parts, [sep]) == [s[0]] + rest[0] + [sep] + Join(rest[1..], [sep]);
          assert Join(rest, [sep]) == rest[0] + [sep] + Join(rest[1..], [sep]);
          assert [s[0]] + s[1..] == s;
        }
      }
    }
  }

  /** Splitting a join of separator-free parts gives the parts back. */
  lemma {:induction false} SplitJoin(parts: seq<string>, sep: char)
    requires |parts| >= 1
    requires forall i :: 0 <= i < |parts| ==> sep !in parts[i]
    ensures Split(Join(parts, [sep]), sep) == parts
  {
    if |parts| == 1 {
      SplitFree(parts[0], sep);
    } else {
      SplitJoin(parts[1..], sep);
      SplitAfterFree(parts[0], sep, Join(parts[1..], [sep]));
      assert [parts[0]] + parts[1..] == parts;
    }
  }

  lemma {:induction false} SplitFree(s: string, sep: char)
    requires sep !in s
    ensures Split(s, sep) == [s]
  {
    if s != [] {
      assert sep !in s[1..] by {
        assert forall c :: c in s[1..] ==> c in s;
      }
      SplitFree(s[1..], sep);
      assert [s[0]] + s[1..] == s;
    }
  }

  lemma {:induction false} SplitAfterFree(p: string, sep: char, t: string)
    requires sep !in p
    ensures Split(p + [sep] + t, sep) == [p] + Split(t, sep)
  {
    if p == [] {
      assert ([] + [sep] + t)[1..] == t;
    } else {
      SplitAfterFree(p[1..], sep, t);
      assert (p + [sep] + t)[1..] == p[1..] + [sep] + t;
      assert [p[0]] + p[1..] == p;
    }
  }

  predicate StartsWith(s: string, prefix: string) {
    |prefix| <= |s| && s[..|prefix|] == prefix
  }

  lemma PrefixExtends(e: string, t: string, p: string)
    requires StartsWith(e, p)
    ensures StartsWith(e + t, p)
  {
    assert (e + t)[..|p|] == e[..|p|];
  }

  lemma MismatchAt(e: string, t: string, p: string, i: nat)
    requires i < |e| && i < |p| && e[i] != p[i]
    ensures !StartsWith(e + t, p)
  {
    if |p| <= |e + t| {
      assert (e + t)[..|p|][i] != p[i];
    }
  }

  /** A hexadecimal digit of either case. */
  predicate IsHexDigit(c: char) {
    ('0' <= c <= '9') || ('a' <= c <= 'f') || ('A' <= c <= 'F')
  }

  /** The value of a hexadecimal digit. */
  function HexDigitValue(c: char): (d: nat)
    requires IsHexDigit(c)
    ensures d < 16
  {
    if '0' <= c <= '9' then c as int - '0' as int
    else if 'a' <= c <= 'f' then c as int - 'a' as int + 10
    else c as int - 'A' as int + 10
  }

  /** The JavaScript white-space and line-terminator characters, which both
      `String.prototype.trim` and the regular-expression class `\s` use. */
  predicate IsJsSpace(c: char) {
    c == '\t' || c == '\n' || c == '\U{000B}' || c == '\U{000C}' || c == '\r'
    || c == ' ' || c == '\U{00A0}' || c == '\U{1680}'
    || ('\U{2000}' <= c <= '\U{200A}')
    || c == '\U{2028}' || c == '\U{2029}' || c == '\U{202F}' || c == '\U{205F}'
    || c == '\U{3000}' || c == '\U{FEFF}'
  }

  predicate AllSpace(s: string) {
    forall i :: 0 <= i < |s| ==> IsJsSpace(s[i])
  }

  /** `s.trim()`: drops white space at both ends and nothing else. */
  function Trim(s: string): (r: string)
    ensures exists a, b :: 0 <= a <= b <= |s| && r == s[a..b] && AllSpace(s[..a]) && AllSpace(s[b..])
    ensures r == [] || (!IsJsSpace(r[0]) && !IsJsSpace(r[|r| - 1]))
  {
    var a := LeadingSpaces(s);
    var b := a + |TrimEnd(s[a..])|;
    assert s[a..][..b - a] == s[a..b];
    s[a..b]
  }

  /** The number of white-space characters at the start of `s`. */
  function LeadingSpaces(s: string): (n: nat)
    ensures n <= |s| && AllSpace(s[..n])
    ensures n < |s| ==> !IsJsSpace(s[n])
  {
    if s == [] || !IsJsSpace(s[0]) then 0
    else
      var n := 1 + LeadingSpaces(s[1..]);
      assert forall i :: 1 <= i < n ==> s[..n][i] == s[1..][..n - 1][i - 1];
      n
  }

  /** `s` without its trailing white space. */
  function TrimEnd(s: string): (r: string)
    ensures |r| <= |s| && r == s[..|r|] && AllSpace(s[|r|..])
    ensures r == [] || !IsJsSpace(r[|r| - 1])
  {
    if s == [] || !IsJsSpace(s[|s| - 1]) then s
    else
      var r := TrimEnd(s[..|s| - 1]);
      assert s[|r|..] == s[..|s| - 1][|r|..] + [s[|s| - 1]];
      r
  }

  /** Trimming a string that was trimmed on the left only is the same as trimming it. */
  lemma {:induction false} TrimAfterLeftTrim(s: string)
    ensures Trim(s[LeadingSpaces(s)..]) == Trim(s)
  {
    var a := LeadingSpaces(s);
    var t := s[a..];
    assert LeadingSpaces(t) == 0;
    assert t[0..] == t;
    assert s[a..][..|TrimEnd(t)|] == s[a..a + |TrimEnd(t)|];
  }
}
