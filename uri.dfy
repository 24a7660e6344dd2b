/**
  `encodeURIComponent` and `decodeURIComponent` (ECMA-262, section 19.2.6,
  URI Handling Functions): UTF-8 bytes written as `%XX` with upper-case hex
  digits, except for the characters A-Z a-z 0-9 - _ . ! ~ * ' ( ).
  The library calls only the encoder; the decoder is its inverse, which is
  what a server reading the query string applies.
 */
module Uri {
  import opened Strings
  import opened JsValues

  type Byte = b: int | 0 <= b < 256

  /** The characters `encodeURIComponent` leaves as they are. */
  predicate Unreserved(c: char) {
    ('A' <= c <= 'Z') || ('a' <= c <= 'z') || ('0' <= c <= '9')
    || c == '-' || c == '_' || c == '.' || c == '!' || c == '~' || c == '*'
    || c == '\'' || c == '(' || c == ')'
  }

  /** The UTF-8 encoding of one Unicode scalar value. */
  function Utf8(c: char): (bs: seq<Byte>)
    ensures 1 <= |bs| <= 4
  {
    var v := c as int;
    if v < 0x80 then [v]
    else if v < 0x800 then [0xC0 + v / 64, 0x80 + v % 64]
    else if v < 0x10000 then [0xE0 + v / 4096, 0x80 + (v / 64) % 64, 0x80 + v % 64]
    else [0xF0 + v / 262144, 0x80 + (v / 4096) % 64, 0x80 + (v / 64) % 64, 0x80 + v % 64]
  }

  const HexDigits: string := "0123456789ABCDEF"

  /** `%XX` for one byte, with upper-case hex digits. */
  function PercentByte(b: Byte): (r: string)
    ensures |r| == 3 && r[0] == '%'
    ensures IsHexDigit(r[1]) && IsHexDigit(r[2])
    ensures HexDigitValue(r[1]) * 16 + HexDigitValue(r[2]) == b as int
  {
    HexDigitsRead(b as int / 16);
    HexDigitsRead(b as int % 16);
    ['%', HexDigits[b / 16], HexDigits[b % 16]]
  }

  function PercentBytes(bs: seq<Byte>): (r: string)
    ensures |r| == 3 * |bs|
  {
    if bs == [] then [] else PercentByte(bs[0]) + PercentBytes(bs[1..])
  }

  /** Text made only of unreserved characters and `%`. */
  predicate InEncodedAlphabet(s: string) {
    forall i :: 0 <= i < |s| ==> Unreserved(s[i]) || s[i] == '%'
  }

  lemma {:induction false} PercentAlphabet(bs: seq<Byte>)
    ensures InEncodedAlphabet(PercentBytes(bs))
  {
    if bs != [] {
      PercentAlphabet(bs[1..]);
      assert forall i :: 0 <= i < |HexDigits| ==> Unreserved(HexDigits[i]);
      var r := PercentBytes(bs);
      forall i | 3 <= i < |r| ensures Unreserved(r[i]) || r[i] == '%' {
        assert r[i] == PercentBytes(bs[1..])[i - 3];
      }
    }
  }

  function EncodeChar(c: char): (r: string)
    ensures |r| >= 1 && InEncodedAlphabet(r)
  {
    if Unreserved(c) then [c]
    else
      PercentAlphabet(Utf8(c));
      PercentBytes(Utf8(c))
  }

  /** `encodeURIComponent(s)`. The encoding holds only unreserved characters
      and `%` (with upper-case hex digits after it), so in particular no `&`,
      `=`, `?`, `#` or space. */
  function EncodeUriComponent(s: string): (r: string)
    ensures |r| >= |s| && InEncodedAlphabet(r)
  {
    if s == [] then []
    else
      var e := EncodeChar(s[0]);
      var rest := EncodeUriComponent(s[1..]);
      assert forall i :: |e| <= i < |e + rest| ==> (e + rest)[i] == rest[i - |e|];
      e + rest
  }

  // ---- Decoding ----

  /** The bytes of `n` consecutive `%XX` triples at the start of `s`. */
  function DecodeTriples(s: string, n: nat): (r: Option<seq<Byte>>)
    ensures r.Some? ==> |r.value| == n && |s| >= 3 * n
  {
    if n == 0 then Some([])
    else if |s| >= 3 && s[0] == '%' && IsHexDigit(s[1]) && IsHexDigit(s[2]) then
      var b := HexDigitValue(s[1]) * 16 + HexDigitValue(s[2]);
      match DecodeTriples(s[3..], n - 1)
      case None => None
      case Some(rest) => Some([b] + rest)
    else None
  }

  /** How many bytes the UTF-8 sequence led by `b` has; 0 for a byte that
      cannot lead one. */
  function LeadLength(b: Byte): nat {
    if b < 0x80 then 1
    else if 0xC0 <= b < 0xE0 then 2
    else if 0xE0 <= b < 0xF0 then 3
    else if 0xF0 <= b < 0xF8 then 4
    else 0
  }

  predicate Continuation(b: Byte) {
    0x80 <= b < 0xC0
  }

  /** The character a whole UTF-8 sequence stands for, if the sequence is
      well formed: continuation bytes in range, not overlong, not a surrogate,
      not past U+10FFFF. */
  function Utf8Char(bs: seq<Byte>): Option<char>
    requires 1 <= |bs| <= 4 && LeadLength(bs[0]) == |bs|
  {
    if exists i :: 1 <= i < |bs| && !Continuation(bs[i]) then None
    else
      var v: int :=
        if |bs| == 1 then bs[0] as int
        else if |bs| == 2 then (bs[0] as int - 0xC0) * 64 + (bs[1] as int - 0x80)
        else if |bs| == 3 then (bs[0] as int - 0xE0) * 4096 + (bs[1] as int - 0x80) * 64 + (bs[2] as int - 0x80)
        else (bs[0] as int - 0xF0) * 262144 + (bs[1] as int - 0x80) * 4096 + (bs[2] as int - 0x80) * 64 + (bs[3] as int - 0x80);
      var least: int := if |bs| == 1 then 0 else if |bs| == 2 then 0x80 else if |bs| == 3 then 0x800 else 0x10000;
      if v < least || (0xD800 <= v < 0xE000) || v > 0x10FFFF then None
      else Some(v as char)
  }

  function Prepend(c: char, r: Option<string>): Option<string> {
    match r
    case None => None
    case Some(s) => Some([c] + s)
  }

  /** `decodeURIComponent(s)`, with `None` for the `URIError` it throws on a
      malformed escape or an ill-formed UTF-8 sequence. */
  function DecodeUriComponent(s: string): Option<string>
    decreases |s|
  {
    if s == [] then Some([])
    else if s[0] != '%' then Prepend(s[0], DecodeUriComponent(s[1..]))
    else
      match DecodeTriples(s, 1)
      case None => None
      case Some(lead) =>
        var n := LeadLength(lead[0]);
        if n == 0 then None
        else
          match DecodeTriples(s, n)
          case None => None
          case Some(bs) =>
            assert bs[0] == lead[0] by {
              DecodeTriplesPrefix(s, 1, n);
            }
            match Utf8Char(bs)
            case None => None
            case Some(c) => Prepend(c, DecodeUriComponent(s[3 * n..]))
  }

  /** Fewer triples read the same first bytes. */
  lemma {:induction false} DecodeTriplesPrefix(s: string, m: nat, n: nat)
    requires 1 <= m <= n
    requires DecodeTriples(s, m).Some? && DecodeTriples(s, n).Some?
    ensures DecodeTriples(s, m).value[0] == DecodeTriples(s, n).value[0]
  {
  }

  // ---- The round trip ----

  lemma HexDigitsRead(d: nat)
    requires d < 16
    ensures IsHexDigit(HexDigits[d]) && HexDigitValue(HexDigits[d]) == d
  {
  }

  lemma ConcatAssoc(a: string, b: string, c: string)
    ensures (a + b) + c == a + (b + c)
  {
  }

  /** A leading `%XX` is read as its byte, followed by the remaining triples. */
  lemma DecodeTripleCons(b: Byte, r: string, m: nat)
    requires m >= 1
    ensures DecodeTriples(PercentByte(b) + r, m)
            == match DecodeTriples(r, m - 1) case None => None case Some(rest) => Some([b] + rest)
  {
    var s := PercentByte(b) + r;
    HexDigitsRead(b / 16);
    HexDigitsRead(b % 16);
    assert s[1] == HexDigits[b / 16] && s[2] == HexDigits[b % 16];
    assert s[3..] == r;
  }

  /** Reading `m` triples back from percent-encoded bytes gives the first `m` bytes. */
  lemma {:induction false} DecodePercentBytes(bs: seq<Byte>, t: string, m: nat)
    requires m <= |bs|
    ensures DecodeTriples(PercentBytes(bs) + t, m) == Some(bs[..m])
  {
    if m > 0 {
      DecodePercentBytes(bs[1..], t, m - 1);
      DecodePercentStep(bs, t, m);
    }
  }

  /** One step of the induction above: the first triple decodes to the first byte. */
  lemma DecodePercentStep(bs: seq<Byte>, t: string, m: nat)
    requires 1 <= m <= |bs|
    requires DecodeTriples(PercentBytes(bs[1..]) + t, m - 1) == Some(bs[1..][..m - 1])
    ensures DecodeTriples(PercentBytes(bs) + t, m) == Some(bs[..m])
  {
    var b := bs[0];
    var r := PercentBytes(bs[1..]) + t;
    assert PercentBytes(bs) == PercentByte(b) + PercentBytes(bs[1..]);
    ConcatAssoc(PercentByte(b), PercentBytes(bs[1..]), t);
    DecodeTripleCons(b, r, m);
    assert bs[..m] == [b] + bs[1..][..m - 1];
  }


  lemma Utf8Two(c: char)
    requires 0x80 <= c as int < 0x800
    ensures LeadLength(Utf8(c)[0]) == 2 && Utf8Char(Utf8(c)) == Some(c)
  {
    var v := c as int;
    assert v == (v / 64) * 64 + v % 64;
  }

  lemma Utf8Three(c: char)
    requires 0x800 <= c as int < 0x10000
    ensures LeadLength(Utf8(c)[0]) == 3 && Utf8Char(Utf8(c)) == Some(c)
  {
    var v := c as int;
    var bs := Utf8(c);
    assert v / 64 == (v / 4096) * 64 + (v / 64) % 64;
    assert v == (v / 64) * 64 + v % 64;
    assert (bs[0] as int - 0xE0) * 4096 + (bs[1] as int - 0x80) * 64 + (bs[2] as int - 0x80) == v;
  }

  lemma Utf8Four(c: char)
    requires 0x10000 <= c as int
    ensures LeadLength(Utf8(c)[0]) == 4 && Utf8Char(Utf8(c)) == Some(c)
  {
    var v := c as int;
    var bs := Utf8(c);
    assert v / 4096 == (v / 262144) * 64 + (v / 4096) % 64;
    assert v / 64 == (v / 4096) * 64 + (v / 64) % 64;
    assert v == (v / 64) * 64 + v % 64;
    assert (bs[0] as int - 0xF0) * 262144 + (bs[1] as int - 0x80) * 4096 + (bs[2] as int - 0x80) * 64 + (bs[3] as int - 0x80) == v;
  }

  /** The UTF-8 sequence of a character leads with its own length and reads back as it. */
  lemma Utf8RoundTrip(c: char)
    ensures LeadLength(Utf8(c)[0]) == |Utf8(c)|
    ensures Utf8Char(Utf8(c)) == Some(c)
  {
    var v := c as int;
    if 0x80 <= v < 0x800 {
      Utf8Two(c);
    } else if 0x800 <= v < 0x10000 {
      Utf8Three(c);
    } else if 0x10000 <= v {
      Utf8Four(c);
    }
  }

  lemma DecodeAfterChar(c: char, t: string)
    ensures DecodeUriComponent(EncodeChar(c) + t) == Prepend(c, DecodeUriComponent(t))
  {
    var s := EncodeChar(c) + t;
    if Unreserved(c) {
      assert s[0] == c && s[1..] == t;
    } else {
      var bs := Utf8(c);
      var n := |bs|;
      DecodePercentBytes(bs, t, 1);
      DecodePercentBytes(bs, t, n);
      assert bs[..1] == [bs[0]] && bs[..n] == bs;
      Utf8RoundTrip(c);
      assert s[0] == '%';
      assert s[3 * n..] == t;
    }
  }

  /** `decodeURIComponent` undoes `encodeURIComponent`. */
  lemma {:induction false} DecodeEncode(s: string)
    ensures DecodeUriComponent(EncodeUriComponent(s)) == Some(s)
  {
    if s != [] {
      calc {
        DecodeUriComponent(EncodeUriComponent(s));
        { assert EncodeUriComponent(s) == EncodeChar(s[0]) + EncodeUriComponent(s[1..]); }
        DecodeUriComponent(EncodeChar(s[0]) + EncodeUriComponent(s[1..]));
        { DecodeAfterChar(s[0], EncodeUriComponent(s[1..])); }
        Prepend(s[0], DecodeUriComponent(EncodeUriComponent(s[1..])));
        { DecodeEncode(s[1..]); }
        Prepend(s[0], Some(s[1..]));
        { assert [s[0]] + s[1..] == s; }
        Some(s);
      }
    }
  }
}
