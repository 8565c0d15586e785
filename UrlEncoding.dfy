/**
 * Percent-encoding as the dashboard uses it: `encodeURIComponent` (for the
 * web-search fallback link) and the `application/x-www-form-urlencoded`
 * serializer behind `URLSearchParams` (for query strings). Characters outside
 * the kept set are written as the `%XX` escapes of their UTF-8 bytes.
 *
 * The decoder here is the reading side of a query string for ASCII text; it is
 * the partner definition for the round-trip lemmas.
 */
module UrlEncoding {
  import opened Text

  // ---------------------------------------------------------------------
  // UTF-8 and hexadecimal escapes
  // ---------------------------------------------------------------------

  /** The number of UTF-8 bytes of code point `n`. */
  function Utf8Length(n: int): nat {
    if n < 0x80 then 1 else if n < 0x800 then 2 else if n < 0x10000 then 3 else 4
  }

  /** A continuation byte, `10xxxxxx`. */
  predicate IsContinuation(b: nat) {
    0x80 <= b < 0xC0
  }

  /** The lead byte of an `n`-byte sequence: `0xxxxxxx`, `110xxxxx`, `1110xxxx` or `11110xxx`. */
  predicate IsLead(b: nat, n: nat) {
    if n == 1 then b < 0x80
    else if n == 2 then 0xC0 <= b < 0xE0
    else if n == 3 then 0xE0 <= b < 0xF0
    else 0xF0 <= b < 0xF8
  }

  /** The code point a well-formed UTF-8 sequence of one to four bytes stands for. */
  function Utf8Value(b: seq<nat>): int {
    if |b| == 1 then b[0]
    else if |b| == 2 then (b[0] as int - 0xC0) * 64 + (b[1] as int - 0x80)
    else if |b| == 3 then (b[0] as int - 0xE0) * 4096 + (b[1] as int - 0x80) * 64 + (b[2] as int - 0x80)
    else if |b| == 4 then
      (b[0] as int - 0xF0) * 262144 + (b[1] as int - 0x80) * 4096 + (b[2] as int - 0x80) * 64 + (b[3] as int - 0x80)
    else 0
  }

  /**
   * The UTF-8 encoding of one Unicode scalar value: the shortest form, a lead
   * byte followed by continuation bytes, that decodes to the code point.
   */
  function Utf8(c: char): (bytes: seq<nat>)
    ensures |bytes| == Utf8Length(c as int)
    ensures forall i :: 0 <= i < |bytes| ==> bytes[i] < 256
    ensures IsLead(bytes[0], |bytes|)
    ensures forall i :: 1 <= i < |bytes| ==> IsContinuation(bytes[i])
    ensures Utf8Value(bytes) == c as int
    ensures c as int < 128 ==> bytes == [c as int]
    ensures c as int >= 128 ==> forall i :: 0 <= i < |bytes| ==> bytes[i] >= 128
  {
    var n := c as int;
    if n < 0x80 then [n]
    else if n < 0x800 then TwoBytes(n)
    else if n < 0x10000 then ThreeBytes(n)
    else FourBytes(n)
  }

  /** The two-byte form `110xxxxx 10xxxxxx` of a code point in U+0080..U+07FF. */
  function TwoBytes(n: int): (b: seq<nat>)
    requires 0x80 <= n < 0x800
    ensures |b| == 2 && IsLead(b[0], 2) && IsContinuation(b[1])
    ensures Utf8Value(b) == n
  {
    [0xC0 + n / 64, 0x80 + n % 64]
  }

  /** The three-byte form `1110xxxx 10xxxxxx 10xxxxxx` of a code point in U+0800..U+FFFF. */
  function ThreeBytes(n: int): (b: seq<nat>)
    requires 0x800 <= n < 0x10000
    ensures |b| == 3 && IsLead(b[0], 3) && IsContinuation(b[1]) && IsContinuation(b[2])
    ensures Utf8Value(b) == n
  {
    var q1 := n / 64;
    var hi, mid, lo := q1 / 64, q1 % 64, n % 64;
    assert n == q1 * 64 + lo && q1 == hi * 64 + mid;
    assert n == hi * 4096 + mid * 64 + lo;
    [0xE0 + hi, 0x80 + mid, 0x80 + lo]
  }

  /** The four-byte form `11110xxx` and three continuation bytes, for a code point from U+10000. */
  function FourBytes(n: int): (b: seq<nat>)
    requires 0x10000 <= n < 0x110000
    ensures |b| == 4 && IsLead(b[0], 4) && IsContinuation(b[1]) && IsContinuation(b[2]) && IsContinuation(b[3])
    ensures Utf8Value(b) == n
  {
    var q1 := n / 64;
    var q2 := q1 / 64;
    var top, hi, mid, lo := q2 / 64, q2 % 64, q1 % 64, n % 64;
    assert n == q1 * 64 + lo && q1 == q2 * 64 + mid && q2 == top * 64 + hi;
    assert n == top * 262144 + hi * 4096 + mid * 64 + lo;
    [0xF0 + top, 0x80 + hi, 0x80 + mid, 0x80 + lo]
  }

  predicate IsDigit(c: char) { '0' <= c <= '9' }

  predicate IsAlnum(c: char) {
    IsDigit(c) || ('a' <= c <= 'z') || ('A' <= c <= 'Z')
  }

  /** Upper-case hexadecimal digit, as both encoders write it. */
  function HexDigit(d: nat): (c: char)
    requires d < 16
    ensures IsAlnum(c) && IsHex(c) && HexValue(c) == d
  {
    if d < 10 then ('0' as int + d) as char else ('A' as int + d - 10) as char
  }

  predicate IsHex(c: char) {
    IsDigit(c) || ('a' <= c <= 'f') || ('A' <= c <= 'F')
  }

  function HexValue(c: char): (d: nat)
    requires IsHex(c)
    ensures d < 16
  {
    if IsDigit(c) then c as int - '0' as int
    else if 'a' <= c <= 'f' then c as int - 'a' as int + 10
    else c as int - 'A' as int + 10
  }

  /** `s[3 * i..3 * i + 3]` is the escape `%XX` of byte `b`. */
  predicate EscapeAt(s: string, i: int, b: nat)
    requires b < 256
  {
    0 <= 3 * i && 3 * i + 3 <= |s| && s[3 * i] == '%' && s[3 * i + 1] == HexDigit(b / 16) && s[3 * i + 2] == HexDigit(b % 16)
  }

  /** The `%XX` escapes of the bytes, in order. */
  function PercentBytes(bytes: seq<nat>): (s: string)
    requires forall i :: 0 <= i < |bytes| ==> bytes[i] < 256
    ensures |s| == 3 * |bytes|
    ensures forall i :: 0 <= i < |bytes| ==> EscapeAt(s, i, bytes[i])
    decreases |bytes|
  {
    if bytes == [] then ""
    else
      var rest := PercentBytes(bytes[1..]);
      var s := ['%', HexDigit(bytes[0] / 16), HexDigit(bytes[0] % 16)] + rest;
      EscapesShift(bytes, rest, s);
      s
  }

  lemma EscapesShift(bytes: seq<nat>, rest: string, s: string)
    requires bytes != [] && forall i :: 0 <= i < |bytes| ==> bytes[i] < 256
    requires |rest| == 3 * (|bytes| - 1) && forall i :: 0 <= i < |bytes| - 1 ==> EscapeAt(rest, i, bytes[1..][i])
    requires s == ['%', HexDigit(bytes[0] / 16), HexDigit(bytes[0] % 16)] + rest
    ensures forall i :: 0 <= i < |bytes| ==> EscapeAt(s, i, bytes[i])
  {
    forall i | 1 <= i < |bytes|
      ensures EscapeAt(s, i, bytes[i])
    {
      assert EscapeAt(rest, i - 1, bytes[1..][i - 1]);
      assert s[3 * i..3 * i + 3] == rest[3 * (i - 1)..3 * (i - 1) + 3];
    }
  }

  // ---------------------------------------------------------------------
  // The two encoders
  // ---------------------------------------------------------------------

  /** `Component` is `encodeURIComponent`; `Form` is the `URLSearchParams` serializer. */
  datatype Scheme = Component | Form

  /** Characters an encoder writes as themselves. */
  predicate Keeps(m: Scheme, c: char) {
    IsAlnum(c) || (match m
                   case Component => c in "-_.!~*'()"
                   case Form => c in "*-._")
  }

  function EncodeChar(m: Scheme, c: char): string {
    if Keeps(m, c) then [c]
    else if m == Form && c == ' ' then "+"
    else PercentBytes(Utf8(c))
  }

  function Encode(m: Scheme, s: string): string
    decreases |s|
  {
    if s == [] then "" else EncodeChar(m, s[0]) + Encode(m, s[1..])
  }

  /** What an encoded string may contain: kept characters, `%` and (for forms) `+`. */
  predicate EncodedChar(m: Scheme, c: char) {
    Keeps(m, c) || c == '%' || (m == Form && c == '+')
  }

  lemma PercentBytesSafe(m: Scheme, bytes: seq<nat>)
    requires forall i :: 0 <= i < |bytes| ==> bytes[i] < 256
    ensures forall i :: 0 <= i < |PercentBytes(bytes)| ==> EncodedChar(m, PercentBytes(bytes)[i])
    decreases |bytes|
  {
    if bytes != [] {
      PercentBytesSafe(m, bytes[1..]);
    }
  }

  /**
   * An encoded string holds only kept characters, `%` and `+`: never `&`,
   * `=`, `?`, `#` or a space, so it cannot break the structure of a query.
   */
  lemma {:induction false} EncodeSafe(m: Scheme, s: string)
    ensures forall i :: 0 <= i < |Encode(m, s)| ==> EncodedChar(m, Encode(m, s)[i])
    decreases |s|
  {
    if s != [] {
      var head := EncodeChar(m, s[0]);
      if !Keeps(m, s[0]) && !(m == Form && s[0] == ' ') {
        PercentBytesSafe(m, Utf8(s[0]));
      }
      EncodeSafe(m, s[1..]);
      var rest := Encode(m, s[1..]);
      assert Encode(m, s) == head + rest;
      forall i | 0 <= i < |head + rest|
        ensures EncodedChar(m, (head + rest)[i])
      {
        if i >= |head| {
          assert (head + rest)[i] == rest[i - |head|];
        }
      }
    }
  }

  lemma EncodedHasNo(m: Scheme, s: string, c: char)
    requires !EncodedChar(m, c)
    ensures c !in Encode(m, s)
  {
    EncodeSafe(m, s);
  }

  // ---------------------------------------------------------------------
  // Reading a form-encoded string back (ASCII)
  // ---------------------------------------------------------------------

  predicate IsAscii(s: string) {
    forall i :: 0 <= i < |s| ==> s[i] as int < 128
  }

  /** `+` is a space, `%XX` below 0x80 is that character, anything else stands for itself. */
  function FormDecode(s: string): string
    decreases |s|
  {
    if s == [] then ""
    else if s[0] == '+' then " " + FormDecode(s[1..])
    else if s[0] == '%' && |s| >= 3 && IsHex(s[1]) && IsHex(s[2]) && HexValue(s[1]) * 16 + HexValue(s[2]) < 128 then
      [(HexValue(s[1]) * 16 + HexValue(s[2])) as char] + FormDecode(s[3..])
    else [s[0]] + FormDecode(s[1..])
  }

  lemma DecodeEncodedChar(c: char, rest: string)
    requires c as int < 128
    ensures FormDecode(EncodeChar(Form, c) + rest) == [c] + FormDecode(rest)
  {
    var e := EncodeChar(Form, c);
    if !Keeps(Form, c) && c != ' ' {
      var n := c as int;
      assert Utf8(c) == [n];
      assert e == ['%', HexDigit(n / 16), HexDigit(n % 16)];
      var s := e + rest;
      assert s[3..] == rest;
      assert HexValue(s[1]) * 16 + HexValue(s[2]) == n;
    } else if c == ' ' {
      assert (e + rest)[1..] == rest;
    } else {
      assert (e + rest)[1..] == rest;
    }
  }

  /** Decoding a form-encoded ASCII string gives the string back. */
  lemma {:induction false} FormRoundTrip(s: string)
    requires IsAscii(s)
    ensures FormDecode(Encode(Form, s)) == s
    decreases |s|
  {
    if s != [] {
      DecodeEncodedChar(s[0], Encode(Form, s[1..]));
      assert IsAscii(s[1..]);
      FormRoundTrip(s[1..]);
      assert s == [s[0]] + s[1..];
    }
  }
}
