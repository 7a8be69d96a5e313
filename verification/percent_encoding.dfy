/** `encodeURIComponent` (section 2.1 of RFC 3986 percent-encoding): the
    characters `A-Z a-z 0-9 - _ . ! ~ * ' ( )` pass through, every other
    character is written as the UTF-8 bytes of its code point, each as `%`
    and two upper-case hexadecimal digits. */
module PercentEncoding {
  import opened JsRuntime

  type Byte = x: int | 0 <= x < 256

  predicate IsUnreserved(c: char) {
    || 'A' <= c <= 'Z' || 'a' <= c <= 'z' || '0' <= c <= '9'
    || c == '-' || c == '_' || c == '.' || c == '!' || c == '~'
    || c == '*' || c == '\'' || c == '(' || c == ')'
  }

  function UpperHexDigit(d: int): (c: char)
    requires 0 <= d < 16
    ensures IsUnreserved(c)
  {
    if d < 10 then ('0' as int + d) as char else ('A' as int + d - 10) as char
  }

  /** The UTF-8 encoding of one Unicode scalar value. */
  function Utf8(c: char): (bytes: seq<Byte>)
    ensures 1 <= |bytes| <= 4
    ensures (c as int < 0x80) == (|bytes| == 1)
    ensures |bytes| == 1 ==> bytes[0] == c as int
  {
    var cp := c as int;
    if cp < 0x80 then [cp]
    else if cp < 0x800 then [0xC0 + cp / 64, 0x80 + cp % 64]
    else if cp < 0x10000 then [0xE0 + cp / 4096, 0x80 + (cp / 64) % 64, 0x80 + cp % 64]
    else [0xF0 + cp / 262144, 0x80 + (cp / 4096) % 64, 0x80 + (cp / 64) % 64, 0x80 + cp % 64]
  }

  function EscapeBytes(bytes: seq<Byte>): (r: string)
    ensures |r| == 3 * |bytes|
    ensures forall i :: 0 <= i < |r| ==> r[i] == '%' || IsUnreserved(r[i])
  {
    if bytes == [] then []
    else ['%', UpperHexDigit(bytes[0] / 16), UpperHexDigit(bytes[0] % 16)] + EscapeBytes(bytes[1..])
  }

  function EncodeChar(c: char): (r: string)
    ensures forall i :: 0 <= i < |r| ==> r[i] == '%' || IsUnreserved(r[i])
  {
    if IsUnreserved(c) then [c] else EscapeBytes(Utf8(c))
  }

  /** `encodeURIComponent(s)`: the result consists of unreserved characters
      and `%` only, so it holds no `/`, no space and no other delimiter. */
  function Encode(s: string): (r: string)
    ensures forall i :: 0 <= i < |r| ==> r[i] == '%' || IsUnreserved(r[i])
    ensures |r| >= |s|
    decreases |s|
  {
    if s == [] then [] else EncodeChar(s[0]) + Encode(s[1..])
  }

  lemma {:induction false} EncodeIdentityOnUnreserved(s: string)
    requires forall i :: 0 <= i < |s| ==> IsUnreserved(s[i])
    ensures Encode(s) == s
    decreases |s|
  {
    if s != [] {
      EncodeIdentityOnUnreserved(s[1..]);
    }
  }

  lemma EncodeHasNoSlashOrSpace(s: string)
    ensures '/' !in Encode(s) && ' ' !in Encode(s)
  {
    var r := Encode(s);
    assert forall i :: 0 <= i < |r| ==> r[i] != '/' && r[i] != ' ';
  }

  function HexValue(c: char): Option<int> {
    if '0' <= c <= '9' then Some(c as int - '0' as int)
    else if 'A' <= c <= 'F' then Some(c as int - 'A' as int + 10)
    else if 'a' <= c <= 'f' then Some(c as int - 'a' as int + 10)
    else None
  }

  /** Percent-decoding for single-byte escapes (the ASCII range). */
  function Decode(s: string): string
    decreases |s|
  {
    if s == [] then []
    else if s[0] == '%' && |s| >= 3 && HexValue(s[1]).Some? && HexValue(s[2]).Some?
    then [(HexValue(s[1]).value * 16 + HexValue(s[2]).value) as char] + Decode(s[3..])
    else [s[0]] + Decode(s[1..])
  }

  lemma DecodeEncodeChar(c: char, rest: string)
    requires c as int < 0x80
    ensures Decode(EncodeChar(c) + rest) == [c] + Decode(rest)
  {
    if IsUnreserved(c) {
      assert (EncodeChar(c) + rest)[1..] == rest;
    } else {
      var b := c as int;
      var e := EncodeChar(c);
      assert e == ['%', UpperHexDigit(b / 16), UpperHexDigit(b % 16)];
      assert HexValue(UpperHexDigit(b / 16)) == Some(b / 16);
      assert HexValue(UpperHexDigit(b % 16)) == Some(b % 16);
      assert (e + rest)[3..] == rest;
      assert ((b / 16) * 16 + b % 16) as char == c;
    }
  }

  /** For ASCII text, decoding undoes the encoding. */
  lemma {:induction false} EncodeRoundTrip(s: string)
    requires forall i :: 0 <= i < |s| ==> s[i] as int < 0x80
    ensures Decode(Encode(s)) == s
    decreases |s|
  {
    if s != [] {
      DecodeEncodeChar(s[0], Encode(s[1..]));
      EncodeRoundTrip(s[1..]);
    }
  }

  lemma SpaceExample()
    ensures Encode("a b.pdf") == "a%20b.pdf"
  {
  }
}
