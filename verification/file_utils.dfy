/** The hexadecimal rendering of a SHA-256 digest: each digest byte is
    written with `toString(16)`, left-padded with '0' to two characters,
    and the pieces are joined with no separator. The digest itself comes
    from the browser's crypto API and is an input here. */
module FileUtils {
  import opened JsRuntime

  type Byte = x: int | 0 <= x < 256

  /** The lower-case digit for a value below sixteen. */
  function HexDigit(d: int): (c: char)
    requires 0 <= d < 16
  {
    if d < 10 then ('0' as int + d) as char else ('a' as int + d - 10) as char
  }

  predicate IsLowerHexDigit(c: char) {
    '0' <= c <= '9' || 'a' <= c <= 'f'
  }

  /** `n.toString(16)` for a non-negative integer: no leading zeros, "0" for zero. */
  function ToString16(n: nat): (r: string)
    ensures |r| >= 1
    ensures forall i :: 0 <= i < |r| ==> IsLowerHexDigit(r[i])
    decreases n
  {
    if n < 16 then [HexDigit(n)] else ToString16(n / 16) + [HexDigit(n % 16)]
  }

  /** `s.padStart(width, fill)`. */
  function PadStart(s: string, width: nat, fill: char): string {
    if |s| >= width then s else seq(width - |s|, _ => fill) + s
  }

  /** `b.toString(16).padStart(2, '0')`. */
  function ByteHex(b: Byte): string {
    PadStart(ToString16(b), 2, '0')
  }

  /** `Array.from(bytes).map(b => ...).join('')`. */
  function DigestHex(bytes: seq<Byte>): string {
    Join(seq(|bytes|, i requires 0 <= i < |bytes| => ByteHex(bytes[i])), "")
  }

  /** Every byte becomes exactly its high and its low nibble, so a byte
      below sixteen gets a leading '0'. */
  lemma ByteHexDigits(b: Byte)
    ensures ByteHex(b) == [HexDigit(b / 16), HexDigit(b % 16)]
    ensures b < 16 ==> ByteHex(b)[0] == '0'
  {
    if b >= 16 {
      assert ToString16(b) == ToString16(b / 16) + [HexDigit(b % 16)];
    } else {
      assert ToString16(b) == [HexDigit(b)];
    }
  }

  lemma DigestHexCons(bytes: seq<Byte>)
    requires bytes != []
    ensures DigestHex(bytes) == ByteHex(bytes[0]) + DigestHex(bytes[1..])
  {
    var parts := seq(|bytes|, i requires 0 <= i < |bytes| => ByteHex(bytes[i]));
    var rest := seq(|bytes| - 1, i requires 0 <= i < |bytes| - 1 => ByteHex(bytes[1..][i]));
    assert parts[1..] == rest;
    if |bytes| == 1 {
      assert DigestHex(bytes[1..]) == "";
    }
  }

  /** Byte i is rendered at characters 2i and 2i+1, so the string has twice
      the digest's length, order is kept, and only `0-9a-f` occur. */
  lemma {:induction false} DigestHexLayout(bytes: seq<Byte>)
    ensures |DigestHex(bytes)| == 2 * |bytes|
    ensures forall i :: 0 <= i < |bytes| ==>
      DigestHex(bytes)[2 * i] == HexDigit(bytes[i] / 16) &&
      DigestHex(bytes)[2 * i + 1] == HexDigit(bytes[i] % 16)
    ensures forall k :: 0 <= k < |DigestHex(bytes)| ==> IsLowerHexDigit(DigestHex(bytes)[k])
    decreases |bytes|
  {
    if bytes != [] {
      DigestHexCons(bytes);
      ByteHexDigits(bytes[0]);
      DigestHexLayout(bytes[1..]);
      var h := DigestHex(bytes);
      forall i | 0 <= i < |bytes|
        ensures h[2 * i] == HexDigit(bytes[i] / 16) && h[2 * i + 1] == HexDigit(bytes[i] % 16)
      {
        if i > 0 {
          assert bytes[1..][i - 1] == bytes[i];
        }
      }
    } else {
      assert DigestHex(bytes) == "";
    }
  }

  /** The value of a lower-case hexadecimal digit. */
  function HexValue(c: char): Option<int> {
    if '0' <= c <= '9' then Some(c as int - '0' as int)
    else if 'a' <= c <= 'f' then Some(c as int - 'a' as int + 10)
    else None
  }

  /** Reads a digest back from its rendering: two lower-case digits per byte. */
  function ParseDigestHex(s: string): Option<seq<Byte>>
    decreases |s|
  {
    if s == [] then Some([])
    else if |s| == 1 then None
    else match (HexValue(s[0]), HexValue(s[1]), ParseDigestHex(s[2..]))
      case (Some(hi), Some(lo), Some(rest)) =>
        if 0 <= hi < 16 && 0 <= lo < 16 then Some([hi * 16 + lo] + rest) else None
      case _ => None
  }

  /** The rendering is decodable, hence injective. */
  lemma {:induction false} DigestHexRoundTrip(bytes: seq<Byte>)
    ensures ParseDigestHex(DigestHex(bytes)) == Some(bytes)
    decreases |bytes|
  {
    if bytes != [] {
      var b := bytes[0];
      DigestHexCons(bytes);
      ByteHexDigits(b);
      DigestHexRoundTrip(bytes[1..]);
      var s := DigestHex(bytes);
      assert s[2..] == DigestHex(bytes[1..]);
      assert HexValue(HexDigit(b / 16)) == Some(b / 16);
      assert HexValue(HexDigit(b % 16)) == Some(b % 16);
      assert [b] + bytes[1..] == bytes;
    } else {
      assert DigestHex(bytes) == "";
    }
  }

  lemma DigestHexInjective(a: seq<Byte>, b: seq<Byte>)
    requires DigestHex(a) == DigestHex(b)
    ensures a == b
  {
    DigestHexRoundTrip(a);
    DigestHexRoundTrip(b);
  }
}
