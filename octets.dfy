/** Octet strings and the small text encodings the server builds its headers
    from: lower-case hexadecimal (the ETag), decimal (Content-Length), ASCII
    case folding (If-None-Match comparison), visible-ASCII validation and
    substring search (Accept-Encoding). */
module Octets {

  newtype byte = b: int | 0 <= b < 256

  type Bytes = seq<byte>

  datatype Option<+T> = None | Some(value: T)

  /** An MD5 digest: sixteen octets. */
  type Digest = d: Bytes | |d| == 16
    witness [0, 0, 0, 0, 0, 0, 0, 0, 0, 0, 0, 0, 0, 0, 0, 0]

  /** The octets of an ASCII literal (every character below 256 keeps its code). */
  function FromAscii(s: string): (b: Bytes)
    ensures |b| == |s|
    ensures forall i :: 0 <= i < |s| && s[i] as int < 256 ==> b[i] as int == s[i] as int
  {
    seq(|s|, i requires 0 <= i < |s| => (s[i] as int % 256) as byte)
  }

  // ---------------------------------------------------------------------------
  // ASCII case folding

  function ToAsciiLower(c: byte): byte {
    if 65 <= c <= 90 then c + 32 else c
  }

  function ToAsciiUpper(c: byte): byte {
    if 97 <= c <= 122 then c - 32 else c
  }

  function AsciiLower(s: Bytes): (r: Bytes)
    ensures |r| == |s| && forall i :: 0 <= i < |s| ==> r[i] == ToAsciiLower(s[i])
  {
    seq(|s|, i requires 0 <= i < |s| => ToAsciiLower(s[i]))
  }

  function AsciiUpper(s: Bytes): (r: Bytes)
    ensures |r| == |s| && forall i :: 0 <= i < |s| ==> r[i] == ToAsciiUpper(s[i])
  {
    seq(|s|, i requires 0 <= i < |s| => ToAsciiUpper(s[i]))
  }

  /** Two octet strings are equal when ASCII letters are compared without
      regard to case: same length, and every pair of octets lower-cases to the
      same octet. */
  predicate EqIgnoreAsciiCase(a: Bytes, b: Bytes) {
    |a| == |b| && forall i :: 0 <= i < |a| ==> ToAsciiLower(a[i]) == ToAsciiLower(b[i])
  }

  /** Case-insensitive equality is equality of the lower-cased strings. */
  lemma EqIgnoreAsciiCaseIsLowerEquality(a: Bytes, b: Bytes)
    ensures EqIgnoreAsciiCase(a, b) <==> AsciiLower(a) == AsciiLower(b)
  {
  }

  /** Upper-casing never changes the case-insensitive value of a string. */
  lemma UpperCaseIsEquivalent(a: Bytes)
    ensures EqIgnoreAsciiCase(a, AsciiUpper(a))
  {
  }

  // ---------------------------------------------------------------------------
  // Visible ASCII and substring search

  /** A header value converts to text exactly when every octet is a visible
      ASCII character (space through tilde) or a horizontal tab. */
  predicate IsVisibleAscii(s: Bytes) {
    forall i :: 0 <= i < |s| ==> (32 <= s[i] < 127 || s[i] == 9)
  }

  /** `needle` occurs in `hay` starting at offset `i`. */
  predicate OccursAt(hay: Bytes, needle: Bytes, i: nat) {
    i + |needle| <= |hay| && hay[i..i + |needle|] == needle
  }

  /** Substring search, scanning `hay` from the left. */
  function Contains(hay: Bytes, needle: Bytes): bool
    decreases |hay|
  {
    if |hay| < |needle| then false
    else if hay[..|needle|] == needle then true
    else Contains(hay[1..], needle)
  }

  /** The scan finds `needle` exactly when it occurs at some offset. */
  lemma {:induction false} ContainsIff(hay: Bytes, needle: Bytes)
    ensures Contains(hay, needle) <==> exists i: nat :: OccursAt(hay, needle, i)
    decreases |hay|
  {
    if |hay| < |needle| {
      assert forall i: nat :: !OccursAt(hay, needle, i);
    } else if hay[..|needle|] == needle {
      assert OccursAt(hay, needle, 0);
    } else {
      ContainsIff(hay[1..], needle);
      if Contains(hay[1..], needle) {
        var j: nat :| OccursAt(hay[1..], needle, j);
        assert hay[1..][j..j + |needle|] == hay[j + 1..j + 1 + |needle|];
        assert OccursAt(hay, needle, j + 1);
      }
      if exists i: nat :: OccursAt(hay, needle, i) {
        var i: nat :| OccursAt(hay, needle, i);
        assert i != 0;
        assert hay[1..][i - 1..i - 1 + |needle|] == hay[i..i + |needle|];
        assert OccursAt(hay[1..], needle, i - 1);
      }
    }
  }

  // ---------------------------------------------------------------------------
  // Lower-case hexadecimal, two digits per octet, most significant first

  predicate IsLowerHexDigit(c: byte) {
    48 <= c <= 57 || 97 <= c <= 102
  }

  predicate IsLowerHex(s: Bytes) {
    forall i :: 0 <= i < |s| ==> IsLowerHexDigit(s[i])
  }

  function HexDigit(v: int): (c: byte)
    requires 0 <= v < 16
    ensures IsLowerHexDigit(c)
  {
    if v < 10 then (48 + v) as byte else (87 + v) as byte
  }

  function HexDigitValue(c: byte): (v: int)
    requires IsLowerHexDigit(c)
    ensures 0 <= v < 16 && HexDigit(v) == c
  {
    if c <= 57 then c as int - 48 else c as int - 87
  }

  function HexOfByte(b: byte): Bytes {
    [HexDigit(b as int / 16), HexDigit(b as int % 16)]
  }

  /** `{:x}` applied to a digest: every octet as two lower-case hex digits. */
  function Hex(d: Bytes): (h: Bytes)
    ensures |h| == 2 * |d|
    ensures IsLowerHex(h)
  {
    if d == [] then [] else HexOfByte(d[0]) + Hex(d[1..])
  }

  /** Inverse of Hex: `None` on odd length or a non-hex digit. */
  function HexDecode(h: Bytes): Option<Bytes>
    decreases |h|
  {
    if |h| == 0 then Some([])
    else if |h| == 1 || !IsLowerHexDigit(h[0]) || !IsLowerHexDigit(h[1]) then None
    else
      match HexDecode(h[2..])
      case None => None
      case Some(rest) => Some([(HexDigitValue(h[0]) * 16 + HexDigitValue(h[1])) as byte] + rest)
  }

  lemma {:induction false} HexRoundTrip(d: Bytes)
    ensures HexDecode(Hex(d)) == Some(d)
  {
    if d != [] {
      var h := Hex(d);
      assert h == HexOfByte(d[0]) + Hex(d[1..]);
      assert h[2..] == Hex(d[1..]);
      HexRoundTrip(d[1..]);
      assert HexDigitValue(h[0]) == d[0] as int / 16 && HexDigitValue(h[1]) == d[0] as int % 16;
      assert [d[0]] + d[1..] == d;
    }
  }

  /** Every even-length lower-case hex string is the Hex of what it decodes to. */
  lemma {:induction false} HexDecodeSound(h: Bytes, d: Bytes)
    requires HexDecode(h) == Some(d)
    ensures Hex(d) == h
    decreases |h|
  {
    if |h| > 0 {
      var rest := HexDecode(h[2..]).value;
      HexDecodeSound(h[2..], rest);
      var b := (HexDigitValue(h[0]) * 16 + HexDigitValue(h[1])) as byte;
      assert d == [b] + rest;
      assert d[1..] == rest;
      assert HexOfByte(b) == [h[0], h[1]];
      assert h == [h[0], h[1]] + h[2..];
    }
  }

  /** Hex is injective: equal renderings come from equal digests. */
  lemma HexInjective(d1: Bytes, d2: Bytes)
    ensures Hex(d1) == Hex(d2) <==> d1 == d2
  {
    if Hex(d1) == Hex(d2) {
      HexRoundTrip(d1);
      HexRoundTrip(d2);
    }
  }

  /** The first 2k hex digits render exactly the first k octets. */
  lemma {:induction false} HexPrefix(d: Bytes, k: nat)
    requires k <= |d|
    ensures Hex(d)[..2 * k] == Hex(d[..k])
  {
    if k > 0 {
      HexPrefix(d[1..], k - 1);
      assert d[..k] == [d[0]] + d[1..][..k - 1];
      assert d[..k][1..] == d[1..][..k - 1];
    }
  }

  // ---------------------------------------------------------------------------
  // Decimal rendering of lengths

  predicate IsDigit(c: byte) {
    48 <= c <= 57
  }

  /** A non-negative integer in decimal, without leading zeros. */
  function Decimal(n: nat): (s: Bytes)
    ensures |s| >= 1
    ensures forall i :: 0 <= i < |s| ==> IsDigit(s[i])
    ensures n > 0 ==> s[0] != 48
  {
    if n < 10 then [(48 + n) as byte] else Decimal(n / 10) + [(48 + n % 10) as byte]
  }

  function DigitsValue(s: Bytes): nat
    requires forall i :: 0 <= i < |s| ==> IsDigit(s[i])
  {
    if |s| == 0 then 0
    else
      var last := s[|s| - 1];
      assert IsDigit(last);
      DigitsValue(s[..|s| - 1]) * 10 + (last as int - 48)
  }

  /** Reading a Content-Length value back: `None` unless it is a non-empty
      string of decimal digits. */
  function ParseDecimal(s: Bytes): Option<nat> {
    if |s| > 0 && forall i :: 0 <= i < |s| ==> IsDigit(s[i]) then Some(DigitsValue(s)) else None
  }

  lemma {:induction false} DecimalRoundTrip(n: nat)
    ensures ParseDecimal(Decimal(n)) == Some(n)
  {
    DecimalValue(n);
  }

  lemma {:induction false} DecimalValue(n: nat)
    ensures DigitsValue(Decimal(n)) == n
  {
    var s := Decimal(n);
    if n >= 10 {
      DecimalValue(n / 10);
      assert s[..|s| - 1] == Decimal(n / 10);
    }
  }
}
