/** The encoding primitives the conversion functions are built from: hex digits,
    the 0x prefix, hex text <-> bytes, big-endian integers, Python's `hex()` and
    `int()` on strict digit strings, ASCII lowercasing and UTF-8 encoding.
    These are plain reference definitions of helpers the conversions import. */
module Codec {
  import opened Outcomes

  /** One 8-bit value of a `bytes` object. */
  newtype byte = b: int | 0 <= b < 256

  /** A non-empty sequence is its front followed by its last element. */
  lemma FrontLast<T>(s: seq<T>)
    requires |s| > 0
    ensures s[..|s| - 1] + [s[|s| - 1]] == s
  {
  }

  // ---------------------------------------------------------------------------
  // Digits
  // ---------------------------------------------------------------------------

  predicate IsHexChar(c: char) {
    '0' <= c <= '9' || 'a' <= c <= 'f' || 'A' <= c <= 'F'
  }

  predicate IsLowerHexChar(c: char) {
    '0' <= c <= '9' || 'a' <= c <= 'f'
  }

  predicate IsDecChar(c: char) {
    '0' <= c <= '9'
  }

  predicate AllHex(s: string) {
    forall i :: 0 <= i < |s| ==> IsHexChar(s[i])
  }

  predicate AllLowerHex(s: string) {
    forall i :: 0 <= i < |s| ==> IsLowerHexChar(s[i])
  }

  predicate AllDec(s: string) {
    forall i :: 0 <= i < |s| ==> IsDecChar(s[i])
  }

  /** The value of one hex digit, in either case. */
  function HexCharValue(c: char): (v: nat)
    requires IsHexChar(c)
    ensures v < 16
    ensures v == 0 <==> c == '0'
  {
    if '0' <= c <= '9' then c as int - '0' as int
    else if 'a' <= c <= 'f' then c as int - 'a' as int + 10
    else c as int - 'A' as int + 10
  }

  /** The lowercase hex digit of a value below 16. */
  function HexDigitChar(v: nat): (c: char)
    requires v < 16
    ensures IsLowerHexChar(c) && HexCharValue(c) == v
  {
    if v < 10 then ('0' as int + v) as char else ('a' as int + v - 10) as char
  }

  lemma LowerHexCharRoundTrip(c: char)
    requires IsLowerHexChar(c)
    ensures HexDigitChar(HexCharValue(c)) == c
  {
  }

  function DecCharValue(c: char): (v: nat)
    requires IsDecChar(c)
    ensures v < 10
  {
    c as int - '0' as int
  }

  function DecDigitChar(v: nat): (c: char)
    requires v < 10
    ensures IsDecChar(c) && DecCharValue(c) == v
  {
    ('0' as int + v) as char
  }

  /** The number a hex digit string denotes, most significant digit first; it
      is zero exactly when every digit is "0". */
  function HexValue(d: string): (r: nat)
    requires AllHex(d)
    ensures r == 0 <==> forall i :: 0 <= i < |d| ==> d[i] == '0'
    decreases |d|
  {
    if d == [] then 0
    else
      var init := d[..|d| - 1];
      assert forall i :: 0 <= i < |init| ==> init[i] == d[i];
      HexValue(init) * 16 + HexCharValue(d[|d| - 1])
  }

  /** The number a decimal digit string denotes, most significant digit first;
      it is zero exactly when every digit is "0". */
  function DecValue(d: string): (r: nat)
    requires AllDec(d)
    ensures r == 0 <==> forall i :: 0 <= i < |d| ==> d[i] == '0'
    decreases |d|
  {
    if d == [] then 0
    else
      var init := d[..|d| - 1];
      assert forall i :: 0 <= i < |init| ==> init[i] == d[i];
      DecValue(init) * 10 + DecCharValue(d[|d| - 1])
  }

  /** A leading zero digit does not change the value. */
  lemma {:induction false} HexValueLeadingZero(d: string)
    requires AllHex(d)
    ensures AllHex("0" + d) && HexValue("0" + d) == HexValue(d)
  {
    var z := "0" + d;
    assert AllHex(z) by {
      forall i | 0 <= i < |z| ensures IsHexChar(z[i]) {
        if i > 0 { assert z[i] == d[i - 1]; }
      }
    }
    if d != [] {
      var init := d[..|d| - 1];
      assert z[..|z| - 1] == "0" + init;
      HexValueLeadingZero(init);
    }
  }

  /** A leading "0" digit does not change a decimal value. */
  lemma {:induction false} DecValueLeadingZero(d: string)
    requires AllDec(d)
    ensures AllDec("0" + d) && DecValue("0" + d) == DecValue(d)
  {
    var z := "0" + d;
    assert AllDec(z) by {
      forall i | 0 <= i < |z| ensures IsDecChar(z[i]) {
        if i > 0 { assert z[i] == d[i - 1]; }
      }
    }
    if d != [] {
      var init := d[..|d| - 1];
      assert z[..|z| - 1] == "0" + init;
      DecValueLeadingZero(init);
    }
  }

  /** A digit string that starts with a non-zero digit denotes a positive number. */
  lemma {:induction false} HexValuePositive(d: string)
    requires AllHex(d) && |d| >= 1 && d[0] != '0'
    ensures HexValue(d) > 0
  {
    if |d| > 1 {
      var init := d[..|d| - 1];
      assert init[0] == d[0];
      HexValuePositive(init);
    }
  }

  // ---------------------------------------------------------------------------
  // ASCII lowercasing (str.lower on the characters hex text uses)
  // ---------------------------------------------------------------------------

  function LowerChar(c: char): (r: char)
    ensures !('A' <= r <= 'Z')
    ensures IsHexChar(r) <==> IsHexChar(c)
    ensures IsHexChar(c) ==> HexCharValue(r) == HexCharValue(c)
    ensures !('A' <= c <= 'Z') ==> r == c
    ensures 'A' <= c <= 'Z' ==> r as int == c as int + 32
  {
    if 'A' <= c <= 'Z' then (c as int + 32) as char else c
  }

  /** The string with every ASCII capital replaced by its small letter. */
  function Lower(s: string): (r: string)
    ensures |r| == |s|
    ensures forall i :: 0 <= i < |s| ==> r[i] == LowerChar(s[i])
  {
    seq(|s|, i requires 0 <= i < |s| => LowerChar(s[i]))
  }

  /** Lowercasing works character by character, so it distributes over concatenation. */
  lemma LowerConcat(a: string, b: string)
    ensures Lower(a + b) == Lower(a) + Lower(b)
  {
    assert forall i :: 0 <= i < |a + b| ==> Lower(a + b)[i] == (Lower(a) + Lower(b))[i];
  }

  /** Lowercasing keeps exactly the hex strings hex, with the same value, and
      leaves nothing to lowercase a second time. */
  lemma {:induction false} LowerKeepsHexValue(d: string)
    ensures AllHex(Lower(d)) <==> AllHex(d)
    ensures AllHex(d) ==> HexValue(Lower(d)) == HexValue(d)
    ensures Lower(Lower(d)) == Lower(d)
    decreases |d|
  {
    var l := Lower(d);
    assert AllHex(l) <==> AllHex(d) by {
      if AllHex(d) {
        forall i | 0 <= i < |l| ensures IsHexChar(l[i]) { assert l[i] == LowerChar(d[i]); }
      }
      if AllHex(l) {
        forall i | 0 <= i < |d| ensures IsHexChar(d[i]) { assert l[i] == LowerChar(d[i]); }
      }
    }
    if d != [] && AllHex(d) {
      var init := d[..|d| - 1];
      assert l[..|l| - 1] == Lower(init);
      LowerKeepsHexValue(init);
    }
  }

  // ---------------------------------------------------------------------------
  // The 0x prefix
  // ---------------------------------------------------------------------------

  /** Whether `s` starts with "0x" or "0X". */
  predicate Is0xPrefixed(s: string) {
    |s| >= 2 && s[0] == '0' && (s[1] == 'x' || s[1] == 'X')
  }

  /** remove_0x_prefix: strip one leading "0x" or "0X" if present. */
  function Remove0xPrefix(s: string): (r: string)
    ensures !Is0xPrefixed(s) ==> r == s
    ensures Is0xPrefixed(s) ==> r == s[2..]
  {
    if Is0xPrefixed(s) then s[2..] else s
  }

  /** add_0x_prefix: prepend "0x" unless already prefixed. */
  function Add0xPrefix(s: string): (r: string)
    ensures Is0xPrefixed(r)
    ensures Remove0xPrefix(r) == Remove0xPrefix(s)
    ensures |r| == |Remove0xPrefix(s)| + 2
  {
    if Is0xPrefixed(s) then s else "0x" + s
  }

  lemma Add0xPrefixIdempotent(s: string)
    ensures Add0xPrefix(Add0xPrefix(s)) == Add0xPrefix(s)
  {
  }

  /** Stripping twice equals stripping once exactly when what is left after
      one strip is not itself prefixed ("0x0x1" is the exception). */
  lemma Remove0xPrefixTwice(s: string)
    ensures Remove0xPrefix(Remove0xPrefix(s)) == Remove0xPrefix(s)
        <==> !Is0xPrefixed(Remove0xPrefix(s))
  {
  }

  /** Lowercasing commutes with the prefix test and with stripping it. */
  lemma LowerPrefix(s: string)
    ensures Is0xPrefixed(Lower(s)) <==> Is0xPrefixed(s)
    ensures Is0xPrefixed(s) ==> Lower(s)[..2] == "0x"
    ensures Remove0xPrefix(Lower(s)) == Lower(Remove0xPrefix(s))
  {
    if Is0xPrefixed(s) {
      assert Lower(s)[2..] == Lower(s[2..]);
    }
  }

  // ---------------------------------------------------------------------------
  // Hex text <-> bytes
  // ---------------------------------------------------------------------------

  /** The two lowercase digits of one byte, high nibble first. */
  function ByteHex(b: byte): (r: string)
    ensures |r| == 2 && AllLowerHex(r)
    ensures HexCharValue(r[0]) * 16 + HexCharValue(r[1]) == b as int
  {
    [HexDigitChar(b as int / 16), HexDigitChar(b as int % 16)]
  }

  /** The lowercase hex digits of a byte sequence, two per byte, in order. */
  function HexPairs(b: seq<byte>): (r: string)
    ensures |r| == 2 * |b| && AllLowerHex(r)
    decreases |b|
  {
    if b == [] then "" else HexPairs(b[..|b| - 1]) + ByteHex(b[|b| - 1])
  }

  /** encode_hex: "0x" followed by the lowercase digits of every byte. */
  function EncodeHex(b: seq<byte>): (r: string)
    ensures |r| == 2 + 2 * |b| && r[..2] == "0x"
    ensures Is0xPrefixed(r) && Remove0xPrefix(r) == HexPairs(b)
    ensures AllLowerHex(r[2..])
  {
    "0x" + HexPairs(b)
  }

  /** The byte two hex digits denote, the first one being the high nibble. */
  function PairByte(hi: char, lo: char): (b: byte)
    requires IsHexChar(hi) && IsHexChar(lo)
    ensures b as int == HexCharValue(hi) * 16 + HexCharValue(lo)
  {
    (HexCharValue(hi) * 16 + HexCharValue(lo)) as byte
  }

  /** Pairwise decoding of an even-length digit string, most significant pair first. */
  function PairsToBytes(d: string): (r: seq<byte>)
    requires |d| % 2 == 0 && AllHex(d)
    ensures |r| == |d| / 2
    decreases |d|
  {
    if d == [] then [] else PairsToBytes(d[..|d| - 2]) + [PairByte(d[|d| - 2], d[|d| - 1])]
  }

  /** Byte i of the decoding is digit pair i, most significant pair first. */
  lemma {:induction false} PairsToBytesAt(d: string, i: nat)
    requires |d| % 2 == 0 && AllHex(d) && i < |d| / 2
    ensures PairsToBytes(d)[i] == PairByte(d[2 * i], d[2 * i + 1])
    decreases |d|
  {
    var init := d[..|d| - 2];
    if i < |init| / 2 {
      PairsToBytesAt(init, i);
      assert init[2 * i] == d[2 * i] && init[2 * i + 1] == d[2 * i + 1];
    }
  }

  /** The digits after the optional prefix decode when their count is even and
      every one of them is a hex digit. */
  function DecodeDigits(d: string): (r: Result<seq<byte>>)
    ensures r.Ok? <==> |d| % 2 == 0 && AllHex(d)
    ensures r.Err? ==> r.error == DecodingError
    ensures r.Ok? ==> |r.value| == |d| / 2
  {
    if |d| % 2 == 1 || !AllHex(d) then Err(DecodingError) else Ok(PairsToBytes(d))
  }

  /** decode_hex: strip an optional prefix, then decode the digits pairwise. */
  function DecodeHex(s: string): (r: Result<seq<byte>>)
    ensures r.Ok? <==> |Remove0xPrefix(s)| % 2 == 0 && AllHex(Remove0xPrefix(s))
    ensures r.Err? ==> r.error == DecodingError
    ensures r.Ok? ==> |r.value| == |Remove0xPrefix(s)| / 2
  {
    DecodeDigits(Remove0xPrefix(s))
  }

  /** Decoding two more digits appends one more byte. */
  lemma PairsToBytesSnoc(d: string, hi: char, lo: char)
    requires |d| % 2 == 0 && AllHex(d) && IsHexChar(hi) && IsHexChar(lo)
    ensures AllHex(d + [hi, lo])
    ensures PairsToBytes(d + [hi, lo]) == PairsToBytes(d) + [PairByte(hi, lo)]
  {
    var x := d + [hi, lo];
    assert x[..|x| - 2] == d;
  }

  lemma LowerHexIsHex(s: string)
    requires AllLowerHex(s)
    ensures AllHex(s)
  {
    forall i | 0 <= i < |s| ensures IsHexChar(s[i]) { assert IsLowerHexChar(s[i]); }
  }

  /** Decoding the digits of a byte sequence gives the byte sequence back. */
  lemma {:induction false} PairsOfHexPairs(b: seq<byte>)
    ensures AllHex(HexPairs(b)) && PairsToBytes(HexPairs(b)) == b
    decreases |b|
  {
    LowerHexIsHex(HexPairs(b));
    if b != [] {
      var init, last := b[..|b| - 1], b[|b| - 1];
      var hp, e := HexPairs(init), ByteHex(last);
      assert HexPairs(b) == hp + [e[0], e[1]];
      LowerHexIsHex(hp);
      PairsToBytesSnoc(hp, e[0], e[1]);
      var x := PairByte(e[0], e[1]);
      assert x == last;
      PairsOfHexPairs(init);
      FrontLast(b);
    }
  }

  /** Round trip: decode_hex(encode_hex(b)) == b. */
  lemma DecodeHexEncodeHex(b: seq<byte>)
    ensures DecodeHex(EncodeHex(b)) == Ok(b)
  {
    PairsOfHexPairs(b);
  }

  /** A non-hex character and an odd digit count are both refused by decode_hex. */
  lemma DecodeHexExamples()
    ensures DecodeHex("0xg1") == Err(DecodingError)
    ensures DecodeHex("0xabc") == Err(DecodingError)
    ensures DecodeHex("0x0abc") == Ok([0x0a, 0xbc])
  {
    assert Remove0xPrefix("0xg1") == "g1" && !IsHexChar("g1"[0]);
    assert Remove0xPrefix("0xabc") == "abc";
    var d := "0abc";
    assert Remove0xPrefix("0x0abc") == d && AllHex(d);
    PairsToBytesAt(d, 0);
    PairsToBytesAt(d, 1);
    var bs := PairsToBytes(d);
    assert bs[0] == PairByte(d[0], d[1]) && bs[0] as int == 0x0a;
    assert bs[1] == PairByte(d[2], d[3]) && bs[1] as int == 0xbc;
    assert bs == [0x0a, 0xbc];
  }

  /** Lowercasing the digits does not change what they decode to. */
  lemma DecodeDigitsLower(d: string)
    ensures DecodeDigits(Lower(d)) == DecodeDigits(d)
  {
    LowerKeepsHexValue(d);
    if |d| % 2 == 0 && AllHex(d) {
      var l := Lower(d);
      assert PairsToBytes(l) == PairsToBytes(d) by {
        forall i | 0 <= i < |d| / 2
          ensures PairsToBytes(l)[i] == PairsToBytes(d)[i]
        {
          PairsToBytesAt(l, i);
          PairsToBytesAt(d, i);
          assert l[2 * i] == LowerChar(d[2 * i]);
          assert l[2 * i + 1] == LowerChar(d[2 * i + 1]);
        }
      }
    }
  }

  // ---------------------------------------------------------------------------
  // Big-endian integers
  // ---------------------------------------------------------------------------

  /** big_endian_to_int: a left fold over the bytes; the value is zero exactly
      when every byte is (so the empty sequence is 0). */
  function BigEndianToInt(b: seq<byte>): (r: nat)
    ensures r == 0 <==> forall i :: 0 <= i < |b| ==> b[i] == 0
    decreases |b|
  {
    if b == [] then 0
    else
      var init := b[..|b| - 1];
      assert forall i :: 0 <= i < |init| ==> init[i] == b[i];
      BigEndianToInt(init) * 256 + b[|b| - 1] as int
  }

  /** A leading zero byte does not change the value. */
  lemma {:induction false} BigEndianLeadingZero(b: seq<byte>)
    ensures BigEndianToInt([0] + b) == BigEndianToInt(b)
    decreases |b|
  {
    var z := [0 as byte] + b;
    if b == [] {
      assert z[..|z| - 1] == [];
    } else {
      assert z[..|z| - 1] == [0 as byte] + b[..|b| - 1];
      assert z[|z| - 1] == b[|b| - 1];
      BigEndianLeadingZero(b[..|b| - 1]);
    }
  }

  /** The bytes a digit string decodes to are worth what the digits are worth. */
  lemma {:induction false} BigEndianOfPairs(d: string)
    requires |d| % 2 == 0 && AllHex(d)
    ensures BigEndianToInt(PairsToBytes(d)) == HexValue(d)
    decreases |d|
  {
    if d != [] {
      var init := d[..|d| - 2];
      var d1 := d[..|d| - 1];
      var hi, lo := d[|d| - 2], d[|d| - 1];
      var x := PairByte(hi, lo);
      assert d1[..|d1| - 1] == init && d1[|d1| - 1] == hi;
      assert HexValue(d1) == HexValue(init) * 16 + HexCharValue(hi);
      assert HexValue(d) == HexValue(d1) * 16 + HexCharValue(lo);
      var r := PairsToBytes(d);
      assert r == PairsToBytes(init) + [x];
      assert r[..|r| - 1] == PairsToBytes(init) && r[|r| - 1] == x;
      BigEndianOfPairs(init);
      assert BigEndianToInt(r) == HexValue(init) * 256 + x as int;
    }
  }

  /** A sequence that starts with a non-zero byte denotes a positive number. */
  lemma {:induction false} BigEndianPositive(b: seq<byte>)
    requires |b| >= 1 && b[0] != 0
    ensures BigEndianToInt(b) > 0
    decreases |b|
  {
    if |b| > 1 {
      var init := b[..|b| - 1];
      assert init[0] == b[0];
      BigEndianPositive(init);
    }
  }

  /** The shortest big-endian encoding of n: no leading zero byte, and one
      zero byte for 0. */
  function MinimalBigEndian(n: nat): (r: seq<byte>)
    ensures |r| >= 1 && (|r| == 1 || r[0] != 0)
    ensures BigEndianToInt(r) == n
    decreases n
  {
    if n < 256 then [n as byte] else MinimalBigEndian(n / 256) + [(n % 256) as byte]
  }

  /** No other minimal encoding denotes n. */
  lemma {:induction false} MinimalBigEndianUnique(b: seq<byte>, n: nat)
    requires |b| >= 1 && (|b| == 1 || b[0] != 0)
    requires BigEndianToInt(b) == n
    ensures b == MinimalBigEndian(n)
    decreases |b|
  {
    var init := b[..|b| - 1];
    if |b| > 1 {
      assert init[0] == b[0];
      BigEndianPositive(init);
      assert n / 256 == BigEndianToInt(init);
      MinimalBigEndianUnique(init, n / 256);
      FrontLast(b);
    }
  }

  // ---------------------------------------------------------------------------
  // Python's hex() on a non-negative integer
  // ---------------------------------------------------------------------------

  /** The minimal lowercase hex digits of n ("0" for 0). */
  function NatHexDigits(n: nat): (r: string)
    ensures |r| >= 1 && AllLowerHex(r) && AllHex(r)
    ensures |r| == 1 || r[0] != '0'
    ensures HexValue(r) == n
    decreases n
  {
    if n < 16 then [HexDigitChar(n)]
    else
      var high := NatHexDigits(n / 16);
      var r := high + [HexDigitChar(n % 16)];
      assert r[..|r| - 1] == high;
      assert r[0] == high[0];
      r
  }

  /** No other minimal lowercase digit string denotes n. */
  lemma {:induction false} NatHexDigitsUnique(d: string, n: nat)
    requires |d| >= 1 && AllLowerHex(d) && AllHex(d)
    requires |d| == 1 || d[0] != '0'
    requires HexValue(d) == n
    ensures d == NatHexDigits(n)
    decreases |d|
  {
    var init := d[..|d| - 1];
    var last := d[|d| - 1];
    LowerHexCharRoundTrip(last);
    if |d| > 1 {
      assert init[0] == d[0];
      HexValuePositive(init);
      assert n / 16 == HexValue(init);
      NatHexDigitsUnique(init, n / 16);
      FrontLast(d);
    }
  }

  /** hex(n): "0x" followed by the minimal lowercase digits. */
  function PyHex(n: nat): (r: string)
    ensures Is0xPrefixed(r) && r[..2] == "0x" && Remove0xPrefix(r) == NatHexDigits(n)
  {
    "0x" + NatHexDigits(n)
  }

  // ---------------------------------------------------------------------------
  // Python's int() on strict digit strings
  // ---------------------------------------------------------------------------

  /** int(s, 16): an optional "0x"/"0X" prefix, then at least one hex digit. */
  function ParseHexInt(s: string): (r: Result<nat>)
    ensures r.Ok? <==> |Remove0xPrefix(s)| > 0 && AllHex(Remove0xPrefix(s))
    ensures r.Err? ==> r.error == ParseError
    ensures r.Ok? ==> r.value == HexValue(Remove0xPrefix(s))
  {
    var d := Remove0xPrefix(s);
    if |d| == 0 || !AllHex(d) then Err(ParseError) else Ok(HexValue(d))
  }

  /** int(s): at least one decimal digit and nothing else. */
  function ParseDecInt(s: string): (r: Result<nat>)
    ensures r.Ok? <==> |s| > 0 && AllDec(s)
    ensures r.Err? ==> r.error == ParseError
    ensures r.Ok? ==> r.value == DecValue(s)
  {
    if |s| == 0 || !AllDec(s) then Err(ParseError) else Ok(DecValue(s))
  }

  /** str(n): the minimal decimal digits of n, the reference the decimal parse inverts. */
  function DecimalDigits(n: nat): (r: string)
    ensures |r| >= 1 && AllDec(r)
    ensures |r| == 1 || r[0] != '0'
    ensures DecValue(r) == n
    decreases n
  {
    if n < 10 then [DecDigitChar(n)]
    else
      var high := DecimalDigits(n / 10);
      var r := high + [DecDigitChar(n % 10)];
      assert r[..|r| - 1] == high;
      assert r[0] == high[0];
      r
  }

  lemma ParseDecimalDigits(n: nat)
    ensures ParseDecInt(DecimalDigits(n)) == Ok(n)
  {
  }

  // ---------------------------------------------------------------------------
  // UTF-8 (RFC 3629, section 3)
  // ---------------------------------------------------------------------------

  /** The scalar value an encoded sequence of one to four bytes carries. */
  function Utf8Value(r: seq<byte>): int
    requires 1 <= |r| <= 4
  {
    if |r| == 1 then r[0] as int
    else if |r| == 2 then (r[0] as int - 0xC0) * 0x40 + (r[1] as int - 0x80)
    else if |r| == 3 then
      ((r[0] as int - 0xE0) * 0x40 + (r[1] as int - 0x80)) * 0x40 + (r[2] as int - 0x80)
    else
      (((r[0] as int - 0xF0) * 0x40 + (r[1] as int - 0x80)) * 0x40 + (r[2] as int - 0x80)) * 0x40
        + (r[3] as int - 0x80)
  }

  /** Splits a non-negative value into its quotient and remainder by 64. */
  lemma Split64(x: int)
    requires x >= 0
    ensures x == (x / 0x40) * 0x40 + x % 0x40 && 0 <= x % 0x40 < 0x40
  {
  }

  function Utf8Two(cp: int): (r: seq<byte>)
    requires 0x80 <= cp < 0x800
    ensures |r| == 2 && 0xC0 <= r[0] < 0xE0 && 0x80 <= r[1] < 0xC0
    ensures Utf8Value(r) == cp
  {
    Split64(cp);
    [(0xC0 + cp / 0x40) as byte, (0x80 + cp % 0x40) as byte]
  }

  function Utf8Three(cp: int): (r: seq<byte>)
    requires 0x800 <= cp < 0x10000
    ensures |r| == 3 && 0xE0 <= r[0] < 0xF0
    ensures 0x80 <= r[1] < 0xC0 && 0x80 <= r[2] < 0xC0
    ensures Utf8Value(r) == cp
  {
    var q := cp / 0x40;
    Split64(cp);
    Split64(q);
    assert q / 0x40 == cp / 0x1000;
    [(0xE0 + q / 0x40) as byte, (0x80 + q % 0x40) as byte, (0x80 + cp % 0x40) as byte]
  }

  function Utf8Four(cp: int): (r: seq<byte>)
    requires 0x10000 <= cp < 0x110000
    ensures |r| == 4 && 0xF0 <= r[0] < 0xF8
    ensures 0x80 <= r[1] < 0xC0 && 0x80 <= r[2] < 0xC0 && 0x80 <= r[3] < 0xC0
    ensures Utf8Value(r) == cp
  {
    var q := cp / 0x40;
    var q2 := q / 0x40;
    Split64(cp);
    Split64(q);
    Split64(q2);
    assert q2 / 0x40 == cp / 0x40000;
    [(0xF0 + q2 / 0x40) as byte, (0x80 + q2 % 0x40) as byte,
     (0x80 + q % 0x40) as byte, (0x80 + cp % 0x40) as byte]
  }

  /** The UTF-8 encoding of one Unicode scalar value. */
  function Utf8Char(c: char): (r: seq<byte>)
    ensures 1 <= |r| <= 4
    ensures |r| == 1 <==> c as int < 0x80
    ensures |r| == 2 <==> 0x80 <= c as int < 0x800
    ensures |r| == 3 <==> 0x800 <= c as int < 0x10000
    ensures |r| == 4 <==> 0x10000 <= c as int
    ensures |r| == 1 ==> r[0] < 0x80
    ensures |r| == 2 ==> 0xC0 <= r[0] < 0xE0
    ensures |r| == 3 ==> 0xE0 <= r[0] < 0xF0
    ensures |r| == 4 ==> 0xF0 <= r[0] < 0xF8
    ensures forall i :: 1 <= i < |r| ==> 0x80 <= r[i] < 0xC0
    ensures Utf8Value(r) == c as int
  {
    var cp := c as int;
    if cp < 0x80 then [cp as byte]
    else if cp < 0x800 then Utf8Two(cp)
    else if cp < 0x10000 then Utf8Three(cp)
    else Utf8Four(cp)
  }

  /** The length a lead byte announces, or 0 for a byte no character starts with. */
  function Utf8Length(x: byte): (k: nat)
    ensures k <= 4
  {
    if x < 0x80 then 1
    else if 0xC0 <= x < 0xE0 then 2
    else if 0xE0 <= x < 0xF0 then 3
    else if 0xF0 <= x < 0xF8 then 4
    else 0
  }

  /** The scalar values a k-byte sequence may carry: the shortest form only,
      no surrogate, nothing above U+10FFFF. */
  predicate Utf8InRange(k: nat, v: int)
  {
    && (k == 1 ==> 0 <= v < 0x80)
    && (k == 2 ==> 0x80 <= v < 0x800)
    && (k == 3 ==> 0x800 <= v < 0x10000 && !(0xD800 <= v < 0xE000))
    && (k == 4 ==> 0x10000 <= v < 0x110000)
  }

  /** A strict UTF-8 decoder (RFC 3629, section 3): the reference the encoder is
      checked against. */
  function DecodeUtf8(b: seq<byte>): (r: Option<string>)
    ensures r.Some? ==> |r.value| <= |b|
    decreases |b|
  {
    if b == [] then Some([])
    else
      var k := Utf8Length(b[0]);
      if k == 0 || |b| < k || !(forall i :: 1 <= i < k ==> 0x80 <= b[i] < 0xC0) then None
      else
        var v := Utf8Value(b[..k]);
        if !Utf8InRange(k, v) then None
        else
          match DecodeUtf8(b[k..])
          case None => None
          case Some(rest) => Some([v as char] + rest)
  }

  /** str.encode("utf-8"): the encodings of the characters, in order. */
  function EncodeUtf8(t: string): (r: seq<byte>)
    ensures |t| <= |r| <= 4 * |t|
    ensures (forall i :: 0 <= i < |t| ==> t[i] as int < 0x80) ==>
      |r| == |t| && forall i :: 0 <= i < |t| ==> r[i] as int == t[i] as int
    decreases |t|
  {
    if t == [] then [] else Utf8Char(t[0]) + EncodeUtf8(t[1..])
  }

  /** One character's encoding, in front of any bytes, is decoded as that
      character followed by whatever those bytes decode to. */
  lemma Utf8CharDecodes(c: char, rest: seq<byte>)
    requires DecodeUtf8(rest).Some?
    ensures DecodeUtf8(Utf8Char(c) + rest) == Some([c] + DecodeUtf8(rest).value)
  {
    var e := Utf8Char(c);
    var b := e + rest;
    var k := |e|;
    assert b[0] == e[0];
    assert Utf8Length(b[0]) == k;
    assert b[..k] == e;
    assert b[k..] == rest;
    assert forall i :: 1 <= i < k ==> 0x80 <= b[i] < 0xC0;
    assert Utf8InRange(k, c as int);
  }

  /** Decoding the encoding of a text gives the text back: the encoder loses
      nothing and puts the characters' bytes in order. */
  lemma {:induction false} DecodeEncodeUtf8(t: string)
    ensures DecodeUtf8(EncodeUtf8(t)) == Some(t)
    decreases |t|
  {
    if t != [] {
      assert EncodeUtf8(t) == Utf8Char(t[0]) + EncodeUtf8(t[1..]);
      DecodeEncodeUtf8(t[1..]);
      Utf8CharDecodes(t[0], EncodeUtf8(t[1..]));
      assert [t[0]] + t[1..] == t;
    }
  }
}
