/** The conversion façade: to_hex, to_int and to_bytes over one request that
    carries exactly one of the three keyword arguments. */
module Conversions {
  import opened Outcomes
  import opened Codec

  /** A value in the `primitive` slot, classified by its Python type. A bool is
      its own variant, so it can never take the integer path; `Other` is any
      non-None value of a type the conversions do not accept (a float, a list). */
  datatype Primitive =
    | Bool(flag: bool)
    | Int(n: nat)
    | Bytes(bytes: seq<byte>)
    | Str(s: string)
    | Other

  /** A call with exactly one keyword argument supplied. */
  datatype Request =
    | Primitive(value: Primitive)
    | HexStr(hex: string)
    | Text(text: string)

  /** Whether exactly one of the three keyword arguments is supplied. */
  predicate ExactlyOne(primitive: Option<Primitive>, hexstr: Option<string>, text: Option<string>) {
    || (primitive.Some? && hexstr.None? && text.None?)
    || (primitive.None? && hexstr.Some? && text.None?)
    || (primitive.None? && hexstr.None? && text.Some?)
  }

  /** The argument check every conversion runs first: no argument and more than
      one argument are both refused, whatever the values. */
  function Validate(primitive: Option<Primitive>, hexstr: Option<string>, text: Option<string>)
    : (r: Result<Request>)
    ensures r.Ok? <==> ExactlyOne(primitive, hexstr, text)
    ensures r == Err(NoArgument) <==> primitive.None? && hexstr.None? && text.None?
    ensures r.Err? ==> r.error == NoArgument || r.error == ConflictingArguments
    ensures r.Ok? && primitive.Some? ==> r.value == Primitive(primitive.value)
    ensures r.Ok? && hexstr.Some? ==> r.value == HexStr(hexstr.value)
    ensures r.Ok? && text.Some? ==> r.value == Text(text.value)
  {
    var count := (if primitive.Some? then 1 else 0)
               + (if hexstr.Some? then 1 else 0)
               + (if text.Some? then 1 else 0);
    if count == 0 then Err(NoArgument)
    else if count > 1 then Err(ConflictingArguments)
    else if hexstr.Some? then Ok(HexStr(hexstr.value))
    else if text.Some? then Ok(Text(text.value))
    else Ok(Primitive(primitive.value))
  }

  /** to_hex. Every result is "0x" followed by digits; only hex input may keep
      non-digit characters, and even then no capital letters. */
  function ToHex(req: Request): (r: Result<string>)
    ensures r.Err? <==> req.Primitive? && (req.value.Str? || req.value.Other?)
    ensures r == Err(StrPrimitive) <==> req.Primitive? && req.value.Str?
    ensures r == Err(UnsupportedType) <==> req.Primitive? && req.value.Other?
    ensures req.Primitive? && req.value.Bytes? ==> r == Ok(EncodeHex(req.value.bytes))
    ensures r.Ok? ==> |r.value| >= 2 && r.value[..2] == "0x"
    ensures r.Ok? && !req.HexStr? ==> AllLowerHex(r.value[2..])
    ensures r.Ok? && req.HexStr? ==> forall i :: 0 <= i < |r.value| ==> !('A' <= r.value[i] <= 'Z')
  {
    match req
    case HexStr(s) =>
      LowerPrefix(s);
      Ok(Add0xPrefix(Lower(s)))
    case Text(t) => Ok(EncodeHex(EncodeUtf8(t)))
    case Primitive(p) =>
      match p
      case Bool(b) => Ok(if b then "0x1" else "0x0")
      case Bytes(b) => Ok(EncodeHex(b))
      case Str(_) => Err(StrPrimitive)
      case Int(n) => Ok(PyHex(n))
      case Other => Err(UnsupportedType)
  }

  /** to_int. Hex text is read in base 16, text in base 10, bytes big-endian. */
  function ToInt(req: Request): (r: Result<nat>)
    ensures r.Err? <==> || (req.Primitive? && (req.value.Str? || req.value.Other?))
                        || (req.HexStr? && !(|Remove0xPrefix(req.hex)| > 0 && AllHex(Remove0xPrefix(req.hex))))
                        || (req.Text? && !(|req.text| > 0 && AllDec(req.text)))
    ensures r == Err(StrNeedsKeyword) <==> req.Primitive? && req.value.Str?
    ensures r == Err(UnsupportedType) <==> req.Primitive? && req.value.Other?
    ensures (req.HexStr? || req.Text?) && r.Err? ==> r.error == ParseError
    ensures req.Primitive? && req.value.Bool? ==> r == Ok(if req.value.flag then 1 else 0)
    ensures req.Primitive? && req.value.Int? ==> r == Ok(req.value.n)
    ensures req.Primitive? && req.value.Bytes? ==> r == Ok(BigEndianToInt(req.value.bytes))
    ensures req.HexStr? && r.Ok? ==> r.value == HexValue(Remove0xPrefix(req.hex))
    ensures req.Text? && r.Ok? ==> r.value == DecValue(req.text)
  {
    match req
    case HexStr(s) => ParseHexInt(s)
    case Text(t) => ParseDecInt(t)
    case Primitive(p) =>
      match p
      case Bytes(b) => Ok(BigEndianToInt(b))
      case Str(_) => Err(StrNeedsKeyword)
      case Bool(b) => Ok(if b then 1 else 0)
      case Int(n) => Ok(n)
      case Other => Err(UnsupportedType)
  }

  /** to_bytes. Primitives are examined first; an integer goes through its hex
      form; odd-length hex text gets one "0" after the prefix. */
  function ToBytes(req: Request): (r: Result<seq<byte>>)
    ensures r.Err? ==> r.error == UnsupportedType || r.error == DecodingError
    ensures req.Text? ==> r.Ok?
    decreases if req.Primitive? then 1 else 0
  {
    match req
    case Primitive(Bool(b)) => Ok([if b then 1 else 0])
    case Primitive(Bytes(b)) => Ok(b)
    case Primitive(Int(n)) => ToBytes(HexStr(ToHex(Primitive(Int(n))).value))
    case Primitive(_) => Err(UnsupportedType)
    case HexStr(s) => DecodeHex(PaddedHex(s))
    case Text(t) => Ok(EncodeUtf8(t))
  }

  /** The hex text to_bytes decodes: an odd-length text becomes "0x0" and its
      digits. Parity is taken over the whole text, which has the parity of its
      digits because the prefix has two characters; so the digits that are
      decoded are always the original ones padded to even length. */
  function PaddedHex(s: string): (h: string)
    ensures Remove0xPrefix(h) == PadEven(Remove0xPrefix(s))
  {
    if |s| % 2 == 1 then
      var h := "0x0" + Remove0xPrefix(s);
      assert Is0xPrefixed(h) && h[2..] == "0" + Remove0xPrefix(s);
      h
    else s
  }

  // ---------------------------------------------------------------------------
  // Booleans
  // ---------------------------------------------------------------------------

  /** A bool gives "0x1"/"0x0", the single byte 1/0 and the number 1/0 — the
      same results the integers 1 and 0 give on their own path. */
  lemma BoolMatchesIntPath(b: bool)
    ensures ToHex(Primitive(Bool(b))) == Ok(if b then "0x1" else "0x0")
    ensures ToBytes(Primitive(Bool(b))) == Ok([if b then 1 else 0])
    ensures ToInt(Primitive(Bool(b))) == Ok(if b then 1 else 0)
    ensures ToHex(Primitive(Bool(b))) == ToHex(Primitive(Int(if b then 1 else 0)))
    ensures ToBytes(Primitive(Bool(b))) == ToBytes(Primitive(Int(if b then 1 else 0)))
    ensures ToInt(Primitive(Bool(b))) == ToInt(Primitive(Int(if b then 1 else 0)))
  {
    var k: nat := if b then 1 else 0;
    var d := if b then "1" else "0";
    assert d[..0] == [];
    assert HexValue(d) == k;
    ToHexIntMinimal(k, d);
    assert "0x" + d == (if b then "0x1" else "0x0");
    ToBytesInt(k);
    assert MinimalBigEndian(k) == [k as byte];
  }

  // ---------------------------------------------------------------------------
  // Integers
  // ---------------------------------------------------------------------------

  /** to_hex of n is "0x" followed by THE minimal lowercase digit string of n:
      any lowercase digit string without a leading zero that denotes n. */
  lemma ToHexIntMinimal(n: nat, d: string)
    requires |d| >= 1 && AllLowerHex(d)
    requires |d| == 1 || d[0] != '0'
    requires AllHex(d) && HexValue(d) == n
    ensures ToHex(Primitive(Int(n))) == Ok("0x" + d)
  {
    NatHexDigitsUnique(d, n);
  }

  lemma ToHexIntExamples()
    ensures ToHex(Primitive(Int(0))) == Ok("0x0")
    ensures ToHex(Primitive(Int(255))) == Ok("0xff")
  {
    assert "0"[..0] == [];
    assert HexValue("0") == 0;
    ToHexIntMinimal(0, "0");
    assert "0x" + "0" == "0x0";
    assert "ff"[..1] == "f" && "f"[..0] == [];
    assert HexValue("ff") == 255;
    ToHexIntMinimal(255, "ff");
    assert "0x" + "ff" == "0xff";
  }

  /** Round trip: reading the hex form of n in base 16 gives n back. */
  lemma RoundTripIntHex(n: nat)
    ensures ToHex(Primitive(Int(n))).Ok?
    ensures ToInt(HexStr(ToHex(Primitive(Int(n))).value)) == Ok(n)
  {
  }

  /** The digits to_bytes decodes: one "0" in front when their count is odd. */
  function PadEven(d: string): (r: string)
    ensures |r| % 2 == 0 && |r| == |d| + |d| % 2
  {
    if |d| % 2 == 1 then "0" + d else d
  }

  /** Padding adds no character that is not a hex digit, and no value. */
  lemma PadEvenHex(d: string)
    ensures AllHex(PadEven(d)) <==> AllHex(d)
    ensures AllHex(d) ==> HexValue(PadEven(d)) == HexValue(d)
  {
    var p := PadEven(d);
    if |d| % 2 == 1 {
      assert p == "0" + d;
      if AllHex(d) {
        HexValueLeadingZero(d);
      }
      if AllHex(p) {
        forall i | 0 <= i < |d| ensures IsHexChar(d[i]) { assert d[i] == p[i + 1]; }
      }
    }
  }

  /** to_bytes of n is the minimal big-endian encoding of n (a single zero
      byte for 0), and to_int reads it back as n. */
  lemma ToBytesInt(n: nat)
    ensures ToBytes(Primitive(Int(n))) == Ok(MinimalBigEndian(n))
    ensures ToInt(Primitive(Bytes(MinimalBigEndian(n)))) == Ok(n)
  {
    var d := NatHexDigits(n);
    var p := PadEven(d);
    ToBytesHexStr(PyHex(n));
    var bs := PairsToBytes(p);
    assert ToBytes(Primitive(Int(n))) == Ok(bs);
    BigEndianOfPairs(p);
    assert |bs| == 1 || bs[0] != 0 by {
      PairsToBytesAt(p, 0);
      if |d| > 1 {
        if |d| % 2 == 1 {
          assert p[0] == '0' && p[1] == d[0];
        } else {
          assert p[0] == d[0];
        }
      }
    }
    MinimalBigEndianUnique(bs, n);
    assert BigEndianToInt(MinimalBigEndian(n)) == n;
  }

  // ---------------------------------------------------------------------------
  // Hex text
  // ---------------------------------------------------------------------------

  /** to_bytes of hex text depends only on the digits after the optional
      prefix: it succeeds exactly when they are all hex digits, and then gives
      ceil(digits / 2) bytes, decoded pairwise from the digits padded to even
      length, worth what the digits are worth. */
  lemma ToBytesHexStr(s: string)
    ensures ToBytes(HexStr(s)) == DecodeDigits(PadEven(Remove0xPrefix(s)))
    ensures ToBytes(HexStr(s)).Ok? <==> AllHex(Remove0xPrefix(s))
    ensures ToBytes(HexStr(s)).Ok? ==>
      && AllHex(PadEven(Remove0xPrefix(s)))
      && ToBytes(HexStr(s)).value == PairsToBytes(PadEven(Remove0xPrefix(s)))
      && |ToBytes(HexStr(s)).value| == (|Remove0xPrefix(s)| + 1) / 2
      && BigEndianToInt(ToBytes(HexStr(s)).value) == HexValue(Remove0xPrefix(s))
  {
    var d := Remove0xPrefix(s);
    var p := PadEven(d);
    PadEvenHex(d);
    if AllHex(d) {
      BigEndianOfPairs(p);
    }
  }

  /** An odd digit count is padded: "0xabc" decodes like "0x0abc" and like "abc". */
  lemma OddHexPadding(d: string)
    requires |d| % 2 == 1 && !Is0xPrefixed(d)
    ensures ToBytes(HexStr("0x" + d)) == ToBytes(HexStr("0x0" + d))
    ensures ToBytes(HexStr(d)) == ToBytes(HexStr("0x0" + d))
  {
    ToBytesHexStr("0x" + d);
    ToBytesHexStr("0x0" + d);
    ToBytesHexStr(d);
    assert Remove0xPrefix("0x" + d) == d;
    assert Remove0xPrefix("0x0" + d) == "0" + d;
  }

  lemma OddHexPaddingExample()
    ensures ToBytes(HexStr("0xabc")) == ToBytes(HexStr("0x0abc")) == Ok([0x0a, 0xbc])
  {
    assert Remove0xPrefix("0xabc") == "abc" && PadEven("abc") == "0abc";
    assert Remove0xPrefix("0x0abc") == "0abc" && PadEven("0abc") == "0abc";
    assert DecodeHex("0x0abc") == DecodeDigits("0abc");
    DecodeHexExamples();
  }

  /** The normal form to_hex gives hex text: prefixed, with the input's digits
      lowercased, and already lowercase itself. */
  lemma NormalizedHexText(s: string)
    ensures Is0xPrefixed(Add0xPrefix(Lower(s)))
    ensures Remove0xPrefix(Add0xPrefix(Lower(s))) == Lower(Remove0xPrefix(s))
    ensures Lower(Add0xPrefix(Lower(s))) == Add0xPrefix(Lower(s))
  {
    var l := Lower(s);
    LowerPrefix(s);
    LowerKeepsHexValue(s);
    if !Is0xPrefixed(l) {
      LowerConcat("0x", l);
      assert Lower("0x") == "0x";
    }
  }

  /** Lowercasing commutes with padding. */
  lemma PadEvenLower(d: string)
    ensures PadEven(Lower(d)) == Lower(PadEven(d))
  {
    if |d| % 2 == 1 {
      var p := PadEven(d);
      assert p == "0" + d;
      forall i | 0 <= i < |p| ensures Lower(p)[i] == ("0" + Lower(d))[i] {
        if i > 0 { assert p[i] == d[i - 1]; }
      }
    }
  }

  /** Every capital letter is lowered, not only the hex digits. */
  lemma HexStrLowerExample()
    ensures ToHex(HexStr("0xG")) == Ok("0xg")
  {
    var s := "0xG";
    assert Lower(s) == "0xg";
    assert Is0xPrefixed("0xg");
  }

  /** to_hex of hex text lowercases it and makes sure of one "0x": feeding the
      result back in changes nothing, and the number and the bytes it stands
      for are those of the input. */
  lemma ToHexHexStr(s: string)
    ensures ToHex(HexStr(s)) == Ok(Add0xPrefix(Lower(s)))
    ensures ToHex(HexStr(ToHex(HexStr(s)).value)) == ToHex(HexStr(s))
    ensures ToInt(HexStr(ToHex(HexStr(s)).value)) == ToInt(HexStr(s))
    ensures ToBytes(HexStr(ToHex(HexStr(s)).value)) == ToBytes(HexStr(s))
  {
    var h := Add0xPrefix(Lower(s));
    var d := Remove0xPrefix(s);
    NormalizedHexText(s);
    LowerKeepsHexValue(d);
    ToBytesHexStr(s);
    ToBytesHexStr(h);
    PadEvenLower(d);
    DecodeDigitsLower(PadEven(d));
  }

  // ---------------------------------------------------------------------------
  // Bytes
  // ---------------------------------------------------------------------------

  /** Bytes keep every digit pair: to_hex(b"\x0a") is "0x0a", not the
      integer-style "0xa", and the result has two digits per byte. */
  lemma ToHexBytesExample()
    ensures ToHex(Primitive(Bytes([0x0a]))) == Ok("0x0a")
    ensures forall b: seq<byte> :: |ToHex(Primitive(Bytes(b))).value| == 2 + 2 * |b|
  {
    var e: seq<byte> := [0x0a];
    assert e[..0] == [];
    assert ByteHex(0x0a) == "0a";
    assert HexPairs(e) == "0a";
    assert "0x" + "0a" == "0x0a";
  }

  /** A byte sequence survives to_bytes unchanged, and survives the trip
      through its hex form; a non-empty one read as hex is its big-endian value. */
  lemma RoundTripBytesHex(b: seq<byte>)
    ensures ToBytes(Primitive(Bytes(b))) == Ok(b)
    ensures ToHex(Primitive(Bytes(b))).Ok?
    ensures ToBytes(HexStr(ToHex(Primitive(Bytes(b))).value)) == Ok(b)
    ensures b != [] ==> ToInt(HexStr(ToHex(Primitive(Bytes(b))).value)) == ToInt(Primitive(Bytes(b)))
  {
    var h := EncodeHex(b);
    DecodeHexEncodeHex(b);
    PairsOfHexPairs(b);
    BigEndianOfPairs(HexPairs(b));
  }

  /** Leading zero bytes do not change to_int; together with
      MinimalBigEndianUnique this fixes to_int on every byte sequence. */
  lemma {:induction false} ToIntBytesLeadingZeros(z: seq<byte>, b: seq<byte>)
    requires forall i :: 0 <= i < |z| ==> z[i] == 0
    ensures ToInt(Primitive(Bytes(z + b))) == ToInt(Primitive(Bytes(b)))
    decreases |z|
  {
    if z != [] {
      assert z + b == [0 as byte] + (z[1..] + b);
      BigEndianLeadingZero(z[1..] + b);
      assert BigEndianToInt(z + b) == BigEndianToInt(z[1..] + b);
      ToIntBytesLeadingZeros(z[1..], b);
      assert ToInt(Primitive(Bytes(z[1..] + b))) == Ok(BigEndianToInt(z[1..] + b));
    } else {
      assert z + b == b;
    }
  }

  lemma ToIntBytesExamples()
    ensures ToInt(Primitive(Bytes([]))) == Ok(0)
    ensures ToInt(Primitive(Bytes([0, 1]))) == Ok(1)
    ensures ToInt(Primitive(Bytes([1, 0]))) == Ok(256)
  {
    var a: seq<byte> := [0, 1];
    var c: seq<byte> := [1, 0];
    assert a[..1] == [0] && c[..1] == [1];
    assert [0 as byte][..0] == [] && [1 as byte][..0] == [];
  }

  // ---------------------------------------------------------------------------
  // Text
  // ---------------------------------------------------------------------------

  /** to_hex of text is the hex form of its UTF-8 bytes, the bytes to_bytes
      gives for the same text. */
  lemma ToHexText(t: string)
    ensures ToHex(Text(t)) == Ok(EncodeHex(EncodeUtf8(t)))
    ensures ToBytes(HexStr(ToHex(Text(t)).value)) == ToBytes(Text(t))
  {
    DecodeHexEncodeHex(EncodeUtf8(t));
    PairsOfHexPairs(EncodeUtf8(t));
  }

  /** The bytes to_bytes gives for text decode back to exactly that text. */
  lemma ToBytesTextDecodes(t: string)
    ensures ToBytes(Text(t)).Ok? && DecodeUtf8(ToBytes(Text(t)).value) == Some(t)
  {
    DecodeEncodeUtf8(t);
  }

  lemma TextHexExample()
    ensures ToHex(Text("A")) == Ok("0x41")
  {
    assert "A"[1..] == [];
    assert EncodeUtf8("A") == [0x41];
    var e: seq<byte> := [0x41];
    assert e[..0] == [];
    assert ByteHex(0x41) == "41";
    assert HexPairs(e) == "41";
    assert "0x" + "41" == "0x41";
  }

  lemma TextIntExample()
    ensures ToInt(Text("12")) == Ok(12)
  {
    assert "12"[..1] == "1" && "1"[..0] == [];
    assert AllDec("12");
    assert DecValue("12") == 12;
  }

  /** A character above U+007F takes its shortest form: U+00E9 is two bytes. */
  lemma TextTwoByteExample()
    ensures ToBytes(Text("\U{E9}")) == Ok([0xC3, 0xA9])
  {
    var t := "\U{E9}";
    assert t[1..] == [];
    assert EncodeUtf8(t) == Utf8Char(t[0]);
    assert Utf8Two(0xE9) == [0xC3, 0xA9];
  }

  /** A leading zero digit after the prefix does not change what to_int reads
      from hex text. */
  lemma HexStrLeadingZero(d: string)
    requires d != []
    ensures ToInt(HexStr("0x0" + d)) == ToInt(HexStr("0x" + d))
  {
    var h0, h := "0x0" + d, "0x" + d;
    assert Remove0xPrefix(h0) == "0" + d by { assert Is0xPrefixed(h0) && h0[2..] == "0" + d; }
    assert Remove0xPrefix(h) == d by { assert Is0xPrefixed(h) && h[2..] == d; }
    if AllHex(d) {
      HexValueLeadingZero(d);
    } else {
      var i :| 0 <= i < |d| && !IsHexChar(d[i]);
      assert ("0" + d)[i + 1] == d[i];
    }
  }

  /** A leading zero digit does not change what to_int reads from decimal text. */
  lemma TextLeadingZero(t: string)
    requires t != []
    ensures ToInt(Text("0" + t)) == ToInt(Text(t))
  {
    if AllDec(t) {
      DecValueLeadingZero(t);
    } else {
      var i :| 0 <= i < |t| && !IsDecChar(t[i]);
      assert ("0" + t)[i + 1] == t[i];
    }
  }

  lemma HexStrLeadingZeroExample()
    ensures ToInt(HexStr("0x0ff")) == Ok(255)
  {
    assert "0x0ff" == "0x0" + "ff" && "0xff" == "0x" + "ff";
    HexStrLeadingZero("ff");
    var h := "0xff";
    assert Is0xPrefixed(h) && Remove0xPrefix(h) == "ff";
    assert "ff"[..1] == "f" && "f"[..0] == [];
    assert HexValue("ff") == 255;
  }

  lemma TextLeadingZeroExample()
    ensures ToInt(Text("007")) == Ok(7)
  {
    assert "007" == "0" + "07" && "07" == "0" + "7";
    TextLeadingZero("07");
    TextLeadingZero("7");
    assert "7"[..0] == [];
    assert DecValue("7") == 7;
  }

  /** Decimal text is read back as the number it prints. */
  lemma ToIntDecimalText(n: nat)
    ensures ToInt(Text(DecimalDigits(n))) == Ok(n)
  {
  }

  // ---------------------------------------------------------------------------
  // Errors
  // ---------------------------------------------------------------------------

  /** to_bytes fails exactly on a str or unsupported primitive (UnsupportedType)
      and on hex text whose digits are not all hex (DecodingError). */
  lemma ToBytesErrors(req: Request)
    ensures ToBytes(req).Err? <==>
      || (req.Primitive? && (req.value.Str? || req.value.Other?))
      || (req.HexStr? && !AllHex(Remove0xPrefix(req.hex)))
    ensures ToBytes(req) == Err(UnsupportedType) <==>
      req.Primitive? && (req.value.Str? || req.value.Other?)
  {
    match req
    case Primitive(Int(n)) => ToBytesInt(n);
    case HexStr(s) => ToBytesHexStr(s);
    case _ =>
  }

  /** Supplying two arguments is refused even when they agree, and supplying
      none is refused too. */
  lemma ValidateExamples()
    ensures Validate(Some(Int(1)), Some("0x1"), None) == Err(ConflictingArguments)
    ensures Validate(None, None, None) == Err(NoArgument)
    ensures Validate(None, None, Some("A")) == Ok(Text("A"))
  {
  }
}
