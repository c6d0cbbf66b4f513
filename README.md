# trx-utils conversions in Dafny

This project models the value-conversion layer of `trx_utils`. It has three
public operations, and each takes exactly one of three keyword arguments
(`primitive`, `hexstr`, `text`):

- `to_hex` turns a bool, an unsigned integer, a byte sequence, hex text or
  plain text into `0x`-prefixed hex text. Integers get minimal hex with no
  padding.
- `to_int` reads hex text in base 16, plain text in base 10 and bytes as a
  big-endian number. A bool gives 1 or 0, and an integer comes back unchanged.
- `to_bytes` gives a bool as one byte and bytes unchanged. An integer goes
  through its hex form. Hex text is decoded pairwise, and an odd digit count
  gets one `0` after the prefix. Text is encoded as UTF-8.

Everything is pure, so the model is datatypes, functions and lemmas:

- `outcomes.dfy` (module `Outcomes`): optional arguments, the error kinds,
  and `Result`.
- `codec.dfy` (module `Codec`): the helpers the conversions import. These are
  `encode_hex`, `decode_hex`, `add_0x_prefix`, `remove_0x_prefix`,
  `big_endian_to_int`, Python's `hex()`, `int()` on strict digit strings,
  ASCII lowercasing and UTF-8 encoding. Their code is not part of this model,
  so they are written as plain reference definitions. The module also holds
  their round trips and an independent minimal big-endian encoder.
- `conversions.dfy` (module `Conversions`): a `Primitive` value type and a
  three-variant `Request`. The `Request` stands in for the keyword arguments
  that the argument check (`validate_conversion_arguments`) has already
  reduced to exactly one. The module also holds `Validate` (that check),
  `ToHex`, `ToInt`, `ToBytes`, and the lemmas that connect them.

Error kinds follow the source's raise sites. A `str` in the primitive slot
gives `StrPrimitive` in `to_hex` (line 40) and `StrNeedsKeyword` in `to_int`
(line 74). Any other unsupported primitive gives `UnsupportedType` (lines 48
and 98). A `str` primitive reaches the final `TypeError` of `to_bytes`, so it
also gives `UnsupportedType` there. Malformed hex gives `DecodingError` in
`decode_hex` and `ParseError` in `int()`.

Notes on the definitions:

- `remove_0x_prefix` strips exactly one prefix, so it is not idempotent:
  `"0x0x1"` strips to `"0x1"` and then to `"1"`. `Codec.Remove0xPrefixTwice`
  proves that stripping twice equals stripping once exactly when the first
  strip leaves no prefix behind.
- The parity test on line 92 counts the whole text, prefix included. The
  prefix has two characters, so this parity always equals the parity of the
  digit count (`Conversions.PaddedHex`). Unprefixed `"abc"` decodes like
  `"0x0abc"`.
- `add_0x_prefix` is defined here to treat a `0X` prefix as present, the same
  test `remove_0x_prefix` uses. `to_hex` lowercases before adding the prefix,
  so the choice is never visible through the conversions.

## Model

| member | source | states |
|---|---|---|
| `Conversions.Validate` | trx_utils/conversions.py:19-22 | succeeds exactly when one of primitive, hexstr, text is supplied, and builds that request; none gives NoArgument, more than one gives ConflictingArguments |
| `Conversions.ValidateExamples` | trx_utils/conversions.py:19-21 | primitive=1 with hexstr="0x1" is refused even though they agree; a call with no argument is refused |
| `Conversions.ToHex` | trx_utils/conversions.py:20-51 | fails exactly for a str primitive, with StrPrimitive, and for other unsupported primitives, with UnsupportedType (each kind exactly in its own case); bytes give encode_hex of the bytes, two lowercase digits per byte; every result starts with "0x"; after the prefix it is lowercase hex digits for every non-hexstr input; a hexstr result holds no capital letter |
| `Conversions.ToHexHexStr` | trx_utils/conversions.py:28-29 | hexstr gives add_0x_prefix(lower(s)); feeding the result back in gives it again; it has the same to_int number and the same to_bytes bytes as the input |
| `Conversions.HexStrLowerExample` | trx_utils/conversions.py:28-29 | to_hex(hexstr="0xG") is "0xg": every capital is lowered, not only the hex digits |
| `Conversions.NormalizedHexText` | trx_utils/conversions.py:29 | the normalized text is prefixed, its digits are the lowercased input digits, and lowercasing it again changes nothing |
| `Conversions.ToHexText` | trx_utils/conversions.py:31-32 | text gives encode_hex of its UTF-8 bytes, and decoding that hex gives exactly the bytes to_bytes(text=...) gives |
| `Conversions.TextHexExample` | trx_utils/conversions.py:31-32 | to_hex(text="A") is "0x41" |
| `Conversions.TextIntExample` | trx_utils/conversions.py:69-70 | to_int(text="12") is 12 |
| `Conversions.TextTwoByteExample` | trx_utils/conversions.py:96-97 | to_bytes(text="\u00e9") is the two bytes 0xC3, 0xA9, the shortest form |
| `Conversions.ToBytesTextDecodes` | trx_utils/conversions.py:96-97 | the bytes to_bytes(text=t) gives decode, as strict UTF-8, back to exactly t |
| `Conversions.BoolMatchesIntPath` | trx_utils/conversions.py:34-35 | a bool gives "0x1"/"0x0", the single byte 1/0 and the number 1/0, the same results the integers 1/0 give on their own path |
| `Conversions.ToHexIntMinimal` | trx_utils/conversions.py:45-46 | to_hex of n is "0x" followed by the minimal lowercase hex digits of n: any lowercase digit string with no leading zero that denotes n |
| `Conversions.ToHexIntExamples` | trx_utils/conversions.py:45-46 | 0 gives "0x0" and 255 gives "0xff" |
| `Conversions.RoundTripIntHex` | trx_utils/conversions.py:67-68 | for every n, to_int(hexstr=to_hex(n)) == n |
| `Conversions.ToInt` | trx_utils/conversions.py:55-76 | fails exactly for a str primitive (StrNeedsKeyword), another unsupported primitive, hex text whose digits after the prefix are empty or not all hex, and text that is empty or not all decimal digits; the error is StrNeedsKeyword exactly for a str primitive, UnsupportedType exactly for another unsupported primitive, and ParseError for hex or decimal text; a bool gives exactly 1 or 0, an int comes back unchanged, bytes give their big-endian value (0 for no bytes), hex text gives the value of its digits after the prefix, and decimal text gives the value of its digits |
| `Conversions.ToIntDecimalText` | trx_utils/conversions.py:69-70 | the decimal digits of n read back as n |
| `Conversions.HexStrLeadingZero` | trx_utils/conversions.py:67-68 | a leading "0" after the prefix does not change to_int of hex text, failure included |
| `Conversions.TextLeadingZero` | trx_utils/conversions.py:69-70 | a leading "0" does not change to_int of decimal text, failure included |
| `Conversions.HexStrLeadingZeroExample` | trx_utils/conversions.py:67-68 | to_int(hexstr="0x0ff") is 255 |
| `Conversions.TextLeadingZeroExample` | trx_utils/conversions.py:69-70 | to_int(text="007") is 7 |
| `Conversions.ToBytes` | trx_utils/conversions.py:80-100 | every failure is UnsupportedType or DecodingError; text never fails |
| `Conversions.PaddedHex` | trx_utils/conversions.py:91-94 | the text that is decoded has, after its prefix, the original digits padded to an even count with one leading "0" |
| `Conversions.PadEven` | trx_utils/conversions.py:92-94 | the padded digit count is even and exceeds the original by the original's parity |
| `Conversions.PadEvenHex` | trx_utils/conversions.py:94 | padding keeps exactly the all-hex strings all-hex and keeps their value |
| `Conversions.ToBytesHexStr` | trx_utils/conversions.py:91-95 | hexstr succeeds exactly when the digits after the prefix are all hex; the result has ceil(digits/2) bytes, decoded pairwise from the padded digits, most significant first, and its big-endian value is the digits' value |
| `Conversions.OddHexPadding` | trx_utils/conversions.py:92-94 | for an odd digit count, "0x"+d, "0x0"+d and unprefixed d decode to the same result |
| `Conversions.OddHexPaddingExample` | trx_utils/conversions.py:91-95 | to_bytes(hexstr="0xabc") == to_bytes(hexstr="0x0abc") == [0x0a, 0xbc] |
| `Conversions.ToBytesInt` | trx_utils/conversions.py:89-90 | to_bytes of n is the minimal big-endian encoding of n (one zero byte for 0), and to_int of those bytes is n |
| `Conversions.RoundTripBytesHex` | trx_utils/conversions.py:85-88 | bytes come back unchanged from to_bytes and from to_bytes(hexstr=to_hex(b)); non-empty bytes read through their hex form give their big-endian value |
| `Conversions.ToHexBytesExample` | trx_utils/conversions.py:37-38 | to_hex(b"\x0a") is "0x0a", keeping the leading zero digit, and to_hex of any bytes has 2 + 2 * len(b) characters |
| `Conversions.ToBytesErrors` | trx_utils/conversions.py:98-100 | to_bytes fails exactly on a str or unsupported primitive (UnsupportedType) or on hex text whose digits are not all hex |
| `Conversions.ToIntBytesLeadingZeros` | trx_utils/conversions.py:71-72 | any number of leading zero bytes leaves to_int of bytes unchanged |
| `Conversions.ToIntBytesExamples` | trx_utils/conversions.py:71-72 | no bytes give 0; the bytes 0, 1 give 1; the bytes 1, 0 give 256 |
| `Codec.Lower` | trx_utils/conversions.py:29 | str.lower keeps the length and lowercases character by character |
| `Codec.HexValue` | trx_utils/conversions.py:68 | the value of hex digits, most significant first, is zero exactly when every digit is "0" |
| `Codec.DecValue` | trx_utils/conversions.py:70 | the value of decimal digits, most significant first, is zero exactly when every digit is "0" |
| `Codec.DecodeHex` | trx_utils/conversions.py:8 | decode_hex succeeds exactly when the digits after an optional prefix are even in number and all hex, with half as many bytes; otherwise DecodingError |
| `Codec.BigEndianToInt` | trx_utils/conversions.py:12 | big_endian_to_int is zero exactly when every byte is zero, so no bytes give 0 |
| `Codec.BigEndianLeadingZero` | trx_utils/conversions.py:12 | a leading zero byte does not change the big-endian value |
| `Codec.Add0xPrefix` | trx_utils/conversions.py:2 | the result is prefixed and strips to what the input strips to |
| `Codec.Add0xPrefixIdempotent` | trx_utils/conversions.py:2 | adding the prefix twice equals adding it once |
| `Codec.Remove0xPrefix` | trx_utils/conversions.py:7 | unprefixed text is unchanged; prefixed text loses exactly its first two characters |
| `Codec.Remove0xPrefixTwice` | trx_utils/conversions.py:7 | stripping twice equals stripping once exactly when one strip leaves no prefix |
| `Codec.LowerPrefix` | trx_utils/conversions.py:29 | lowercasing keeps the prefix test, turns a prefix into "0x", and commutes with stripping it |
| `Codec.LowerChar` | trx_utils/conversions.py:29 | an ASCII capital becomes its small letter (code + 32); every other character is unchanged; a character is a hex digit after lowercasing exactly when before, with the same value |
| `Codec.LowerKeepsHexValue` | trx_utils/conversions.py:29 | lowercasing keeps exactly the hex strings hex, keeps their value, and is idempotent |
| `Codec.HexCharValue` | trx_utils/conversions.py:8 | a digit's value is below 16 and is 0 only for "0" |
| `Codec.HexDigitChar` | trx_utils/conversions.py:3 | the digit for v is a lowercase hex digit whose value is v |
| `Codec.LowerHexCharRoundTrip` | trx_utils/conversions.py:3 | every lowercase hex digit is the digit of its own value |
| `Codec.ByteHex` | trx_utils/conversions.py:3 | two lowercase digits whose high-nibble-first value is the byte |
| `Codec.HexPairs` | trx_utils/conversions.py:3 | two lowercase hex digits per byte |
| `Codec.EncodeHex` | trx_utils/conversions.py:3 | "0x" followed by two lowercase digits per byte ("0x" for empty) |
| `Codec.PairByte` | trx_utils/conversions.py:8 | the byte two digits denote, first digit high |
| `Codec.PairsToBytes` | trx_utils/conversions.py:8 | half as many bytes as digits |
| `Codec.PairsToBytesAt` | trx_utils/conversions.py:8 | byte i of the decoding is digit pair i, most significant pair first |
| `Codec.DecodeDigits` | trx_utils/conversions.py:8 | decodes exactly when the digit count is even and all are hex digits; otherwise DecodingError |
| `Codec.DecodeHexExamples` | trx_utils/conversions.py:8 | "0xg1" and the odd "0xabc" are refused; "0x0abc" decodes to the bytes 0x0a, 0xbc |
| `Codec.PairsOfHexPairs` | trx_utils/conversions.py:3 | pairwise decoding of the digits of b gives b |
| `Codec.DecodeHexEncodeHex` | trx_utils/conversions.py:3 | decode_hex(encode_hex(b)) == b for every byte sequence |
| `Codec.DecodeDigitsLower` | trx_utils/conversions.py:8 | lowercasing hex digits does not change what they decode to |
| `Codec.BigEndianOfPairs` | trx_utils/conversions.py:12 | the big-endian value of decoded digits is the digits' hex value |
| `Codec.MinimalBigEndian` | trx_utils/conversions.py:12 | a non-empty encoding with no leading zero byte whose big-endian value is n |
| `Codec.MinimalBigEndianUnique` | trx_utils/conversions.py:12 | every non-empty encoding with no leading zero byte and value n is that one |
| `Codec.BigEndianPositive` | trx_utils/conversions.py:12 | bytes that start with a non-zero byte have a positive big-endian value |
| `Codec.HexValueLeadingZero` | trx_utils/conversions.py:94 | a leading "0" digit does not change a hex value |
| `Codec.DecValueLeadingZero` | trx_utils/conversions.py:70 | a leading "0" digit does not change a decimal value |
| `Codec.HexValuePositive` | trx_utils/conversions.py:46 | digits that start with a non-zero digit have a positive value |
| `Codec.NatHexDigits` | trx_utils/conversions.py:46 | hex() digits of n are non-empty lowercase hex with no leading zero, and their value is n |
| `Codec.NatHexDigitsUnique` | trx_utils/conversions.py:46 | every such digit string of value n is that one |
| `Codec.PyHex` | trx_utils/conversions.py:46 | hex(n) starts with "0x" and strips to the digits of n |
| `Codec.ParseHexInt` | trx_utils/conversions.py:68 | int(s, 16) succeeds exactly when the digits after an optional prefix are non-empty hex, and then gives their value; otherwise ParseError |
| `Codec.ParseDecInt` | trx_utils/conversions.py:70 | int(s) succeeds exactly when s is non-empty decimal digits, and then gives their value; otherwise ParseError |
| `Codec.DecDigitChar` | trx_utils/conversions.py:70 | the decimal digit of v has value v |
| `Codec.DecCharValue` | trx_utils/conversions.py:70 | a decimal digit's value is below 10 |
| `Codec.DecimalDigits` | trx_utils/conversions.py:70 | the decimal digits of n are non-empty, have no leading zero and denote n |
| `Codec.ParseDecimalDigits` | trx_utils/conversions.py:70 | int() reads the decimal digits of n as n |
| `Codec.Utf8Char` | trx_utils/conversions.py:32 | one to four bytes, and the length is the shortest form for the code point: 1 below 0x80, 2 below 0x800, 3 below 0x10000, 4 above; the lead byte marks the length; continuation bytes are 10xxxxxx; the bytes carry the code point back |
| `Codec.Utf8Two` | trx_utils/conversions.py:32 | the two-byte form carries the code point |
| `Codec.Utf8Three` | trx_utils/conversions.py:32 | the three-byte form carries the code point |
| `Codec.Utf8Four` | trx_utils/conversions.py:32 | the four-byte form carries the code point |
| `Codec.EncodeUtf8` | trx_utils/conversions.py:97 | in total, at least one and at most four bytes per character; ASCII text encodes to its own codes |
| `Codec.DecodeUtf8` | trx_utils/conversions.py:97 | a strict decoder (shortest forms only, no surrogates, nothing above U+10FFFF), the reference EncodeUtf8 is checked against; a decoded text is no longer than its bytes |
| `Codec.Utf8CharDecodes` | trx_utils/conversions.py:32 | one character's encoding, put in front of decodable bytes, decodes to that character followed by their text |
| `Codec.DecodeEncodeUtf8` | trx_utils/conversions.py:97 | decoding the UTF-8 encoding of any text gives the text back |

## Left out

- I/O and packaging: `setup.py` reads a README file and declares metadata. It has no logic.
- The helper code behind `encode_hex`, `decode_hex`, `add_0x_prefix`, `remove_0x_prefix`, `big_endian_to_int`, `is_boolean`, `is_string`, `is_integer` and `validate_conversion_arguments` is not part of this model. The definitions in `Codec` and `Validate` are reference definitions, not copies of that code. The type predicates become the `Primitive` variants.
- Negative integers: `Int` holds a `nat`. Python's `hex(-n)` gives `"-0x…"`, which is not modelled.
- `Codec.ParseHexInt`, `Codec.ParseDecInt`: Python's `int()` also accepts surrounding whitespace, `_` separators, a sign and non-ASCII digits. The model accepts only an optional prefix followed by strict digits.
- `Codec.Lower`: only ASCII capitals are lowercased. Python's full Unicode case mapping is not modelled. It cannot turn any character into a hex digit that was not one.
- `Conversions.ToInt`: `int(primitive)` on other Python objects is not modelled (a float truncates, an object with `__int__` converts). Every `Other` primitive gives `UnsupportedType`.
- The `bytes`/`bytearray` distinction: both are one immutable `seq<byte>`, and `bytes(primitive)` is the identity.
- Exact error message strings: only the error kind is modelled.
- UTF-8 decoding: the source only encodes. `Codec.DecodeUtf8` is a reference decoder that the encoder is checked against.
- `Codec.DecodeUtf8`: only decode(encode(t)) == t is proved. The converse, that every byte string the decoder accepts is the encoding of its result, is not.
- Lone surrogates: Python's `str` can hold one, and `text.encode("utf-8")` (lines 32 and 97) then raises `UnicodeEncodeError`. A Dafny `char` is a Unicode scalar value and cannot hold one. So `Conversions.ToBytes` and `Conversions.ToHex` never fail on text, and that error path is not modelled.
