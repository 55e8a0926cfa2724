/**
 * Base16 transport encoding (section 8 of RFC 4648): `bytes.hex()` writes two
 * lower-case digits per byte; `bytes.fromhex()` reads digits of either case,
 * skipping ASCII whitespace before each pair, and raises `ValueError` at the
 * first position where a digit is missing or is not hexadecimal. CPython first
 * rejects any text that is not pure ASCII, reporting its first non-ASCII
 * character.
 */
module Hex {
  import opened Bytes
  import opened Wrappers
  import opened Text

  /** The sixteen digits `bytes.hex()` writes: `0`-`9` and `a`-`f`. */
  predicate IsLowerHexDigit(c: char) {
    '0' <= c <= '9' || 'a' <= c <= 'f'
  }

  function Digit(v: nat): (c: char)
    requires v < 16
    ensures IsLowerHexDigit(c)
  {
    if v < 10 then ('0' as int + v) as char else ('a' as int + v - 10) as char
  }

  predicate IsHexDigit(c: char) {
    '0' <= c <= '9' || 'a' <= c <= 'f' || 'A' <= c <= 'F'
  }

  /** The whitespace `bytes.fromhex` skips: space, tab, line feed, vertical tab, form feed, carriage return. */
  predicate IsAsciiSpace(c: char) {
    c == ' ' || '\t' <= c <= '\r'
  }

  function DigitValue(c: char): (v: nat)
    requires IsHexDigit(c)
    ensures v < 16 && Digit(v) == LowerChar(c)
  {
    if '0' <= c <= '9' then c as int - '0' as int
    else if 'a' <= c <= 'f' then c as int - 'a' as int + 10
    else c as int - 'A' as int + 10
  }

  /** `b.hex()` */
  function Encode(b: seq<byte>): (s: string)
    ensures |s| == 2 * |b|
    ensures forall i :: 0 <= i < |s| ==> IsLowerHexDigit(s[i])
  {
    if b == [] then "" else [Digit(b[0] / 16), Digit(b[0] % 16)] + Encode(b[1..])
  }

  /** `ValueError` raised by `bytes.fromhex`, with the index of the offending character. */
  datatype HexError = NonHexAt(position: nat)

  /** `bytes.fromhex` on a suffix `s` of the argument that starts at index `position`. */
  function DecodeFrom(s: string, position: nat): Result<seq<byte>, HexError>
  {
    if s == [] then Ok([])
    else if IsAsciiSpace(s[0]) then DecodeFrom(s[1..], position + 1)
    else if !IsHexDigit(s[0]) then Err(NonHexAt(position))
    else if |s| == 1 || !IsHexDigit(s[1]) then Err(NonHexAt(position + 1))
    else
      match DecodeFrom(s[2..], position + 2)
      case Ok(rest) => Ok([DigitValue(s[0]) * 16 + DigitValue(s[1])] + rest)
      case Err(e) => Err(e)
  }

  predicate IsAscii(c: char) {
    c as int < 128
  }

  /** The index of the first non-ASCII character of `s`, or `|s|` when there is none. */
  function FirstNonAscii(s: string): (k: nat)
    ensures k <= |s|
    ensures k < |s| ==> !IsAscii(s[k])
    ensures forall j :: 0 <= j < k ==> IsAscii(s[j])
  {
    if s == [] then 0
    else if !IsAscii(s[0]) then 0
    else 1 + FirstNonAscii(s[1..])
  }

  /** `bytes.fromhex(s)`: text that is not pure ASCII is refused at its first non-ASCII character. */
  function Decode(s: string): Result<seq<byte>, HexError>
  {
    var k := FirstNonAscii(s);
    if k < |s| then Err(NonHexAt(k)) else DecodeFrom(s, 0)
  }

  lemma {:induction false} DecodeFromEncode(b: seq<byte>, position: nat)
    ensures DecodeFrom(Encode(b), position) == Ok(b)
    decreases |b|
  {
    if b != [] {
      var s := Encode(b);
      DecodeFromEncode(b[1..], position + 2);
      assert s[2..] == Encode(b[1..]);
      assert DigitValue(s[0]) == b[0] / 16 && DigitValue(s[1]) == b[0] % 16;
      assert b == [b[0]] + b[1..];
    }
  }

  /** Round trip: `bytes.fromhex(b.hex()) == b` for every byte string, the empty one included. */
  lemma DecodeEncode(b: seq<byte>)
    ensures Decode(Encode(b)) == Ok(b)
  {
    DecodeFromEncode(b, 0);
  }

  predicate AllHexDigits(s: string) {
    forall i :: 0 <= i < |s| ==> IsHexDigit(s[i])
  }

  lemma {:induction false} EncodeDecodeFrom(s: string, position: nat)
    requires AllHexDigits(s) && |s| % 2 == 0
    ensures DecodeFrom(s, position).Ok?
    ensures var b := DecodeFrom(s, position).value; |b| == |s| / 2 && Encode(b) == Lower(s)
    decreases |s|
  {
    if s != [] {
      EncodeDecodeFrom(s[2..], position + 2);
      var v := DigitValue(s[0]) * 16 + DigitValue(s[1]);
      assert v / 16 == DigitValue(s[0]) && v % 16 == DigitValue(s[1]);
      var b := DecodeFrom(s, position).value;
      assert b == [v] + DecodeFrom(s[2..], position + 2).value;
      assert b[1..] == DecodeFrom(s[2..], position + 2).value;
      assert Lower(s) == [LowerChar(s[0]), LowerChar(s[1])] + Lower(s[2..]);
    }
  }

  /**
   * The other direction: text made only of hex digits, an even number of them,
   * always decodes, and re-encoding gives the same text in lower case.
   */
  lemma EncodeDecode(s: string)
    requires AllHexDigits(s) && |s| % 2 == 0
    ensures Decode(s).Ok? && |Decode(s).value| == |s| / 2 && Encode(Decode(s).value) == Lower(s)
  {
    EncodeDecodeFrom(s, 0);
  }

  lemma {:induction false} OddDigitsFailFrom(s: string, position: nat)
    requires AllHexDigits(s) && |s| % 2 == 1
    ensures DecodeFrom(s, position) == Err(NonHexAt(position + |s|))
    decreases |s|
  {
    if |s| > 1 {
      OddDigitsFailFrom(s[2..], position + 2);
    }
  }

  /** An odd number of hex digits raises `ValueError` at the end of the text. */
  lemma OddDigitsFail(s: string)
    requires AllHexDigits(s) && |s| % 2 == 1
    ensures Decode(s) == Err(NonHexAt(|s|))
  {
    OddDigitsFailFrom(s, 0);
  }

  lemma {:induction false} NonHexFailsFrom(s: string, position: nat, i: nat)
    requires i < |s| && !IsHexDigit(s[i]) && !IsAsciiSpace(s[i])
    ensures DecodeFrom(s, position).Err?
    ensures DecodeFrom(s, position).error.position <= position + i
    decreases |s|
  {
    if IsAsciiSpace(s[0]) {
      NonHexFailsFrom(s[1..], position + 1, i - 1);
    } else if IsHexDigit(s[0]) && |s| > 1 && IsHexDigit(s[1]) {
      NonHexFailsFrom(s[2..], position + 2, i - 2);
    }
  }

  /**
   * A character that is neither a hex digit nor ASCII whitespace makes
   * `bytes.fromhex` raise: in ASCII text at that character or before it, and
   * otherwise at the first non-ASCII character.
   */
  lemma NonHexFails(s: string, i: nat)
    requires i < |s| && !IsHexDigit(s[i]) && !IsAsciiSpace(s[i])
    ensures Decode(s).Err?
    ensures FirstNonAscii(s) < |s| ==> Decode(s).error.position == FirstNonAscii(s) && !IsAscii(s[Decode(s).error.position])
    ensures FirstNonAscii(s) == |s| ==> Decode(s).error.position <= i
  {
    if FirstNonAscii(s) == |s| {
      NonHexFailsFrom(s, 0, i);
    }
  }

  /** A non-ASCII character anywhere makes `bytes.fromhex` raise at or before it, never after. */
  lemma NonAsciiFails(s: string, i: nat)
    requires i < |s| && !IsAscii(s[i])
    ensures Decode(s).Err? && Decode(s).error.position <= i
    ensures !IsAscii(s[Decode(s).error.position])
  {
  }
}
