/**
 * Base64 (section 4 of RFC 4648) as `base64.b64encode` writes it: the
 * standard alphabet, each group of three bytes as four symbols, and a final
 * group of one or two bytes padded with `=`. The decoder is the inverse used
 * to state what the encoding preserves.
 */
module Base64 {
  import opened Bytes
  import opened Wrappers

  /** The symbol for a six-bit value: `A`-`Z`, `a`-`z`, `0`-`9`, `+`, `/`. */
  function Symbol(v: nat): (c: char)
    requires v < 64
    ensures IsSymbol(c) && SymbolValue(c) == v
  {
    if v < 26 then ('A' as int + v) as char
    else if v < 52 then ('a' as int + v - 26) as char
    else if v < 62 then ('0' as int + v - 52) as char
    else if v == 62 then '+'
    else '/'
  }

  predicate IsSymbol(c: char) {
    'A' <= c <= 'Z' || 'a' <= c <= 'z' || '0' <= c <= '9' || c == '+' || c == '/'
  }

  function SymbolValue(c: char): (v: nat)
    requires IsSymbol(c)
    ensures v < 64
  {
    if 'A' <= c <= 'Z' then c as int - 'A' as int
    else if 'a' <= c <= 'z' then c as int - 'a' as int + 26
    else if '0' <= c <= '9' then c as int - '0' as int + 52
    else if c == '+' then 62
    else 63
  }

  /** `base64.b64encode(b)` */
  function Encode(b: seq<byte>): (s: string)
    ensures |s| == 4 * ((|b| + 2) / 3)
    ensures forall i :: 0 <= i < |s| ==> IsSymbol(s[i]) || s[i] == '='
  {
    if |b| == 0 then ""
    else if |b| == 1 then [Symbol(b[0] / 4), Symbol(b[0] % 4 * 16), '=', '=']
    else if |b| == 2 then [Symbol(b[0] / 4), Symbol(b[0] % 4 * 16 + b[1] / 16), Symbol(b[1] % 16 * 4), '=']
    else Group(b[0], b[1], b[2]) + Encode(b[3..])
  }

  /** Three bytes as four symbols, six bits each. */
  function Group(b0: byte, b1: byte, b2: byte): (s: string)
    ensures |s| == 4 && IsSymbol(s[0]) && IsSymbol(s[1]) && IsSymbol(s[2]) && IsSymbol(s[3])
  {
    [Symbol(b0 / 4), Symbol(b0 % 4 * 16 + b1 / 16), Symbol(b1 % 16 * 4 + b2 / 64), Symbol(b2 % 64)]
  }

  /** Decodes four symbols into three bytes. */
  function Quad(s: string): seq<byte>
    requires |s| >= 4 && IsSymbol(s[0]) && IsSymbol(s[1]) && IsSymbol(s[2]) && IsSymbol(s[3])
  {
    var v0, v1, v2, v3 := SymbolValue(s[0]), SymbolValue(s[1]), SymbolValue(s[2]), SymbolValue(s[3]);
    [v0 * 4 + v1 / 16, v1 % 16 * 16 + v2 / 4, v2 % 4 * 64 + v3]
  }

  /** Inverse of `Encode`; `None` for text that is not padded base64. */
  function Decode(s: string): Option<seq<byte>>
    decreases |s|
  {
    if s == [] then Some([])
    else if |s| < 4 || !IsSymbol(s[0]) || !IsSymbol(s[1]) then None
    else if |s| == 4 && s[2] == '=' && s[3] == '=' then
      Some([SymbolValue(s[0]) * 4 + SymbolValue(s[1]) / 16])
    else if |s| == 4 && IsSymbol(s[2]) && s[3] == '=' then
      Some([SymbolValue(s[0]) * 4 + SymbolValue(s[1]) / 16, SymbolValue(s[1]) % 16 * 16 + SymbolValue(s[2]) / 4])
    else if IsSymbol(s[2]) && IsSymbol(s[3]) then
      match Decode(s[4..])
      case None => None
      case Some(rest) => Some(Quad(s) + rest)
    else None
  }

  /** Reading back a value that was split as `hi * 16 + lo` with `lo < 16`. */
  lemma Place16(hi: nat, lo: nat)
    requires lo < 16
    ensures (hi * 16 + lo) / 16 == hi && (hi * 16 + lo) % 16 == lo
  {
  }

  /** Reading back a value that was split as `hi * 4 + lo` with `lo < 4`. */
  lemma Place4(hi: nat, lo: nat)
    requires lo < 4
    ensures (hi * 4 + lo) / 4 == hi && (hi * 4 + lo) % 4 == lo
  {
  }

  lemma DecodeOne(b0: byte)
    ensures Decode(Encode([b0])) == Some([b0])
  {
    var s := Encode([b0]);
    assert s == [Symbol(b0 / 4), Symbol(b0 % 4 * 16), '=', '='];
    assert SymbolValue(s[0]) == b0 / 4 && SymbolValue(s[1]) == b0 % 4 * 16;
    Place16(b0 % 4, 0);
  }

  lemma DecodeTwo(b0: byte, b1: byte)
    ensures Decode(Encode([b0, b1])) == Some([b0, b1])
  {
    var s := Encode([b0, b1]);
    assert s == [Symbol(b0 / 4), Symbol(b0 % 4 * 16 + b1 / 16), Symbol(b1 % 16 * 4), '='];
    assert SymbolValue(s[0]) == b0 / 4 && SymbolValue(s[1]) == b0 % 4 * 16 + b1 / 16;
    assert SymbolValue(s[2]) == b1 % 16 * 4;
    Place16(b0 % 4, b1 / 16);
    Place4(b1 % 16, 0);
  }

  lemma QuadOfThree(b0: byte, b1: byte, b2: byte, rest: string)
    ensures Quad(Group(b0, b1, b2) + rest) == [b0, b1, b2]
  {
    var s := Group(b0, b1, b2) + rest;
    assert SymbolValue(s[0]) == b0 / 4 && SymbolValue(s[1]) == b0 % 4 * 16 + b1 / 16;
    assert SymbolValue(s[2]) == b1 % 16 * 4 + b2 / 64 && SymbolValue(s[3]) == b2 % 64;
    Place16(b0 % 4, b1 / 16);
    Place4(b1 % 16, b2 / 64);
  }

  /** A full group decodes to its three bytes, ahead of whatever the rest decodes to. */
  lemma DecodeGroup(b0: byte, b1: byte, b2: byte, rest: string)
    requires Decode(rest).Some?
    ensures Decode(Group(b0, b1, b2) + rest) == Some([b0, b1, b2] + Decode(rest).value)
  {
    var s := Group(b0, b1, b2) + rest;
    assert s[..4] == Group(b0, b1, b2) && s[4..] == rest;
    assert s[2] != '=' && s[3] != '=';
    QuadOfThree(b0, b1, b2, rest);
  }

  /** Round trip: decoding what `b64encode` wrote gives back the bytes. */
  lemma {:induction false} DecodeEncode(b: seq<byte>)
    ensures Decode(Encode(b)) == Some(b)
    decreases |b|
  {
    if |b| == 1 {
      assert b == [b[0]];
      DecodeOne(b[0]);
    } else if |b| == 2 {
      assert b == [b[0], b[1]];
      DecodeTwo(b[0], b[1]);
    } else if |b| >= 3 {
      DecodeEncode(b[3..]);
      DecodeEncodeGroup(b, Encode(b[3..]));
      assert Encode(b) == Group(b[0], b[1], b[2]) + Encode(b[3..]);
    }
  }

  /** One step of the round trip: a full group ahead of bytes that already round-trip. */
  lemma DecodeEncodeGroup(b: seq<byte>, rest: string)
    requires |b| >= 3 && Decode(rest) == Some(b[3..])
    ensures Decode(Group(b[0], b[1], b[2]) + rest) == Some(b)
  {
    DecodeGroup(b[0], b[1], b[2], rest);
    assert b == [b[0], b[1], b[2]] + b[3..];
  }
}
