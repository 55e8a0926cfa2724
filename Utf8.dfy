/**
 * UTF-8 (RFC 3629) as Python's `str.encode('utf-8')` and strict
 * `bytes.decode('utf-8')` implement it. A Dafny `char` is a Unicode scalar
 * value, so every string encodes; decoding rejects overlong forms, encoded
 * surrogates, values above U+10FFFF and truncated or stray continuation bytes.
 */
module Utf8 {
  import opened Bytes
  import opened Wrappers

  predicate IsContinuation(b: byte) { 0x80 <= b < 0xC0 }

  /** The encoding of one scalar value: one to four bytes. */
  function EncodeChar(c: char): (r: seq<byte>)
    ensures 1 <= |r| <= 4
  {
    var n := c as int;
    if n < 0x80 then [n]
    else if n < 0x800 then [0xC0 + n / 64, 0x80 + n % 64]
    else if n < 0x1_0000 then [0xE0 + n / 4096, 0x80 + n / 64 % 64, 0x80 + n % 64]
    else [0xF0 + n / 262144, 0x80 + n / 4096 % 64, 0x80 + n / 64 % 64, 0x80 + n % 64]
  }

  /** `s.encode('utf-8')` */
  function Encode(s: string): seq<byte>
  {
    if s == [] then [] else EncodeChar(s[0]) + Encode(s[1..])
  }

  /** The scalar value a well-formed sequence at the front of `b` stands for, and its length. */
  function DecodeChar(b: seq<byte>): (r: Option<(char, nat)>)
    requires b != []
    ensures r.Some? ==> 1 <= r.value.1 <= |b|
  {
    var b0: int := b[0];
    if b0 < 0x80 then Some((b0 as char, 1))
    else if 0xC2 <= b0 <= 0xDF then
      if |b| >= 2 && IsContinuation(b[1])
      then Some((((b0 - 0xC0) * 64 + (b[1] as int - 0x80)) as char, 2))
      else None
    else if 0xE0 <= b0 <= 0xEF then
      var lo := if b0 == 0xE0 then 0xA0 else 0x80;
      var hi := if b0 == 0xED then 0x9F else 0xBF;
      if |b| >= 3 && lo <= b[1] <= hi && IsContinuation(b[2])
      then Some((((b0 - 0xE0) * 4096 + (b[1] as int - 0x80) * 64 + (b[2] as int - 0x80)) as char, 3))
      else None
    else if 0xF0 <= b0 <= 0xF4 then
      var lo := if b0 == 0xF0 then 0x90 else 0x80;
      var hi := if b0 == 0xF4 then 0x8F else 0xBF;
      if |b| >= 4 && lo <= b[1] <= hi && IsContinuation(b[2]) && IsContinuation(b[3])
      then Some((((b0 - 0xF0) * 262144 + (b[1] as int - 0x80) * 4096 + (b[2] as int - 0x80) * 64
                  + (b[3] as int - 0x80)) as char, 4))
      else None
    else None
  }

  /** `b.decode('utf-8')`; `None` stands for the `UnicodeDecodeError` it raises. */
  function Decode(b: seq<byte>): Option<string>
    decreases |b|
  {
    if b == [] then Some("")
    else
      match DecodeChar(b)
      case None => None
      case Some((c, k)) =>
        match Decode(b[k..])
        case None => None
        case Some(rest) => Some([c] + rest)
  }

  lemma DecodeCharEncodeChar2(n: int, rest: seq<byte>)
    requires 0x80 <= n < 0x800
    ensures var b: seq<byte> := [0xC0 + n / 64, 0x80 + n % 64] + rest;
      DecodeChar(b) == Some((n as char, 2))
  {
    assert n == (n / 64) * 64 + n % 64;
  }

  lemma DecodeCharEncodeChar3(n: int, rest: seq<byte>)
    requires 0x800 <= n < 0x1_0000 && !(0xD800 <= n < 0xE000)
    ensures var b: seq<byte> := [0xE0 + n / 4096, 0x80 + n / 64 % 64, 0x80 + n % 64] + rest;
      DecodeChar(b) == Some((n as char, 3))
  {
    assert n == (n / 4096) * 4096 + (n / 64 % 64) * 64 + n % 64;
  }

  lemma DecodeCharEncodeChar4(n: int, rest: seq<byte>)
    requires 0x1_0000 <= n < 0x11_0000
    ensures var b: seq<byte> := [0xF0 + n / 262144, 0x80 + n / 4096 % 64, 0x80 + n / 64 % 64, 0x80 + n % 64] + rest;
      DecodeChar(b) == Some((n as char, 4))
  {
    assert n == (n / 262144) * 262144 + (n / 4096 % 64) * 4096 + (n / 64 % 64) * 64 + n % 64;
  }

  lemma DecodeCharEncodeChar(c: char, rest: seq<byte>)
    ensures DecodeChar(EncodeChar(c) + rest) == Some((c, |EncodeChar(c)|))
  {
    var n := c as int;
    if n < 0x80 {
    } else if n < 0x800 {
      DecodeCharEncodeChar2(n, rest);
    } else if n < 0x1_0000 {
      DecodeCharEncodeChar3(n, rest);
    } else {
      DecodeCharEncodeChar4(n, rest);
    }
  }

  lemma Digits2(b0: int, b1: int)
    requires 0xC2 <= b0 <= 0xDF && 0x80 <= b1 < 0xC0
    ensures var n := (b0 - 0xC0) * 64 + (b1 - 0x80);
      0x80 <= n < 0x800 && 0xC0 + n / 64 == b0 && 0x80 + n % 64 == b1
  {
  }

  lemma Digits3(b0: int, b1: int, b2: int)
    requires 0xE0 <= b0 <= 0xEF && 0x80 <= b1 < 0xC0 && 0x80 <= b2 < 0xC0
    requires b0 == 0xE0 ==> b1 >= 0xA0
    ensures var n := (b0 - 0xE0) * 4096 + (b1 - 0x80) * 64 + (b2 - 0x80);
      0x800 <= n < 0x1_0000 && 0xE0 + n / 4096 == b0 && 0x80 + n / 64 % 64 == b1 && 0x80 + n % 64 == b2
  {
    var n := (b0 - 0xE0) * 4096 + (b1 - 0x80) * 64 + (b2 - 0x80);
    assert n / 64 == (b0 - 0xE0) * 64 + (b1 - 0x80);
  }

  lemma Digits4(b0: int, b1: int, b2: int, b3: int)
    requires 0xF0 <= b0 <= 0xF4 && 0x80 <= b1 < 0xC0 && 0x80 <= b2 < 0xC0 && 0x80 <= b3 < 0xC0
    requires b0 == 0xF0 ==> b1 >= 0x90
    ensures var n := (b0 - 0xF0) * 262144 + (b1 - 0x80) * 4096 + (b2 - 0x80) * 64 + (b3 - 0x80);
      0x1_0000 <= n && 0xF0 + n / 262144 == b0 && 0x80 + n / 4096 % 64 == b1
      && 0x80 + n / 64 % 64 == b2 && 0x80 + n % 64 == b3
  {
    var n := (b0 - 0xF0) * 262144 + (b1 - 0x80) * 4096 + (b2 - 0x80) * 64 + (b3 - 0x80);
    assert n / 64 == (b0 - 0xF0) * 4096 + (b1 - 0x80) * 64 + (b2 - 0x80);
    assert n / 4096 == (b0 - 0xF0) * 64 + (b1 - 0x80);
  }

  lemma EncodeCharDecodeChar(b: seq<byte>)
    requires b != [] && DecodeChar(b).Some?
    ensures var (c, k) := DecodeChar(b).value; EncodeChar(c) == b[..k]
  {
    var b0: int := b[0];
    if 0xC2 <= b0 <= 0xDF {
      Digits2(b0, b[1]);
    } else if 0xE0 <= b0 <= 0xEF {
      Digits3(b0, b[1], b[2]);
    } else if 0xF0 <= b0 <= 0xF4 {
      Digits4(b0, b[1], b[2], b[3]);
    }
  }

  /** Round trip: strict decoding recovers every encoded string. */
  lemma {:induction false} DecodeEncode(s: string)
    ensures Decode(Encode(s)) == Some(s)
    decreases |s|
  {
    if s != [] {
      var e := EncodeChar(s[0]);
      DecodeCharEncodeChar(s[0], Encode(s[1..]));
      DecodeEncode(s[1..]);
      assert (e + Encode(s[1..]))[|e|..] == Encode(s[1..]);
      assert s == [s[0]] + s[1..];
    }
  }

  /** The other direction: a byte string that decodes is the encoding of what it decodes to. */
  lemma {:induction false} EncodeDecode(b: seq<byte>)
    requires Decode(b).Some?
    ensures Encode(Decode(b).value) == b
    decreases |b|
  {
    if b != [] {
      var (c, k) := DecodeChar(b).value;
      EncodeDecode(b[k..]);
      var t := Decode(b[k..]).value;
      assert Decode(b).value == [c] + t;
      EncodeDecodeStep(b, c, k, t);
    }
  }

  /** One step of `EncodeDecode`: the first scalar value's encoding followed by the rest's. */
  lemma EncodeDecodeStep(b: seq<byte>, c: char, k: nat, t: string)
    requires b != [] && DecodeChar(b) == Some((c, k)) && Encode(t) == b[k..]
    ensures Encode([c] + t) == b
  {
    EncodeCharDecodeChar(b);
    assert ([c] + t)[1..] == t;
    assert b == b[..k] + b[k..];
  }

  lemma {:induction false} EncodeAppend(s: string, t: string)
    ensures Encode(s + t) == Encode(s) + Encode(t)
    decreases |s|
  {
    if s != [] {
      assert (s + t)[1..] == s[1..] + t;
      EncodeAppend(s[1..], t);
    } else {
      assert s + t == t;
    }
  }

  /** Decoding distributes over concatenation of decodable parts. */
  lemma DecodeAppend(x: seq<byte>, y: seq<byte>)
    requires Decode(x).Some? && Decode(y).Some?
    ensures Decode(x + y) == Some(Decode(x).value + Decode(y).value)
  {
    var s, t := Decode(x).value, Decode(y).value;
    EncodeDecode(x);
    EncodeDecode(y);
    EncodeAppend(s, t);
    DecodeEncode(s + t);
  }
}
