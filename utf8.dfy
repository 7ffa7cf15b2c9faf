/** UTF-8 as `std::str::from_utf8` accepts it: exactly the well-formed byte
    sequences of section 4 of RFC 3629 (no overlong forms, no encoded
    surrogates, nothing above U+10FFFF). A Dafny `char` is a Unicode scalar
    value, so a decoded text is a `string`. */
module Utf8 {
  import opened Wrappers

  newtype byte = x: int | 0 <= x < 256

  /** A continuation byte, 10xxxxxx. */
  predicate IsCont(b: byte) {
    0x80 <= b < 0xC0
  }

  /** The UTF-8 encoding of one scalar value (section 3 of RFC 3629). */
  function EncodeChar(c: char): (r: seq<byte>)
    ensures 1 <= |r| <= 4
    ensures forall k :: 1 <= k < |r| ==> IsCont(r[k])
  {
    var n := c as int;
    if n < 0x80 then
      [n as byte]
    else if n < 0x800 then
      [(0xC0 + n / 64) as byte, (0x80 + n % 64) as byte]
    else if n < 0x1_0000 then
      [(0xE0 + n / 4096) as byte, (0x80 + n / 64 % 64) as byte, (0x80 + n % 64) as byte]
    else
      [(0xF0 + n / 262144) as byte, (0x80 + n / 4096 % 64) as byte,
       (0x80 + n / 64 % 64) as byte, (0x80 + n % 64) as byte]
  }

  /** The UTF-8 encoding of a text, scalar by scalar. */
  function Encode(s: string): seq<byte>
  {
    if s == [] then [] else EncodeChar(s[0]) + Encode(s[1..])
  }

  /** Decodes the scalar at the front of `b`, with the number of bytes it
      takes, or None when `b` does not begin with a well-formed sequence
      (the byte table of section 4 of RFC 3629). */
  function DecodeFirst(b: seq<byte>): (r: Option<(char, nat)>)
    requires b != []
    ensures r.Some? ==> 1 <= r.value.1 <= |b|
  {
    var b0 := b[0] as int;
    if b0 < 0x80 then
      Some((b0 as char, 1))
    else if 0xC2 <= b0 < 0xE0 then
      if 2 <= |b| && IsCont(b[1]) then
        Some((((b0 - 0xC0) * 64 + (b[1] as int - 0x80)) as char, 2))
      else None
    else if 0xE0 <= b0 < 0xF0 then
      var lo := if b0 == 0xE0 then 0xA0 else 0x80;
      var hi := if b0 == 0xED then 0xA0 else 0xC0;
      if 3 <= |b| && lo <= b[1] as int < hi && IsCont(b[2]) then
        Some((((b0 - 0xE0) * 4096 + (b[1] as int - 0x80) * 64 + (b[2] as int - 0x80)) as char, 3))
      else None
    else if 0xF0 <= b0 < 0xF5 then
      var lo := if b0 == 0xF0 then 0x90 else 0x80;
      var hi := if b0 == 0xF4 then 0x90 else 0xC0;
      if 4 <= |b| && lo <= b[1] as int < hi && IsCont(b[2]) && IsCont(b[3]) then
        Some((((b0 - 0xF0) * 262144 + (b[1] as int - 0x80) * 4096
               + (b[2] as int - 0x80) * 64 + (b[3] as int - 0x80)) as char, 4))
      else None
    else
      None
  }

  /** `from_utf8`: the decoded text, or None when `b` is not well-formed
      UTF-8. Every decoded scalar takes one to four bytes. */
  function Decode(b: seq<byte>): (r: Option<string>)
    ensures r.Some? ==> |r.value| <= |b| <= 4 * |r.value|
    decreases |b|
  {
    if b == [] then Some([])
    else match DecodeFirst(b)
      case None => None
      case Some((c, k)) =>
        match Decode(b[k..])
        case None => None
        case Some(s) => Some([c] + s)
  }

  /** The byte sequences that are the UTF-8 encoding of some text. */
  ghost predicate IsUtf8(b: seq<byte>) {
    exists s :: Encode(s) == b
  }

  /** Splits `n` into base-64 digits: `n == hi * 64 + lo`. */
  lemma Digits(n: nat)
    ensures n == (n / 64) * 64 + n % 64 && 0 <= n % 64 < 64
  {
  }

  /** Decoding the front of an encoded scalar gives the scalar back. */
  lemma DecodeFirstOfEncodeChar(c: char, rest: seq<byte>)
    ensures DecodeFirst(EncodeChar(c) + rest) == Some((c, |EncodeChar(c)|))
  {
    var n := c as int;
    var b := EncodeChar(c) + rest;
    if n < 0x80 {
    } else if n < 0x800 {
      Digits(n);
      assert b[0] as int - 0xC0 == n / 64 && b[1] as int - 0x80 == n % 64;
    } else if n < 0x1_0000 {
      Digits(n);
      Digits(n / 64);
      assert n / 4096 == n / 64 / 64;
      assert n == (n / 4096) * 4096 + (n / 64 % 64) * 64 + n % 64;
    } else {
      Digits(n);
      Digits(n / 64);
      Digits(n / 4096);
      assert n / 4096 == n / 64 / 64;
      assert n / 262144 == n / 4096 / 64;
      assert n == (n / 262144) * 262144 + (n / 4096 % 64) * 4096 + (n / 64 % 64) * 64 + n % 64;
    }
  }

  /** Base-64 digits are unique. */
  lemma DigitsUnique(n: int, q: int, r: int)
    requires n == q * 64 + r && 0 <= r < 64
    ensures n / 64 == q && n % 64 == r
  {
  }

  /** The bytes a scalar was decoded from are that scalar's encoding. */
  lemma EncodeCharOfDecodeFirst(b: seq<byte>)
    requires b != [] && DecodeFirst(b).Some?
    ensures EncodeChar(DecodeFirst(b).value.0) == b[..DecodeFirst(b).value.1]
  {
    var b0 := b[0] as int;
    var n := DecodeFirst(b).value.0 as int;
    if b0 < 0x80 {
      assert n == b0;
    } else if b0 < 0xE0 {
      assert n == (b0 - 0xC0) * 64 + (b[1] as int - 0x80);
      DigitsUnique(n, b0 - 0xC0, b[1] as int - 0x80);
    } else if b0 < 0xF0 {
      var m := (b0 - 0xE0) * 64 + (b[1] as int - 0x80);
      assert n == m * 64 + (b[2] as int - 0x80);
      DigitsUnique(n, m, b[2] as int - 0x80);
      DigitsUnique(m, b0 - 0xE0, b[1] as int - 0x80);
      assert n / 4096 == n / 64 / 64;
    } else {
      var m1 := (b0 - 0xF0) * 64 + (b[1] as int - 0x80);
      var m2 := m1 * 64 + (b[2] as int - 0x80);
      assert n == m2 * 64 + (b[3] as int - 0x80);
      DigitsUnique(n, m2, b[3] as int - 0x80);
      DigitsUnique(m2, m1, b[2] as int - 0x80);
      DigitsUnique(m1, b0 - 0xF0, b[1] as int - 0x80);
      assert n / 4096 == n / 64 / 64;
      assert n / 262144 == n / 64 / 64 / 64;
    }
  }

  /** Decoding inverts encoding: every text survives the round trip. */
  lemma {:induction false} DecodeEncode(s: string)
    ensures Decode(Encode(s)) == Some(s)
  {
    if s != [] {
      var rest := Encode(s[1..]);
      DecodeFirstOfEncodeChar(s[0], rest);
      assert (EncodeChar(s[0]) + rest)[|EncodeChar(s[0])|..] == rest;
      DecodeEncode(s[1..]);
      assert [s[0]] + s[1..] == s;
    }
  }

  /** Encoding inverts decoding: a byte sequence that decodes is the
      encoding of what it decodes to. */
  lemma {:induction false} EncodeDecode(b: seq<byte>)
    requires Decode(b).Some?
    ensures Encode(Decode(b).value) == b
  {
    if b != [] {
      var (c, k) := DecodeFirst(b).value;
      EncodeCharOfDecodeFirst(b);
      EncodeDecode(b[k..]);
      var s := Decode(b).value;
      assert s[0] == c && s[1..] == Decode(b[k..]).value;
      assert b[..k] + b[k..] == b;
    }
  }

  /** `from_utf8` succeeds exactly on the byte sequences that encode some
      text, and then returns that text. */
  lemma DecodeSucceedsIff(b: seq<byte>)
    ensures Decode(b).Some? <==> IsUtf8(b)
    ensures Decode(b).Some? ==> Encode(Decode(b).value) == b
  {
    if Decode(b).Some? {
      EncodeDecode(b);
    }
    if IsUtf8(b) {
      var s :| Encode(s) == b;
      DecodeEncode(s);
    }
  }
}
