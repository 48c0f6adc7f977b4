/**
 * UTF-8, the encoding Rust's `str::as_bytes` exposes. A Dafny `char` is a
 * Unicode scalar value, so a `string` is exactly what a Rust `&str` holds.
 */
module Utf8 {
  import opened Bytes

  predicate IsContinuation(b: byte) {
    0x80 <= b < 0xC0
  }

  /** The one to four bytes UTF-8 uses for one scalar value. */
  function EncodeChar(c: char): (bs: seq<byte>)
    ensures 1 <= |bs| <= 4
    ensures |bs| == 1 <==> (c as int) < 0x80
    ensures forall i :: 1 <= i < |bs| ==> IsContinuation(bs[i])
  {
    var cp := c as int;
    if cp < 0x80 then [cp]
    else if cp < 0x800 then [0xC0 + cp / 64, 0x80 + cp % 64]
    else if cp < 0x10000 then [0xE0 + cp / 4096, 0x80 + (cp / 64) % 64, 0x80 + cp % 64]
    else [0xF0 + cp / 262144, 0x80 + (cp / 4096) % 64, 0x80 + (cp / 64) % 64, 0x80 + cp % 64]
  }

  /** The UTF-8 bytes of a string, character after character. */
  function Encode(s: string): seq<byte>
  {
    if s == [] then [] else EncodeChar(s[0]) + Encode(s[1..])
  }

  predicate IsScalar(cp: int) {
    (0 <= cp < 0xD800) || (0xE000 <= cp < 0x110000)
  }

  /** The scalar value a two-, three- or four-byte form spells. */
  function Value2(b0: byte, b1: byte): int {
    (b0 as int - 0xC0) * 64 + (b1 as int - 0x80)
  }

  function Value3(b0: byte, b1: byte, b2: byte): int {
    (b0 as int - 0xE0) * 4096 + (b1 as int - 0x80) * 64 + (b2 as int - 0x80)
  }

  function Value4(b0: byte, b1: byte, b2: byte, b3: byte): int {
    (b0 as int - 0xF0) * 262144 + (b1 as int - 0x80) * 4096 + (b2 as int - 0x80) * 64 + (b3 as int - 0x80)
  }

  /**
   * Decodes the first scalar value of `bs` and returns it with the number of
   * bytes it took, rejecting truncated, overlong, surrogate and out-of-range forms.
   */
  function DecodeChar(bs: seq<byte>): (r: Option<(char, nat)>)
    ensures r.Some? ==> 1 <= r.value.1 <= |bs|
  {
    if |bs| == 0 then None
    else if bs[0] < 0x80 then Some((bs[0] as char, 1))
    else if bs[0] < 0xC0 || |bs| < 2 || !IsContinuation(bs[1]) then None
    else if bs[0] < 0xE0 then
      var cp := Value2(bs[0], bs[1]);
      if cp < 0x80 then None else Some((cp as char, 2))
    else if |bs| < 3 || !IsContinuation(bs[2]) then None
    else if bs[0] < 0xF0 then
      var cp := Value3(bs[0], bs[1], bs[2]);
      if cp < 0x800 || !IsScalar(cp) then None else Some((cp as char, 3))
    else if bs[0] >= 0xF8 || |bs| < 4 || !IsContinuation(bs[3]) then None
    else
      var cp := Value4(bs[0], bs[1], bs[2], bs[3]);
      if cp < 0x10000 || !IsScalar(cp) then None else Some((cp as char, 4))
  }

  /** Decodes a whole byte sequence; None if it is not well-formed UTF-8. */
  function Decode(bs: seq<byte>): Option<string>
    decreases |bs|
  {
    if bs == [] then Some([])
    else match DecodeChar(bs)
      case None => None
      case Some((c, n)) =>
        match Decode(bs[n..])
        case None => None
        case Some(rest) => Some([c] + rest)
  }

  lemma Value2Encode(cp: int)
    requires 0x80 <= cp < 0x800
    ensures Value2(0xC0 + cp / 64, 0x80 + cp % 64) == cp
  {
  }

  lemma Value3Encode(cp: int)
    requires 0x800 <= cp < 0x10000
    ensures Value3(0xE0 + cp / 4096, 0x80 + (cp / 64) % 64, 0x80 + cp % 64) == cp
  {
    assert cp / 4096 * 64 + (cp / 64) % 64 == cp / 64;
  }

  lemma Value4Encode(cp: int)
    requires 0x10000 <= cp < 0x110000
    ensures Value4(0xF0 + cp / 262144, 0x80 + (cp / 4096) % 64, 0x80 + (cp / 64) % 64, 0x80 + cp % 64) == cp
  {
    assert cp / 262144 * 64 + (cp / 4096) % 64 == cp / 4096;
    assert cp / 4096 * 64 + (cp / 64) % 64 == cp / 64;
  }

  /** Decoding reads back exactly the character EncodeChar wrote, whatever follows it. */
  lemma DecodeEncodeChar(c: char, rest: seq<byte>)
    ensures DecodeChar(EncodeChar(c) + rest) == Some((c, |EncodeChar(c)|))
  {
    var cp := c as int;
    if 0x80 <= cp < 0x800 {
      Value2Encode(cp);
    } else if 0x800 <= cp < 0x10000 {
      Value3Encode(cp);
    } else if 0x10000 <= cp {
      Value4Encode(cp);
    }
  }

  /** UTF-8 is lossless: decoding the encoding of any string gives the string back. */
  lemma {:induction false} DecodeEncode(s: string)
    ensures Decode(Encode(s)) == Some(s)
  {
    if s != [] {
      var e := EncodeChar(s[0]);
      DecodeEncodeChar(s[0], Encode(s[1..]));
      assert (e + Encode(s[1..]))[|e|..] == Encode(s[1..]);
      DecodeEncode(s[1..]);
      assert [s[0]] + s[1..] == s;
    }
  }

  lemma EncodeValue2(b0: byte, b1: byte)
    requires 0xC0 <= b0 < 0xE0 && IsContinuation(b1)
    ensures var cp := Value2(b0, b1); cp / 64 == b0 - 0xC0 && cp % 64 == b1 - 0x80
  {
  }

  lemma EncodeValue3(b0: byte, b1: byte, b2: byte)
    requires 0xE0 <= b0 < 0xF0 && IsContinuation(b1) && IsContinuation(b2)
    ensures var cp := Value3(b0, b1, b2);
      cp / 4096 == b0 - 0xE0 && (cp / 64) % 64 == b1 - 0x80 && cp % 64 == b2 - 0x80
  {
    var cp := Value3(b0, b1, b2);
    assert cp / 64 == (b0 - 0xE0) * 64 + (b1 - 0x80);
  }

  lemma EncodeValue4(b0: byte, b1: byte, b2: byte, b3: byte)
    requires 0xF0 <= b0 < 0xF8 && IsContinuation(b1) && IsContinuation(b2) && IsContinuation(b3)
    ensures var cp := Value4(b0, b1, b2, b3);
      cp / 262144 == b0 - 0xF0 && (cp / 4096) % 64 == b1 - 0x80 &&
      (cp / 64) % 64 == b2 - 0x80 && cp % 64 == b3 - 0x80
  {
    var cp := Value4(b0, b1, b2, b3);
    assert cp / 64 == (b0 - 0xF0) * 4096 + (b1 - 0x80) * 64 + (b2 - 0x80);
    assert cp / 4096 == (b0 - 0xF0) * 64 + (b1 - 0x80);
  }

  /** The first character DecodeChar accepts is re-encoded to exactly the bytes it consumed. */
  lemma EncodeDecodeChar(bs: seq<byte>)
    requires DecodeChar(bs).Some?
    ensures EncodeChar(DecodeChar(bs).value.0) == bs[..DecodeChar(bs).value.1]
  {
    var n := DecodeChar(bs).value.1;
    if n == 2 {
      EncodeValue2(bs[0], bs[1]);
    } else if n == 3 {
      EncodeValue3(bs[0], bs[1], bs[2]);
    } else if n == 4 {
      EncodeValue4(bs[0], bs[1], bs[2], bs[3]);
    }
  }

  /** A well-formed non-empty sequence is the encoding of one character followed by a well-formed rest. */
  lemma DecodeSplit(bs: seq<byte>) returns (c: char, n: nat, rest: string)
    requires bs != [] && Decode(bs).Some?
    ensures 1 <= n <= |bs| && EncodeChar(c) == bs[..n]
    ensures Decode(bs[n..]) == Some(rest) && Decode(bs) == Some([c] + rest)
  {
    c, n := DecodeChar(bs).value.0, DecodeChar(bs).value.1;
    rest := Decode(bs[n..]).value;
    EncodeDecodeChar(bs);
  }

  /** Every well-formed byte sequence is the encoding of the string it decodes to. */
  lemma {:induction false} EncodeDecode(bs: seq<byte>, s: string)
    requires Decode(bs) == Some(s)
    ensures Encode(s) == bs
    decreases |bs|
  {
    if bs != [] {
      var c, n, rest := DecodeSplit(bs);
      EncodeDecode(bs[n..], rest);
      assert s[0] == c && s[1..] == rest;
      assert bs == bs[..n] + bs[n..];
    }
  }

  /** Hence encoding is injective: distinct texts never give the same bytes. */
  lemma EncodeInjective(s: string, t: string)
    ensures Encode(s) == Encode(t) <==> s == t
  {
    if Encode(s) == Encode(t) {
      DecodeEncode(s);
      DecodeEncode(t);
    }
  }

  /** Text in the ASCII range is carried byte for byte. */
  lemma {:induction false} EncodeAscii(s: string)
    requires forall i :: 0 <= i < |s| ==> (s[i] as int) < 0x80
    ensures |Encode(s)| == |s|
    ensures forall i :: 0 <= i < |s| ==> Encode(s)[i] == s[i] as int
  {
    if s != [] {
      EncodeAscii(s[1..]);
    }
  }
}
