/**
 * The storage key derived from a peer's device address: the six bytes written
 * with `{:02X}` (two upper-case hexadecimal digits, zero padded) and joined by
 * colons, as in `AA:BB:CC:DD:EE:FF`. Both CCCD callbacks use this one format.
 */
module PeerKey {
  import opened Bytes

  /** Length of a key: six two-digit groups and five separators. */
  const KeyLen := 17

  predicate IsUpperHexDigit(c: char) {
    ('0' <= c <= '9') || ('A' <= c <= 'F')
  }

  /** The upper-case hexadecimal digit for a value below 16. */
  function HexDigit(n: int): (c: char)
    requires 0 <= n < 16
    ensures IsUpperHexDigit(c)
    ensures DigitValue(c) == Some(n)
  {
    if n < 10 then (48 + n) as char else (55 + n) as char
  }

  /** The value of an upper-case hexadecimal digit; lower case and anything else are rejected. */
  function DigitValue(c: char): (r: Option<int>)
    ensures r.Some? <==> IsUpperHexDigit(c)
    ensures r.Some? ==> 0 <= r.value < 16
  {
    if '0' <= c <= '9' then Some(c as int - 48)
    else if 'A' <= c <= 'F' then Some(c as int - 55)
    else None
  }

  /** `{:02X}` applied to one byte. */
  function HexByte(b: byte): (s: string)
    ensures |s| == 2 && IsUpperHexDigit(s[0]) && IsUpperHexDigit(s[1])
    ensures DigitValue(s[0]) == Some(b / 16) && DigitValue(s[1]) == Some(b % 16)
  {
    [HexDigit(b / 16), HexDigit(b % 16)]
  }

  /** The key `format!` builds from the address in both the read and the write callback. */
  function FormatKey(bda: Address): (k: string)
    ensures |k| == KeyLen
    ensures k[2] == ':' && k[5] == ':' && k[8] == ':' && k[11] == ':' && k[14] == ':'
  {
    HexByte(bda[0]) + ":" + HexByte(bda[1]) + ":" + HexByte(bda[2]) + ":" +
    HexByte(bda[3]) + ":" + HexByte(bda[4]) + ":" + HexByte(bda[5])
  }

  /** The six two-character groups of a key are `{:02X}` of the six address bytes, in order. */
  lemma FormatKeyGroups(bda: Address)
    ensures var k := FormatKey(bda);
      k[0..2] == HexByte(bda[0]) && k[3..5] == HexByte(bda[1]) && k[6..8] == HexByte(bda[2]) &&
      k[9..11] == HexByte(bda[3]) && k[12..14] == HexByte(bda[4]) && k[15..17] == HexByte(bda[5])
  {
  }

  /** Group `j` of a key, the two digits `{:02X}` wrote for byte `j`. */
  lemma FormatKeyGroup(bda: Address, j: nat)
    requires j < AddressLen
    ensures FormatKey(bda)[3 * j .. 3 * j + 2] == HexByte(bda[j])
  {
    FormatKeyGroups(bda);
  }

  /** Every third character of a key, from the third on, is a colon; all others are upper-case digits. */
  lemma FormatKeyShape(bda: Address)
    ensures forall i :: 0 <= i < KeyLen ==> (FormatKey(bda)[i] == ':' <==> i % 3 == 2)
    ensures forall i :: 0 <= i < KeyLen && i % 3 != 2 ==> IsUpperHexDigit(FormatKey(bda)[i])
  {
    var k := FormatKey(bda);
    forall i | 0 <= i < KeyLen && i % 3 != 2
      ensures IsUpperHexDigit(k[i]) && k[i] != ':'
    {
      var j := i / 3;
      FormatKeyGroup(bda, j);
      assert k[i] == HexByte(bda[j])[i - 3 * j];
    }
  }

  /** Reads back the byte written by `HexByte` at offset `3 * j` of a key. */
  function GroupValue(k: string, j: nat): Option<byte>
    requires 3 * j + 2 <= |k|
  {
    match (DigitValue(k[3 * j]), DigitValue(k[3 * j + 1]))
    case (Some(hi), Some(lo)) => Some(16 * hi + lo)
    case _ => None
  }

  /**
   * The inverse of FormatKey: accepts exactly the strings of the shape
   * `XX:XX:XX:XX:XX:XX` with upper-case digits and returns the address.
   */
  function ParseKey(k: string): (r: Option<Address>)
    ensures r.Some? ==> |k| == KeyLen
  {
    if |k| != KeyLen || k[2] != ':' || k[5] != ':' || k[8] != ':' || k[11] != ':' || k[14] != ':' then None
    else
      match (GroupValue(k, 0), GroupValue(k, 1), GroupValue(k, 2), GroupValue(k, 3), GroupValue(k, 4), GroupValue(k, 5))
      case (Some(b0), Some(b1), Some(b2), Some(b3), Some(b4), Some(b5)) => Some([b0, b1, b2, b3, b4, b5])
      case _ => None
  }

  /** Reading a group back inverts `{:02X}` for that byte. */
  lemma GroupFormat(k: string, j: nat, b: byte)
    requires 3 * j + 2 <= |k|
    ensures GroupValue(k, j) == Some(b) <==> k[3 * j .. 3 * j + 2] == HexByte(b)
  {
    if GroupValue(k, j) == Some(b) {
      var hi, lo := DigitValue(k[3 * j]).value, DigitValue(k[3 * j + 1]).value;
      assert b / 16 == hi && b % 16 == lo;
      DigitInjective(HexDigit(hi), k[3 * j]);
      DigitInjective(HexDigit(lo), k[3 * j + 1]);
    }
    if k[3 * j .. 3 * j + 2] == HexByte(b) {
      assert k[3 * j] == HexDigit(b / 16) && k[3 * j + 1] == HexDigit(b % 16);
    }
  }

  /** Parsing a formatted key gives back the address. */
  lemma ParseFormatKey(bda: Address)
    ensures ParseKey(FormatKey(bda)) == Some(bda)
  {
    var k := FormatKey(bda);
    FormatKeyGroups(bda);
    GroupFormat(k, 0, bda[0]);
    GroupFormat(k, 1, bda[1]);
    GroupFormat(k, 2, bda[2]);
    GroupFormat(k, 3, bda[3]);
    GroupFormat(k, 4, bda[4]);
    GroupFormat(k, 5, bda[5]);
    assert [bda[0], bda[1], bda[2], bda[3], bda[4], bda[5]] == bda;
  }

  /** Every string the parser accepts is the formatted key of the address it returns. */
  lemma FormatParseKey(k: string, bda: Address)
    requires ParseKey(k) == Some(bda)
    ensures FormatKey(bda) == k
  {
    GroupFormat(k, 0, bda[0]);
    GroupFormat(k, 1, bda[1]);
    GroupFormat(k, 2, bda[2]);
    GroupFormat(k, 3, bda[3]);
    GroupFormat(k, 4, bda[4]);
    GroupFormat(k, 5, bda[5]);
    assert k == k[0..2] + ":" + k[3..5] + ":" + k[6..8] + ":" + k[9..11] + ":" + k[12..14] + ":" + k[15..17];
  }

  lemma DigitInjective(c: char, d: char)
    requires DigitValue(c).Some? && DigitValue(c) == DigitValue(d)
    ensures c == d
  {
  }

  /** Key derivation is injective: two addresses share a key exactly when they are equal. */
  lemma FormatKeyInjective(a: Address, b: Address)
    ensures FormatKey(a) == FormatKey(b) <==> a == b
  {
    if FormatKey(a) == FormatKey(b) {
      ParseFormatKey(a);
      ParseFormatKey(b);
    }
  }
}
