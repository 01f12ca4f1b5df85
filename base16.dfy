/** Base 16 encoding with the lowercase alphabet, as Node's
    `Buffer.toString("hex")` produces it (section 8 of RFC 4648, which allows
    the lowercase alphabet in place of the uppercase one). Each byte becomes
    two characters, the high nibble first. */
module Base16 {
  import opened Wrappers

  newtype byte = x: int | 0 <= x < 256

  const Alphabet: string := "0123456789abcdef"

  predicate IsHexChar(c: char) {
    '0' <= c <= '9' || 'a' <= c <= 'f'
  }

  predicate IsHex(s: string) {
    forall i :: 0 <= i < |s| ==> IsHexChar(s[i])
  }

  /** The character that stands for the nibble v. */
  function HexChar(v: nat): (c: char)
    requires v < 16
    ensures IsHexChar(c)
  {
    if v < 10 then ('0' as int + v) as char else ('a' as int + v - 10) as char
  }

  /** HexChar reads the nibble off the alphabet. */
  lemma HexCharInAlphabet(v: nat)
    requires v < 16
    ensures HexChar(v) == Alphabet[v]
  {
  }

  /** The nibble a character of the alphabet stands for. */
  function HexValue(c: char): (v: nat)
    requires IsHexChar(c)
    ensures v < 16 && HexChar(v) == c
  {
    if c <= '9' then c as int - '0' as int else c as int - 'a' as int + 10
  }

  /** The two characters of one byte, high nibble first. */
  function EncodeByte(b: byte): (s: string)
    ensures |s| == 2 && IsHexChar(s[0]) && IsHexChar(s[1])
  {
    [HexChar(b as int / 16), HexChar(b as int % 16)]
  }

  function Encode(bytes: seq<byte>): (s: string)
    ensures |s| == 2 * |bytes| && IsHex(s)
  {
    if |bytes| == 0 then [] else EncodeByte(bytes[0]) + Encode(bytes[1..])
  }

  /** The decoder of RFC 4648 for the lowercase alphabet: None for an odd
      length or a character outside the alphabet. */
  function Decode(s: string): (r: Option<seq<byte>>)
    ensures r.Some? ==> |r.value| * 2 == |s|
  {
    if |s| == 0 then Some([])
    else if |s| == 1 || !IsHexChar(s[0]) || !IsHexChar(s[1]) then None
    else
      match Decode(s[2..])
      case None => None
      case Some(rest) => Some([(HexValue(s[0]) * 16 + HexValue(s[1])) as byte] + rest)
  }

  lemma DecodeByte(b: byte)
    ensures var e := EncodeByte(b); (HexValue(e[0]) * 16 + HexValue(e[1])) as byte == b
  {
    var hi, lo := b as int / 16, b as int % 16;
    assert HexValue(HexChar(hi)) == hi;
    assert HexValue(HexChar(lo)) == lo;
  }

  /** One decoding step: two hex characters, then the rest. */
  lemma DecodePair(s: string, b: byte, rest: seq<byte>)
    requires |s| >= 2 && IsHexChar(s[0]) && IsHexChar(s[1])
    requires (HexValue(s[0]) * 16 + HexValue(s[1])) as byte == b
    requires Decode(s[2..]) == Some(rest)
    ensures Decode(s) == Some([b] + rest)
  {
  }

  lemma {:induction false} DecodeEncode(bytes: seq<byte>)
    ensures Decode(Encode(bytes)) == Some(bytes)
  {
    if |bytes| > 0 {
      var s := Encode(bytes);
      var e := EncodeByte(bytes[0]);
      assert s == e + Encode(bytes[1..]);
      assert s[0] == e[0] && s[1] == e[1] && s[2..] == Encode(bytes[1..]);
      DecodeByte(bytes[0]);
      DecodeEncode(bytes[1..]);
      DecodePair(s, bytes[0], bytes[1..]);
      assert bytes == [bytes[0]] + bytes[1..];
    }
  }

  lemma EncodeNibbles(hi: nat, lo: nat)
    requires hi < 16 && lo < 16
    ensures EncodeByte((hi * 16 + lo) as byte) == [HexChar(hi), HexChar(lo)]
  {
    var b := (hi * 16 + lo) as byte;
    assert b as int / 16 == hi && b as int % 16 == lo;
  }

  lemma EncodeCons(b: byte, rest: seq<byte>)
    ensures Encode([b] + rest) == EncodeByte(b) + Encode(rest)
  {
    assert ([b] + rest)[1..] == rest;
  }

  lemma {:induction false} EncodeDecode(s: string)
    requires Decode(s).Some?
    ensures Encode(Decode(s).value) == s
  {
    if |s| > 0 {
      var hi, lo := HexValue(s[0]), HexValue(s[1]);
      var b := (hi * 16 + lo) as byte;
      var rest := Decode(s[2..]).value;
      assert Decode(s).value == [b] + rest;
      assert EncodeByte(b) == s[..2] by {
        EncodeNibbles(hi, lo);
      }
      assert Encode(rest) == s[2..] by {
        EncodeDecode(s[2..]);
      }
      EncodeCons(b, rest);
      assert s == s[..2] + s[2..];
    }
  }

  /** Exactly the even-length strings over the alphabet decode. */
  lemma {:induction false} DecodeDefined(s: string)
    ensures Decode(s).Some? <==> (|s| % 2 == 0 && IsHex(s))
  {
    if |s| >= 2 {
      DecodeDefined(s[2..]);
    }
  }

  lemma EncodeInjective(a: seq<byte>, b: seq<byte>)
    ensures Encode(a) == Encode(b) ==> a == b
  {
    DecodeEncode(a);
    DecodeEncode(b);
  }
}
