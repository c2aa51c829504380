/**
 * Base64 as java.util.Base64.getDecoder() / getEncoder() implement it: the basic
 * alphabet of section 4 of RFC 4648, no line separators. The decoder accepts a final
 * unit with or without its '=' padding, rejects any other character or misplaced
 * padding, and ignores the unused low bits of the last character of a short unit.
 */
module Base64 {
  import opened Wrappers

  newtype byte = b: int | 0 <= b < 256

  /** A 6-bit value, the meaning of one Base64 character. */
  type Sextet = v: int | 0 <= v < 64

  predicate IsAlphabetChar(c: char)
  {
    'A' <= c <= 'Z' || 'a' <= c <= 'z' || '0' <= c <= '9' || c == '+' || c == '/'
  }

  function EncodeSextet(v: Sextet): char
  {
    if v < 26 then ('A' as int + v) as char
    else if v < 52 then ('a' as int + (v - 26)) as char
    else if v < 62 then ('0' as int + (v - 52)) as char
    else if v == 62 then '+'
    else '/'
  }

  function DecodeSextet(c: char): Sextet
    requires IsAlphabetChar(c)
  {
    if 'A' <= c <= 'Z' then c as int - 'A' as int
    else if 'a' <= c <= 'z' then c as int - 'a' as int + 26
    else if '0' <= c <= '9' then c as int - '0' as int + 52
    else if c == '+' then 62
    else 63
  }

  /** Every sextet has a character of the alphabet that decodes back to it. */
  lemma SextetRoundTrip(v: Sextet)
    ensures IsAlphabetChar(EncodeSextet(v)) && DecodeSextet(EncodeSextet(v)) == v
  {
  }

  /** The bytes carried by the first two, three or four sextets of a unit:
      bits >> 16, bits >> 8 and bits, each truncated to eight bits. */
  function FirstByte(a: Sextet, b: Sextet): byte
  {
    (a * 4 + b / 16) as byte
  }

  function SecondByte(b: Sextet, c: Sextet): byte
  {
    ((b % 16) * 16 + c / 4) as byte
  }

  function ThirdByte(c: Sextet, d: Sextet): byte
  {
    ((c % 4) * 64 + d) as byte
  }

  /** The four sextets one group of three bytes is split into. */
  function S0(x: byte): Sextet { x as int / 4 }
  function S1(x: byte, y: byte): Sextet { (x as int % 4) * 16 + y as int / 16 }
  function S2(y: byte, z: byte): Sextet { (y as int % 16) * 4 + z as int / 64 }
  function S3(z: byte): Sextet { z as int % 64 }

  /** Splitting bytes into sextets and joining them again gives the bytes back. */
  lemma GroupRoundTrip(x: byte, y: byte, z: byte)
    ensures FirstByte(S0(x), S1(x, y)) == x
    ensures SecondByte(S1(x, y), S2(y, z)) == y
    ensures ThirdByte(S2(y, z), S3(z)) == z
  {
  }

  /** The four characters of one complete group of three bytes. */
  function EncodeGroup(x: byte, y: byte, z: byte): (s: string)
  {
    [EncodeSextet(S0(x)), EncodeSextet(S1(x, y)), EncodeSextet(S2(y, z)), EncodeSextet(S3(z))]
  }

  /** The characters of a final one or two bytes, padded to four or not. */
  function EncodeLastOne(x: byte, padding: bool): string
  {
    [EncodeSextet(S0(x)), EncodeSextet(S1(x, 0))] + (if padding then "==" else "")
  }

  function EncodeLastTwo(x: byte, y: byte, padding: bool): string
  {
    [EncodeSextet(S0(x)), EncodeSextet(S1(x, y)), EncodeSextet(S2(y, 0))] + (if padding then "=" else "")
  }

  /** Base64.Encoder: four characters per three bytes; a final one or two bytes give
      two or three characters, followed by "==" or "=" when padding is on
      (getEncoder()) and by nothing when it is off (withoutPadding()). */
  function EncodeWith(data: seq<byte>, padding: bool): string
    decreases |data|
  {
    if |data| == 0 then ""
    else if |data| == 1 then EncodeLastOne(data[0], padding)
    else if |data| == 2 then EncodeLastTwo(data[0], data[1], padding)
    else EncodeGroup(data[0], data[1], data[2]) + EncodeWith(data[3..], padding)
  }

  /** java.util.Base64.getEncoder().encodeToString: only alphabet characters and
      the '=' padding are written. */
  function Encode(data: seq<byte>): (s: string)
    ensures forall i :: 0 <= i < |s| ==> IsAlphabetChar(s[i]) || s[i] == '='
  {
    EncodeWithChars(data, true);
    EncodeWith(data, true)
  }

  /** Every character the encoder writes is in the alphabet or is padding. */
  lemma {:induction false} EncodeWithChars(data: seq<byte>, padding: bool)
    ensures forall i :: 0 <= i < |EncodeWith(data, padding)| ==>
      IsAlphabetChar(EncodeWith(data, padding)[i]) || EncodeWith(data, padding)[i] == '='
    decreases |data|
  {
    if |data| == 1 {
      SextetRoundTrip(S0(data[0]));
      SextetRoundTrip(S1(data[0], 0));
    } else if |data| == 2 {
      SextetRoundTrip(S0(data[0]));
      SextetRoundTrip(S1(data[0], data[1]));
      SextetRoundTrip(S2(data[1], 0));
    } else if |data| >= 3 {
      var x, y, z := data[0], data[1], data[2];
      SextetRoundTrip(S0(x));
      SextetRoundTrip(S1(x, y));
      SextetRoundTrip(S2(y, z));
      SextetRoundTrip(S3(z));
      EncodeWithChars(data[3..], padding);
      var group, rest := EncodeGroup(x, y, z), EncodeWith(data[3..], padding);
      assert EncodeWith(data, padding) == group + rest;
      assert forall i :: 4 <= i < |group + rest| ==> (group + rest)[i] == rest[i - 4];
    }
  }

  /** The last unit of the input, after every complete four-character unit: two or
      three characters, optionally followed by exactly the padding that completes
      the unit to four. Anything else is rejected. */
  function DecodeFinalUnit(s: string): Option<seq<byte>>
  {
    if (|s| == 2 || (|s| == 4 && s[2] == '=' && s[3] == '='))
       && IsAlphabetChar(s[0]) && IsAlphabetChar(s[1])
    then
      Some([FirstByte(DecodeSextet(s[0]), DecodeSextet(s[1]))])
    else if (|s| == 3 || (|s| == 4 && s[3] == '='))
       && IsAlphabetChar(s[0]) && IsAlphabetChar(s[1]) && IsAlphabetChar(s[2])
    then
      var a, b, c := DecodeSextet(s[0]), DecodeSextet(s[1]), DecodeSextet(s[2]);
      Some([FirstByte(a, b), SecondByte(b, c)])
    else
      None
  }

  /** s starts with a complete unit of four alphabet characters. */
  predicate StartsWithGroup(s: string)
  {
    |s| >= 4 && IsAlphabetChar(s[0]) && IsAlphabetChar(s[1])
    && IsAlphabetChar(s[2]) && IsAlphabetChar(s[3])
  }

  /** The three bytes of the complete unit s starts with. */
  function GroupBytes(s: string): seq<byte>
    requires StartsWithGroup(s)
  {
    var a, b, c, d := DecodeSextet(s[0]), DecodeSextet(s[1]), DecodeSextet(s[2]), DecodeSextet(s[3]);
    [FirstByte(a, b), SecondByte(b, c), ThirdByte(c, d)]
  }

  /** java.util.Base64.getDecoder().decode: None where the JDK throws
      IllegalArgumentException. Accepted input yields three bytes for every four
      characters, less at most two for a short or padded final unit. */
  function Decode(s: string): (r: Option<seq<byte>>)
    ensures r.Some? ==> 3 * |s| / 4 - 2 <= |r.value| <= 3 * |s| / 4
    decreases |s|
  {
    if |s| == 0 then Some([])
    else if StartsWithGroup(s) then
      match Decode(s[4..])
      case None => None
      case Some(rest) => Some(GroupBytes(s) + rest)
    else
      DecodeFinalUnit(s)
  }

  lemma LastOneDecodes(x: byte, padding: bool)
    ensures Decode(EncodeLastOne(x, padding)) == Some([x])
  {
    var s := EncodeLastOne(x, padding);
    SextetRoundTrip(S0(x));
    SextetRoundTrip(S1(x, 0));
    assert IsAlphabetChar(s[0]) && IsAlphabetChar(s[1]);
    assert |s| == 2 || (|s| == 4 && s[2] == '=' && s[3] == '=');
    assert Decode(s) == DecodeFinalUnit(s);
    assert DecodeFinalUnit(s) == Some([FirstByte(DecodeSextet(s[0]), DecodeSextet(s[1]))]);
    assert DecodeSextet(s[0]) == S0(x) && DecodeSextet(s[1]) == S1(x, 0);
    GroupRoundTrip(x, 0, 0);
    assert DecodeFinalUnit(s) == Some([x]);
  }

  lemma LastTwoDecodes(x: byte, y: byte, padding: bool)
    ensures Decode(EncodeLastTwo(x, y, padding)) == Some([x, y])
  {
    var s := EncodeLastTwo(x, y, padding);
    SextetRoundTrip(S0(x));
    SextetRoundTrip(S1(x, y));
    SextetRoundTrip(S2(y, 0));
    assert IsAlphabetChar(s[0]) && IsAlphabetChar(s[1]) && IsAlphabetChar(s[2]);
    assert |s| == 3 || (|s| == 4 && s[3] == '=');
    var a, b, c := DecodeSextet(s[0]), DecodeSextet(s[1]), DecodeSextet(s[2]);
    assert Decode(s) == DecodeFinalUnit(s);
    assert DecodeFinalUnit(s) == Some([FirstByte(a, b), SecondByte(b, c)]);
    assert a == S0(x) && b == S1(x, y) && c == S2(y, 0);
    GroupRoundTrip(x, y, 0);
    assert DecodeFinalUnit(s) == Some([x, y]);
  }

  lemma GroupBytesOfEncoding(x: byte, y: byte, z: byte, t: string)
    ensures StartsWithGroup(EncodeGroup(x, y, z) + t)
    ensures GroupBytes(EncodeGroup(x, y, z) + t) == [x, y, z]
  {
    var s := EncodeGroup(x, y, z) + t;
    SextetRoundTrip(S0(x));
    SextetRoundTrip(S1(x, y));
    SextetRoundTrip(S2(y, z));
    SextetRoundTrip(S3(z));
    assert IsAlphabetChar(s[0]) && IsAlphabetChar(s[1]) && IsAlphabetChar(s[2]) && IsAlphabetChar(s[3]);
    var a, b, c, d := DecodeSextet(s[0]), DecodeSextet(s[1]), DecodeSextet(s[2]), DecodeSextet(s[3]);
    assert a == S0(x) && b == S1(x, y) && c == S2(y, z) && d == S3(z);
    GroupRoundTrip(x, y, z);
  }

  /** A complete group in front of any input decodes to its three bytes in front of
      that input's decoding. */
  lemma GroupDecodes(x: byte, y: byte, z: byte, t: string)
    ensures Decode(EncodeGroup(x, y, z) + t) ==
      match Decode(t)
      case None => None
      case Some(rest) => Some([x, y, z] + rest)
  {
    var s := EncodeGroup(x, y, z) + t;
    GroupBytesOfEncoding(x, y, z, t);
    assert s[4..] == t;
  }

  /** A group in front of input that decodes to tail decodes to the group's bytes
      in front of tail. */
  lemma GroupPrefixDecodes(x: byte, y: byte, z: byte, rest: string, tail: seq<byte>)
    requires Decode(rest) == Some(tail)
    ensures Decode(EncodeGroup(x, y, z) + rest) == Some([x, y, z] + tail)
  {
    GroupDecodes(x, y, z, rest);
  }

  /** The encoding of three or more bytes starts with the group of the first three. */
  lemma EncodeWithGroup(data: seq<byte>, padding: bool)
    requires |data| >= 3
    ensures EncodeWith(data, padding) == EncodeGroup(data[0], data[1], data[2]) + EncodeWith(data[3..], padding)
  {
  }

  lemma SplitGroup(data: seq<byte>)
    requires |data| >= 3
    ensures [data[0], data[1], data[2]] + data[3..] == data
  {
  }

  /** One step of the round trip: a leading group of three bytes survives it when the
      rest does. */
  lemma GroupStep(data: seq<byte>, padding: bool)
    requires |data| >= 3
    requires Decode(EncodeWith(data[3..], padding)) == Some(data[3..])
    ensures Decode(EncodeWith(data, padding)) == Some(data)
  {
    EncodeWithGroup(data, padding);
    GroupPrefixDecodes(data[0], data[1], data[2], EncodeWith(data[3..], padding), data[3..]);
    SplitGroup(data);
  }

  /** Decoding an encoding, padded or not, gives back the bytes that were encoded. */
  lemma {:induction false} DecodeEncodeWith(data: seq<byte>, padding: bool)
    ensures Decode(EncodeWith(data, padding)) == Some(data)
    decreases |data|
  {
    if |data| == 1 {
      LastOneDecodes(data[0], padding);
      assert data == [data[0]];
    } else if |data| == 2 {
      LastTwoDecodes(data[0], data[1], padding);
      assert data == [data[0], data[1]];
    } else if |data| >= 3 {
      DecodeEncodeWith(data[3..], padding);
      GroupStep(data, padding);
    }
  }

  /** The round trip the upload path relies on: decode(encodeToString(b)) == b. */
  lemma DecodeEncode(data: seq<byte>)
    ensures Decode(Encode(data)) == Some(data)
  {
    DecodeEncodeWith(data, true);
  }

  /** The padded encoding has four characters for every started group of three bytes. */
  lemma {:induction false} EncodeLength(data: seq<byte>)
    ensures |Encode(data)| == 4 * ((|data| + 2) / 3)
    decreases |data|
  {
    if |data| >= 3 {
      EncodeLength(data[3..]);
    }
  }

  /** A character that is neither in the alphabet nor '=' makes decoding fail. */
  lemma {:induction false} DecodeRejectsForeignChar(s: string, i: nat)
    requires i < |s| && !IsAlphabetChar(s[i]) && s[i] != '='
    ensures Decode(s) == None
    decreases |s|
  {
    if StartsWithGroup(s) {
      DecodeRejectsForeignChar(s[4..], i - 4);
    }
  }

  /** Padding ends the data: in accepted input every '=' is among the last two characters. */
  lemma {:induction false} PaddingOnlyAtEnd(s: string, i: nat)
    requires i < |s| && s[i] == '=' && Decode(s).Some?
    ensures i >= |s| - 2
    decreases |s|
  {
    if StartsWithGroup(s) {
      PaddingOnlyAtEnd(s[4..], i - 4);
    }
  }

  /** The decoder ignores the unused low bits of a short final unit, so it accepts
      "QR==" although the encoder only ever writes "QQ==" for the byte 65. */
  lemma LenientFinalUnit()
    ensures Decode("QR==") == Some([65])
    ensures Encode([65]) == "QQ=="
  {
    var s := "QR==";
    assert DecodeSextet(s[0]) == 16 && DecodeSextet(s[1]) == 17;
    assert S0(65) == 16 && S1(65, 0) == 16;
  }
}
