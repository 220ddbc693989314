/**
 * The URL- and filename-safe base 64 encoding of RFC 4648, section 5, as the
 * JDK provides it: `Base64.getUrlEncoder().withoutPadding()` writes no '='
 * (section 3.2 of RFC 4648 allows leaving padding out), and
 * `Base64.getUrlDecoder()` reads unpadded and correctly padded input alike,
 * refuses (with `IllegalArgumentException`, here `None`) any character outside
 * the alphabet, misplaced padding, text after the padding and a final unit of
 * a single character, and ignores the unused low bits of a final unit.
 */
module Base64Url {
  import opened Wrappers

  type Byte = b: int | 0 <= b < 256
  type Sextet = v: int | 0 <= v < 64

  /** The 64 characters of the URL-safe alphabet. */
  predicate IsUrlSafeChar(c: char) {
    'A' <= c <= 'Z' || 'a' <= c <= 'z' || '0' <= c <= '9' || c == '-' || c == '_'
  }

  predicate AllUrlSafe(s: string) {
    forall i :: 0 <= i < |s| ==> IsUrlSafeChar(s[i])
  }

  /** Table 2 of RFC 4648: value to character. */
  function CharOf(v: Sextet): (c: char)
    ensures IsUrlSafeChar(c)
  {
    if v < 26 then ('A' as int + v) as char
    else if v < 52 then ('a' as int + (v - 26)) as char
    else if v < 62 then ('0' as int + (v - 52)) as char
    else if v == 62 then '-'
    else '_'
  }

  /** Table 2 of RFC 4648: character to value; the inverse of CharOf. */
  function ValueOf(c: char): (v: Sextet)
    requires IsUrlSafeChar(c)
    ensures CharOf(v) == c
  {
    if 'A' <= c <= 'Z' then c as int - 'A' as int
    else if 'a' <= c <= 'z' then c as int - 'a' as int + 26
    else if '0' <= c <= '9' then c as int - '0' as int + 52
    else if c == '-' then 62
    else 63
  }

  lemma ValueOfCharOf(v: Sextet)
    ensures ValueOf(CharOf(v)) == v
  {
  }

  /** Three bytes to four characters: the 24 bits split into four sextets, most significant first. */
  function EncodeTriple(b0: Byte, b1: Byte, b2: Byte): (u: string)
    ensures |u| == 4 && AllUrlSafe(u)
  {
    [CharOf(b0 / 4), CharOf((b0 % 4) * 16 + b1 / 16), CharOf((b1 % 16) * 4 + b2 / 64), CharOf(b2 % 64)]
  }

  /** A final group of two bytes: 16 bits, zero-filled to three sextets. */
  function EncodePair(b0: Byte, b1: Byte): (u: string)
    ensures |u| == 3 && AllUrlSafe(u)
  {
    [CharOf(b0 / 4), CharOf((b0 % 4) * 16 + b1 / 16), CharOf((b1 % 16) * 4)]
  }

  /** A final single byte: 8 bits, zero-filled to two sextets. */
  function EncodeSingle(b0: Byte): (u: string)
    ensures |u| == 2 && AllUrlSafe(u)
  {
    [CharOf(b0 / 4), CharOf((b0 % 4) * 16)]
  }

  /** The encoder without padding: a final group of one byte gives two characters, of two bytes three. */
  function Encode(bytes: seq<Byte>): (s: string)
    ensures |s| == (4 * |bytes| + 2) / 3
    ensures AllUrlSafe(s)
    decreases |bytes|
  {
    if |bytes| >= 3 then EncodeTriple(bytes[0], bytes[1], bytes[2]) + Encode(bytes[3..])
    else if |bytes| == 2 then EncodePair(bytes[0], bytes[1])
    else if |bytes| == 1 then EncodeSingle(bytes[0])
    else []
  }

  /** First byte of a unit: the six bits of `c0` and the top two of `c1`. */
  function FirstByte(c0: Sextet, c1: Sextet): Byte {
    c0 * 4 + c1 / 16
  }

  /** Second byte of a unit: the low four bits of `c1` and the top four of `c2`. */
  function SecondByte(c1: Sextet, c2: Sextet): Byte {
    (c1 % 16) * 16 + c2 / 4
  }

  /** Third byte of a unit: the low two bits of `c2` and the six of `c3`. */
  function ThirdByte(c2: Sextet, c3: Sextet): Byte {
    (c2 % 4) * 64 + c3
  }

  predicate UnitIsUrlSafe(s: string)
    requires |s| >= 4
  {
    IsUrlSafeChar(s[0]) && IsUrlSafeChar(s[1]) && IsUrlSafeChar(s[2]) && IsUrlSafeChar(s[3])
  }

  /** Number of alphabet characters at the start of `s`, counting at most three. */
  function LeadingUrlSafe(s: string): (k: nat)
    ensures k <= 3 && k <= |s|
    ensures forall i :: 0 <= i < k ==> IsUrlSafeChar(s[i])
    ensures k < 3 && k < |s| ==> !IsUrlSafeChar(s[k])
  {
    if |s| == 0 || !IsUrlSafeChar(s[0]) then 0
    else if |s| == 1 || !IsUrlSafeChar(s[1]) then 1
    else if |s| == 2 || !IsUrlSafeChar(s[2]) then 2
    else 3
  }

  /**
   * The unit that ends the input, once the decoder meets fewer than four
   * alphabet characters: up to three of them, then either the end of the
   * input, or '=' padding that completes the unit to four characters and ends
   * the input.
   */
  function DecodeFinalUnit(s: string): (r: Option<seq<Byte>>)
    requires |s| < 4 || !UnitIsUrlSafe(s)
    ensures r.Some? ==> |s| <= 4 && |s| != 1 && IsPaddedText(s)
    ensures r.Some? && '=' !in s ==> |r.value| == 3 * |s| / 4
  {
    var k := LeadingUrlSafe(s);
    if k == |s| then
      if k == 0 then Some([])
      else if k == 1 then None
      else if k == 2 then Some([FirstByte(ValueOf(s[0]), ValueOf(s[1]))])
      else Some([FirstByte(ValueOf(s[0]), ValueOf(s[1])), SecondByte(ValueOf(s[1]), ValueOf(s[2]))])
    else if s[k] != '=' then None
    else if k == 2 && |s| == 4 && s[3] == '=' then Some([FirstByte(ValueOf(s[0]), ValueOf(s[1]))])
    else if k == 3 && |s| == 4 then
      Some([FirstByte(ValueOf(s[0]), ValueOf(s[1])), SecondByte(ValueOf(s[1]), ValueOf(s[2]))])
    else None
  }

  /** Text made of alphabet characters and '=' only. */
  predicate IsPaddedText(s: string) {
    forall i :: 0 <= i < |s| ==> IsUrlSafeChar(s[i]) || s[i] == '='
  }

  /**
   * The decoder: full units of four alphabet characters, then the final unit.
   * Whatever it accepts is alphabet characters and '=' only, and never leaves
   * a single character over a multiple of four; unpadded input of n characters
   * gives 3n/4 bytes, rounded down.
   */
  function Decode(s: string): (r: Option<seq<Byte>>)
    ensures r.Some? ==> |s| % 4 != 1 && IsPaddedText(s)
    ensures r.Some? && '=' !in s ==> |r.value| == 3 * |s| / 4
    decreases |s|
  {
    if |s| >= 4 && UnitIsUrlSafe(s) then
      assert '=' in s[4..] ==> '=' in s;
      var rest :- Decode(s[4..]);
      var c0, c1, c2, c3 := ValueOf(s[0]), ValueOf(s[1]), ValueOf(s[2]), ValueOf(s[3]);
      Some([FirstByte(c0, c1), SecondByte(c1, c2), ThirdByte(c2, c3)] + rest)
    else
      DecodeFinalUnit(s)
  }

  lemma TripleRoundTrip(b0: Byte, b1: Byte, b2: Byte)
    ensures var c0, c1, c2, c3 := b0 / 4, (b0 % 4) * 16 + b1 / 16, (b1 % 16) * 4 + b2 / 64, b2 % 64;
      FirstByte(c0, c1) == b0 && SecondByte(c1, c2) == b1 && ThirdByte(c2, c3) == b2
  {
  }

  lemma SplitAfterThree<T>(xs: seq<T>)
    requires |xs| >= 3
    ensures xs == [xs[0], xs[1], xs[2]] + xs[3..]
  {
  }

  lemma ConcatAssociative<T>(a: seq<T>, b: seq<T>, c: seq<T>)
    ensures (a + b) + c == a + (b + c)
  {
  }

  /** Decoder side: a full unit of alphabet characters gives three bytes, then the rest is decoded. */
  lemma DecodeFullUnit(unit: string, rest: string, tail: seq<Byte>)
    requires |unit| == 4 && AllUrlSafe(unit)
    requires Decode(rest) == Some(tail)
    ensures Decode(unit + rest) == Some([
      FirstByte(ValueOf(unit[0]), ValueOf(unit[1])),
      SecondByte(ValueOf(unit[1]), ValueOf(unit[2])),
      ThirdByte(ValueOf(unit[2]), ValueOf(unit[3]))] + tail)
  {
    assert (unit + rest)[4..] == rest;
  }

  /** Decoder side: three final alphabet characters, alone or followed by "=", give two bytes. */
  lemma DecodeThreeCharacters(s: string)
    requires |s| == 3 || (|s| == 4 && s[3] == '=')
    requires IsUrlSafeChar(s[0]) && IsUrlSafeChar(s[1]) && IsUrlSafeChar(s[2])
    ensures Decode(s) == Some([FirstByte(ValueOf(s[0]), ValueOf(s[1])), SecondByte(ValueOf(s[1]), ValueOf(s[2]))])
  {
    assert LeadingUrlSafe(s) == 3;
  }

  /** Decoder side: two final alphabet characters, alone or followed by "==", give one byte. */
  lemma DecodeTwoCharacters(s: string)
    requires |s| == 2 || (|s| == 4 && s[2] == '=' && s[3] == '=')
    requires IsUrlSafeChar(s[0]) && IsUrlSafeChar(s[1])
    ensures Decode(s) == Some([FirstByte(ValueOf(s[0]), ValueOf(s[1]))])
  {
    assert LeadingUrlSafe(s) == 2;
  }

  /** Encoder side: the sextets of a full unit carry the three bytes back. */
  lemma EncodeTripleValues(b0: Byte, b1: Byte, b2: Byte)
    ensures var u := EncodeTriple(b0, b1, b2);
      && FirstByte(ValueOf(u[0]), ValueOf(u[1])) == b0
      && SecondByte(ValueOf(u[1]), ValueOf(u[2])) == b1
      && ThirdByte(ValueOf(u[2]), ValueOf(u[3])) == b2
  {
    ValueOfCharOf(b0 / 4);
    ValueOfCharOf((b0 % 4) * 16 + b1 / 16);
    ValueOfCharOf((b1 % 16) * 4 + b2 / 64);
    ValueOfCharOf(b2 % 64);
    TripleRoundTrip(b0, b1, b2);
  }

  /** Encoder side: the sextets of a final pair carry the two bytes back. */
  lemma EncodePairValues(b0: Byte, b1: Byte)
    ensures var u := EncodePair(b0, b1);
      FirstByte(ValueOf(u[0]), ValueOf(u[1])) == b0 && SecondByte(ValueOf(u[1]), ValueOf(u[2])) == b1
  {
    ValueOfCharOf(b0 / 4);
    ValueOfCharOf((b0 % 4) * 16 + b1 / 16);
    ValueOfCharOf((b1 % 16) * 4);
    TripleRoundTrip(b0, b1, 0);
  }

  /** Encoder side: the sextets of a final single byte carry it back. */
  lemma EncodeSingleValues(b0: Byte)
    ensures var u := EncodeSingle(b0); FirstByte(ValueOf(u[0]), ValueOf(u[1])) == b0
  {
    ValueOfCharOf(b0 / 4);
    ValueOfCharOf((b0 % 4) * 16);
    TripleRoundTrip(b0, 0, 0);
  }

  /** Decoding inverts encoding on every byte sequence. */
  lemma {:induction false} DecodeEncode(bytes: seq<Byte>)
    ensures Decode(Encode(bytes)) == Some(bytes)
    decreases |bytes|
  {
    if |bytes| >= 3 {
      SplitAfterThree(bytes);
      DecodeEncode(bytes[3..]);
      EncodeTripleValues(bytes[0], bytes[1], bytes[2]);
      DecodeFullUnit(EncodeTriple(bytes[0], bytes[1], bytes[2]), Encode(bytes[3..]), bytes[3..]);
    } else if |bytes| == 2 {
      EncodePairValues(bytes[0], bytes[1]);
      DecodeThreeCharacters(EncodePair(bytes[0], bytes[1]));
      assert [bytes[0], bytes[1]] == bytes;
    } else if |bytes| == 1 {
      EncodeSingleValues(bytes[0]);
      DecodeTwoCharacters(EncodeSingle(bytes[0]));
      assert [bytes[0]] == bytes;
    }
  }

  /** The '=' characters that would complete the last unit of `s` to four characters. */
  function Padding(s: string): (p: string)
    ensures (|s| + |p|) % 4 == 0 && |p| < 4
  {
    var r := |s| % 4;
    if r == 0 then "" else if r == 1 then "===" else if r == 2 then "==" else "="
  }

  /** A full unit in front leaves the padding unchanged. */
  lemma PaddingAfterUnit(unit: string, rest: string)
    requires |unit| == 4
    ensures Padding(unit + rest) == Padding(rest)
  {
    assert |unit + rest| % 4 == |rest| % 4;
  }

  /** The decoder also accepts the encoding with its padding written out, and gives the same bytes. */
  lemma {:induction false} DecodePaddedEncode(bytes: seq<Byte>)
    ensures Decode(Encode(bytes) + Padding(Encode(bytes))) == Some(bytes)
    decreases |bytes|
  {
    if |bytes| >= 3 {
      SplitAfterThree(bytes);
      var unit, tail := EncodeTriple(bytes[0], bytes[1], bytes[2]), Encode(bytes[3..]);
      DecodePaddedEncode(bytes[3..]);
      assert Encode(bytes) == unit + tail;
      PaddingAfterUnit(unit, tail);
      ConcatAssociative(unit, tail, Padding(tail));
      EncodeTripleValues(bytes[0], bytes[1], bytes[2]);
      DecodeFullUnit(unit, tail + Padding(tail), bytes[3..]);
    } else if |bytes| == 2 {
      EncodePairValues(bytes[0], bytes[1]);
      DecodeThreeCharacters(EncodePair(bytes[0], bytes[1]) + "=");
      assert [bytes[0], bytes[1]] == bytes;
    } else if |bytes| == 1 {
      EncodeSingleValues(bytes[0]);
      DecodeTwoCharacters(EncodeSingle(bytes[0]) + "==");
      assert [bytes[0]] == bytes;
    }
  }

  /**
   * The test vectors of section 10 of RFC 4648 ("f", "fo", "foo", "foob",
   * "fooba", "foobar" as ASCII bytes), written without padding, and the two
   * characters that differ from the standard alphabet: 0xFB 0xFF is "-_8".
   */
  lemma Rfc4648Vectors()
    ensures Encode([]) == ""
    ensures Encode([102]) == "Zg"
    ensures Encode([102, 111]) == "Zm8"
    ensures Encode([102, 111, 111]) == "Zm9v"
    ensures Encode([102, 111, 111, 98]) == "Zm9vYg"
    ensures Encode([102, 111, 111, 98, 97]) == "Zm9vYmE"
    ensures Encode([102, 111, 111, 98, 97, 114]) == "Zm9vYmFy"
    ensures Encode([0xFB, 0xFF]) == "-_8"
  {
    assert [102, 111, 111, 98][3..] == [98];
    assert [102, 111, 111, 98, 97][3..] == [98, 97];
    assert [102, 111, 111, 98, 97, 114][3..] == [98, 97, 114];
  }

  /** The padded vectors of section 10 of RFC 4648 decode to their bytes. */
  lemma Rfc4648PaddedVectorsDecode()
    ensures Decode("Zg==") == Some([102])
    ensures Decode("Zm8=") == Some([102, 111])
    ensures Decode("Zm9vYg==") == Some([102, 111, 111, 98])
    ensures Decode("Zm9vYmE=") == Some([102, 111, 111, 98, 97])
  {
    DecodeTwoCharacters("Zg==");
    DecodeThreeCharacters("Zm8=");
    DecodeTwoCharacters("Yg==");
    DecodeThreeCharacters("YmE=");
    assert AllUrlSafe("Zm9v");
    DecodeFullUnit("Zm9v", "Yg==", [98]);
    DecodeFullUnit("Zm9v", "YmE=", [98, 97]);
    assert FirstByte(ValueOf('Z'), ValueOf('m')) == 102;
    assert SecondByte(ValueOf('m'), ValueOf('9')) == 111;
    assert ThirdByte(ValueOf('9'), ValueOf('v')) == 111;
    assert [102, 111, 111] + [98] == [102, 111, 111, 98];
    assert [102, 111, 111] + [98, 97] == [102, 111, 111, 98, 97];
    assert "Zm9v" + "Yg==" == "Zm9vYg==";
    assert "Zm9v" + "YmE=" == "Zm9vYmE=";
  }

  /** Any character outside the alphabet, other than '=', makes the whole input undecodable. */
  lemma {:induction false} IllegalCharacterRejected(s: string, i: nat)
    requires i < |s| && !IsUrlSafeChar(s[i]) && s[i] != '='
    ensures Decode(s) == None
    decreases |s|
  {
    if |s| >= 4 && UnitIsUrlSafe(s) {
      IllegalCharacterRejected(s[4..], i - 4);
    }
  }

  /** A final unit of a single character carries too few bits for a byte, padded or not. */
  lemma {:induction false} DanglingCharacterRejected(s: string)
    requires |s| % 4 == 1
    ensures Decode(s) == None
    decreases |s|
  {
    if |s| >= 4 && UnitIsUrlSafe(s) {
      DanglingCharacterRejected(s[4..]);
    }
  }

  /** Only an empty input decodes to no bytes at all. */
  lemma {:induction false} DecodeEmptyOnlyFromEmpty(s: string)
    requires Decode(s) == Some([])
    ensures s == ""
  {
  }
}
