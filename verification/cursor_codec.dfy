/**
 * The opaque pagination cursor of the payment-history query
 * (`QueryPaymentsService.encodeCursor` / `decodeCursor`): the key
 * `(createdAt, id)` of the last row of a page, written as the text
 * "<epoch milliseconds>:<id>" and wrapped in unpadded base64url.
 *
 * Instants are epoch milliseconds (`Instant.toEpochMilli` and
 * `Instant.ofEpochMilli` are the identity here). Bytes and characters are
 * related one to one (`toByteArray` / `String(bytes)`); on the ASCII text the
 * encoder writes, that is exactly what UTF-8 does.
 */
module CursorCodec {
  import opened Wrappers
  import opened JavaNumbers
  import Base64Url

  /** The `Pair<Instant?, Long?>` that decodeCursor returns. */
  datatype CursorKey = CursorKey(createdAt: Option<Long>, id: Option<Long>)

  /** `null to null`: no cursor, the page starts from the most recent row. */
  const NoCursor: CursorKey := CursorKey(None, None)

  /** Kotlin's `Char.isWhitespace()` on the JVM: `Character.isWhitespace` or `Character.isSpaceChar`. */
  predicate IsWhitespace(c: char) {
    var u := c as int;
    || 0x09 <= u <= 0x0D        // tab, line feed, vertical tab, form feed, carriage return
    || 0x1C <= u <= 0x20        // file, group, record and unit separators; space
    || u == 0xA0 || u == 0x1680 // no-break space, ogham space mark
    || 0x2000 <= u <= 0x200A    // en quad .. hair space
    || u == 0x2028 || u == 0x2029 || u == 0x202F || u == 0x205F || u == 0x3000
  }

  /**
   * `isBlank()`: empty, or whitespace only. Blank text holds no character of
   * the base64url alphabet, no '=' and no ':'.
   */
  function IsBlank(s: string): (blank: bool)
    ensures |s| == 0 ==> blank
    ensures blank ==> forall i :: 0 <= i < |s| ==>
      !Base64Url.IsUrlSafeChar(s[i]) && s[i] != '=' && s[i] != ':'
  {
    forall i :: 0 <= i < |s| ==> IsWhitespace(s[i])
  }

  predicate IsAscii(s: string) {
    forall i :: 0 <= i < |s| ==> s[i] as int < 0x80
  }

  /** `toByteArray()` of an ASCII string: one byte per character, which `String(bytes)` reads back. */
  function AsciiBytes(s: string): (bytes: seq<Base64Url.Byte>)
    requires IsAscii(s)
    ensures |bytes| == |s|
    ensures BytesToText(bytes) == s
  {
    seq(|s|, i requires 0 <= i < |s| => s[i] as int)
  }

  /** `String(bytes)`: one character per byte, so it never loses or merges a byte. */
  function BytesToText(bytes: seq<Base64Url.Byte>): (s: string)
    ensures |s| == |bytes|
    ensures forall i :: 0 <= i < |bytes| ==> s[i] as int == bytes[i]
  {
    seq(|bytes|, i requires 0 <= i < |bytes| => bytes[i] as char)
  }

  /** Bytes read one by one: the text of a concatenation is the concatenation of the texts. */
  lemma BytesToTextOfConcat(a: seq<Base64Url.Byte>, b: seq<Base64Url.Byte>)
    ensures BytesToText(a + b) == BytesToText(a) + BytesToText(b)
  {
    assert forall i :: 0 <= i < |a + b| ==> BytesToText(a + b)[i] == (BytesToText(a) + BytesToText(b))[i];
  }

  /**
   * Kotlin's `split(sep)` with one delimiter and no limit: every occurrence of
   * `sep` cuts, and empty fields (leading, inner and trailing) are kept.
   */
  function Split(s: string, sep: char): (parts: seq<string>)
    ensures |parts| >= 1
    ensures sep !in s ==> parts == [s]
    decreases |s|
  {
    if |s| == 0 then [""]
    else
      var rest := Split(s[1..], sep);
      assert [s[0]] + s[1..] == s;
      if s[0] == sep then [""] + rest
      else [[s[0]] + rest[0]] + rest[1..]
  }

  /** A field without the separator, then the separator: the field comes off whole. */
  lemma {:induction false} SplitAfterField(field: string, sep: char, rest: string)
    requires sep !in field
    ensures Split(field + [sep] + rest, sep) == [field] + Split(rest, sep)
    decreases |field|
  {
    var s := field + [sep] + rest;
    if |field| == 0 {
      assert s[1..] == rest;
    } else {
      assert s[1..] == field[1..] + [sep] + rest;
      SplitAfterField(field[1..], sep, rest);
      assert [field[0]] + field[1..] == field;
    }
  }

  /** Fewer than two fields: the text holds no separator. */
  lemma {:induction false} SplitSingleFieldOnlyWithoutSeparator(s: string, sep: char)
    ensures |Split(s, sep)| == 1 <==> sep !in s
    decreases |s|
  {
    if |s| > 0 {
      SplitSingleFieldOnlyWithoutSeparator(s[1..], sep);
      assert sep in s <==> s[0] == sep || sep in s[1..];
    }
  }

  lemma LongTextHasNoColon(n: Long)
    ensures ':' !in LongToString(n)
  {
    LongTextIsDigitsAndSign(n);
  }

  /**
   * The raw cursor text "<epochMillis>:<id>": ASCII, and split at ':' it gives
   * back exactly the two decimal texts.
   */
  function RawCursor(createdAtMillis: Long, id: Long): (raw: string)
    ensures IsAscii(raw)
    ensures Split(raw, ':') == [LongToString(createdAtMillis), LongToString(id)]
  {
    var t, i := LongToString(createdAtMillis), LongToString(id);
    LongTextIsDigitsAndSign(createdAtMillis);
    LongTextIsDigitsAndSign(id);
    LongTextHasNoColon(createdAtMillis);
    LongTextHasNoColon(id);
    SplitAfterField(t, ':', i);
    assert t + ":" + i == t + [':'] + i;
    t + ":" + i
  }

  /**
   * `Base64.getUrlEncoder().withoutPadding().encodeToString(raw.toByteArray())`:
   * URL-safe, unpadded, empty only for empty text, and the URL decoder gives
   * back the bytes of `raw`.
   */
  function EncodeText(raw: string): (token: string)
    requires IsAscii(raw)
    ensures Base64Url.AllUrlSafe(token) && '=' !in token
    ensures |token| == 0 <==> |raw| == 0
    ensures Base64Url.Decode(token) == Some(AsciiBytes(raw))
  {
    Base64Url.DecodeEncode(AsciiBytes(raw));
    var token := Base64Url.Encode(AsciiBytes(raw));
    assert '=' in token ==> !Base64Url.IsUrlSafeChar('=');
    token
  }

  /**
   * encodeCursor: no token unless both the instant and the id are present;
   * a token is URL-safe and carries no '=' padding.
   */
  function EncodeCursor(createdAt: Option<Long>, id: Option<Long>): (token: Option<string>)
    ensures token.None? <==> createdAt.None? || id.None?
    ensures token.Some? ==> Base64Url.AllUrlSafe(token.value) && '=' !in token.value
    ensures token.Some? ==> |token.value| > 0
  {
    if createdAt.None? || id.None? then None
    else
      var raw := RawCursor(createdAt.value, id.value);
      Some(EncodeText(raw))
  }

  /**
   * decodeCursor: total, and never half a cursor. A null or blank cursor,
   * text that is not base64url, decoded text with fewer than two ':'-separated
   * fields, and a first or second field that `toLong` refuses all give
   * `NoCursor` (the source catches every exception of the `try` block).
   */
  function DecodeCursor(cursor: Option<string>): (key: CursorKey)
    ensures key.createdAt.Some? <==> key.id.Some?
  {
    if cursor.None? || IsBlank(cursor.value) then NoCursor
    else
      match Base64Url.Decode(cursor.value)
      case None => NoCursor
      case Some(bytes) =>
        var parts := Split(BytesToText(bytes), ':');
        if |parts| < 2 then NoCursor
        else
          match (ParseLong(parts[0]), ParseLong(parts[1]))
          case (Some(ts), Some(id)) => CursorKey(Some(ts), Some(id))
          case _ => NoCursor
  }

  /**
   * How the token of any bytes decodes: the text of the bytes is split at ':',
   * and the first two fields, each through `toLong`, are the cursor; any later
   * field is ignored, and fewer than two fields or a refused one give no cursor.
   */
  lemma DecodeEncodedBytes(bytes: seq<Base64Url.Byte>)
    ensures var parts := Split(BytesToText(bytes), ':');
      DecodeCursor(Some(Base64Url.Encode(bytes))) ==
        if |parts| >= 2 && ParseLong(parts[0]).Some? && ParseLong(parts[1]).Some? then
          CursorKey(ParseLong(parts[0]), ParseLong(parts[1]))
        else NoCursor
  {
    var token := Base64Url.Encode(bytes);
    Base64Url.DecodeEncode(bytes);
    if |bytes| == 0 {
      assert Split(BytesToText(bytes), ':') == [""];
    } else {
      assert !IsWhitespace(token[0]);
    }
  }

  lemma RegroupFields<T>(a: seq<T>, sep: T, b: seq<T>, c: seq<T>)
    ensures a + [sep] + b + [sep] + c == a + [sep] + (b + [sep] + c)
  {
  }

  /** The first two fields of "<t>:<id>:<rest>" are the two decimal texts. */
  lemma SplitRawCursorPrefix(createdAtMillis: Long, id: Long, rest: string)
    ensures Split(RawCursor(createdAtMillis, id) + ":" + rest, ':') ==
      [LongToString(createdAtMillis), LongToString(id)] + Split(rest, ':')
  {
    var t, i := LongToString(createdAtMillis), LongToString(id);
    var tail := i + [':'] + rest;
    assert RawCursor(createdAtMillis, id) + ":" + rest == t + [':'] + tail by {
      assert RawCursor(createdAtMillis, id) == t + [':'] + i;
      RegroupFields(t, ':', i, rest);
    }
    assert Split(t + [':'] + tail, ':') == [t] + Split(tail, ':') by {
      LongTextHasNoColon(createdAtMillis);
      SplitAfterField(t, ':', tail);
    }
    assert Split(tail, ':') == [i] + Split(rest, ':') by {
      LongTextHasNoColon(id);
      SplitAfterField(i, ':', rest);
    }
  }

  /** Round trip: every pair of `Long`s, negative ones included, comes back from its token. */
  lemma CursorRoundTrip(createdAtMillis: Long, id: Long)
    ensures DecodeCursor(EncodeCursor(Some(createdAtMillis), Some(id))) == CursorKey(Some(createdAtMillis), Some(id))
  {
    var raw := RawCursor(createdAtMillis, id);
    LongTextRoundTrip(createdAtMillis);
    LongTextRoundTrip(id);
    DecodeEncodedBytes(AsciiBytes(raw));
  }

  /**
   * Fields after the second are ignored whatever bytes they hold:
   * "<t>:<id>:" followed by any bytes decodes to `(t, id)`.
   */
  lemma ExtraFieldsIgnored(createdAtMillis: Long, id: Long, extra: seq<Base64Url.Byte>)
    ensures IsAscii(RawCursor(createdAtMillis, id) + ":")
    ensures DecodeCursor(Some(Base64Url.Encode(AsciiBytes(RawCursor(createdAtMillis, id) + ":") + extra))) ==
      CursorKey(Some(createdAtMillis), Some(id))
  {
    var prefix := RawCursor(createdAtMillis, id) + ":";
    assert IsAscii(prefix);
    var bytes := AsciiBytes(prefix) + extra;
    BytesToTextOfConcat(AsciiBytes(prefix), extra);
    SplitRawCursorPrefix(createdAtMillis, id, BytesToText(extra));
    assert Split(BytesToText(bytes), ':')[..2] == [LongToString(createdAtMillis), LongToString(id)];
    LongTextRoundTrip(createdAtMillis);
    LongTextRoundTrip(id);
    DecodeEncodedBytes(bytes);
  }

  /** The text "1:2:3" decodes to the cursor (1, 2). */
  lemma ThreeFieldExample()
    ensures DecodeCursor(Some(EncodeText("1:2:3"))) == CursorKey(Some(1), Some(2))
  {
    assert RawCursor(1, 2) + ":" == "1:2:";
    assert AsciiBytes("1:2:3") == AsciiBytes("1:2:") + AsciiBytes("3");
    ExtraFieldsIgnored(1, 2, AsciiBytes("3"));
  }

  /** A null, empty or whitespace-only cursor means no cursor. */
  lemma BlankCursorIsNoCursor(cursor: Option<string>)
    requires cursor.None? || IsBlank(cursor.value)
    ensures DecodeCursor(cursor) == NoCursor
  {
  }

  /** The blank check only short-cuts: a blank, non-empty token would fail base64 decoding anyway. */
  lemma BlankTextIsNotBase64(s: string)
    requires |s| > 0 && IsBlank(s)
    ensures Base64Url.Decode(s) == None
  {
    Base64Url.IllegalCharacterRejected(s, 0);
  }

  /** A token with a character outside the base64url alphabet (other than '=') means no cursor. */
  lemma IllegalCharacterIsNoCursor(token: string, i: nat)
    requires i < |token| && !Base64Url.IsUrlSafeChar(token[i]) && token[i] != '='
    ensures DecodeCursor(Some(token)) == NoCursor
  {
    Base64Url.IllegalCharacterRejected(token, i);
  }

  /** A token whose last unit is a single character means no cursor. */
  lemma DanglingCharacterIsNoCursor(token: string)
    requires |token| % 4 == 1
    ensures DecodeCursor(Some(token)) == NoCursor
  {
    Base64Url.DanglingCharacterRejected(token);
  }

  /** Decoded text without a ':' has a single field: no cursor. */
  lemma SingleFieldIsNoCursor(token: string, bytes: seq<Base64Url.Byte>)
    requires Base64Url.Decode(token) == Some(bytes)
    requires ':' !in BytesToText(bytes)
    ensures DecodeCursor(Some(token)) == NoCursor
  {
  }

  /** A first or second field that is not an optionally signed run of decimal digits: no cursor. */
  lemma NonNumericFieldIsNoCursor(token: string, bytes: seq<Base64Url.Byte>)
    requires Base64Url.Decode(token) == Some(bytes)
    requires var parts := Split(BytesToText(bytes), ':');
      |parts| >= 2 && (!IsLongText(parts[0]) || !IsLongText(parts[1]))
    ensures DecodeCursor(Some(token)) == NoCursor
  {
  }

  /** A client that pads its token with '=' gets the same cursor back: the JDK decoder accepts padding. */
  lemma PaddedTokenDecodesAlike(createdAtMillis: Long, id: Long)
    ensures var token := EncodeCursor(Some(createdAtMillis), Some(id)).value;
      DecodeCursor(Some(token + Base64Url.Padding(token))) == CursorKey(Some(createdAtMillis), Some(id))
  {
    var token := EncodeCursor(Some(createdAtMillis), Some(id)).value;
    var raw := RawCursor(createdAtMillis, id);
    Base64Url.DecodePaddedEncode(AsciiBytes(raw));
    Base64Url.DecodeEncode(AsciiBytes(raw));
    CursorRoundTrip(createdAtMillis, id);
    assert !IsWhitespace((token + Base64Url.Padding(token))[0]);
  }
}
