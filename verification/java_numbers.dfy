/**
 * The JVM number types the core passes around: `Long` (64-bit two's complement,
 * used for identifiers and epoch milliseconds), `BigDecimal` (amounts and fee
 * percentages, only ever copied), and the decimal text conversions the cursor
 * codec relies on: `Long.toString` (string templates) and `String.toLong`
 * (which on the JVM is `java.lang.Long.parseLong`).
 */
module JavaNumbers {
  import opened Wrappers

  const MinLong: int := -0x8000_0000_0000_0000
  const MaxLong: int :=  0x7FFF_FFFF_FFFF_FFFF

  /** A Kotlin `Long`. */
  type Long = x: int | -0x8000_0000_0000_0000 <= x <= 0x7FFF_FFFF_FFFF_FFFF

  /** A `java.math.BigDecimal`: unscaledValue * 10^(-scale). */
  datatype Decimal = Decimal(unscaled: int, scale: int)

  predicate IsDigit(c: char) {
    '0' <= c <= '9'
  }

  predicate AllDigits(s: string) {
    forall i :: 0 <= i < |s| ==> IsDigit(s[i])
  }

  function DigitChar(d: int): (c: char)
    requires 0 <= d < 10
    ensures IsDigit(c)
  {
    ('0' as int + d) as char
  }

  function DigitValue(c: char): (d: nat)
    requires IsDigit(c)
    ensures d < 10 && DigitChar(d) == c
  {
    c as int - '0' as int
  }

  /** Value of a string of ASCII decimal digits, most significant first. */
  function DigitsValue(s: string): nat
    requires AllDigits(s)
  {
    if |s| == 0 then 0 else DigitsValue(s[..|s| - 1]) * 10 + DigitValue(s[|s| - 1])
  }

  /** Decimal digits of a non-negative number, without leading zeros ("0" for zero). */
  function NatToDecimal(n: nat): (s: string)
    ensures |s| > 0 && AllDigits(s)
    ensures |s| > 1 ==> s[0] != '0'
  {
    if n < 10 then [DigitChar(n)] else NatToDecimal(n / 10) + [DigitChar(n % 10)]
  }

  /**
   * `Long.toString`: an optional '-' followed by the digits of the magnitude.
   * The text is one that `parseLong` reads, it is signed exactly when the value
   * is negative, and its digits carry no leading zero.
   */
  function LongToString(n: Long): (s: string)
    ensures IsLongText(s)
    ensures s[0] == '-' <==> n < 0
    ensures s[0] != '+'
    ensures var digits := if n < 0 then s[1..] else s; |digits| > 1 ==> digits[0] != '0'
  {
    if n < 0 then
      var digits := NatToDecimal(-(n as int));
      assert ("-" + digits)[1..] == digits;
      "-" + digits
    else NatToDecimal(n)
  }

  /** The shape `Long.parseLong` accepts before its range check: an optional sign and at least one digit. */
  predicate IsLongText(s: string) {
    if |s| > 0 && (s[0] == '-' || s[0] == '+') then |s| > 1 && AllDigits(s[1..])
    else |s| > 0 && AllDigits(s)
  }

  /** The value an optionally signed run of decimal digits denotes, before any range check. */
  function SignedValue(s: string): int
    requires IsLongText(s)
  {
    if s[0] == '-' then 0 - DigitsValue(s[1..]) as int
    else if s[0] == '+' then DigitsValue(s[1..])
    else DigitsValue(s)
  }

  /**
   * `String.toLong` / `Long.parseLong(s, 10)`: `None` stands for the
   * `NumberFormatException` it throws on an empty string, a lone sign, any
   * character that is not a decimal digit, or a value outside the `Long` range.
   * Every optionally signed run of digits whose value fits a `Long` is read,
   * leading zeros and a '+' included, and gives that value.
   */
  function ParseLong(s: string): (r: Option<Long>)
    ensures r.Some? <==> IsLongText(s) && MinLong <= SignedValue(s) <= MaxLong
    ensures r.Some? ==> r.value == SignedValue(s)
    ensures r.Some? && s[0] != '-' ==> r.value >= 0
    ensures r.Some? && s[0] == '-' ==> r.value <= 0
  {
    if |s| == 0 then None
    else if s[0] == '-' || s[0] == '+' then
      if |s| == 1 || !AllDigits(s[1..]) then None
      else
        var magnitude: int := DigitsValue(s[1..]);
        var v := if s[0] == '-' then -magnitude else magnitude;
        if MinLong <= v <= MaxLong then Some(v) else None
    else if !AllDigits(s) then None
    else
      var v := DigitsValue(s);
      if v <= MaxLong then Some(v) else None
  }

  lemma {:induction false} DigitsValueOfNatToDecimal(n: nat)
    ensures DigitsValue(NatToDecimal(n)) == n
  {
    if n >= 10 {
      var s := NatToDecimal(n);
      var prefix := NatToDecimal(n / 10);
      assert s[..|s| - 1] == prefix;
      DigitsValueOfNatToDecimal(n / 10);
    }
  }

  /** Every `Long` survives `toString` followed by `toLong`, negative values included. */
  lemma LongTextRoundTrip(n: Long)
    ensures ParseLong(LongToString(n)) == Some(n)
  {
    var s := LongToString(n);
    if n < 0 {
      assert s[1..] == NatToDecimal(-(n as int));
      DigitsValueOfNatToDecimal(-(n as int));
    } else {
      DigitsValueOfNatToDecimal(n);
    }
  }

  /** `parseLong` also reads a '+' sign, leading zeros and a negative zero. */
  lemma ParseLongAcceptsNonCanonicalText()
    ensures ParseLong("+5") == Some(5)
    ensures ParseLong("007") == Some(7)
    ensures ParseLong("-0") == Some(0)
    ensures ParseLong("-12") == Some(-12)
  {
    assert "+5"[1..] == "5";
    assert "-0"[1..] == "0";
    assert "-12"[1..] == "12" && "12"[..1] == "1";
    assert "007"[..2] == "00" && "00"[..1] == "0";
  }

  /** `parseLong` refuses an empty string, a lone sign, a blank and a second sign. */
  lemma ParseLongRefusesMalformedText()
    ensures ParseLong("") == None && ParseLong("-") == None && ParseLong("+") == None
    ensures ParseLong(" 1") == None && ParseLong("1 ") == None && ParseLong("+-1") == None
  {
    assert !IsDigit("1 "[1]);
    assert !IsDigit("+-1"[1..][0]);
  }

  /** `parseLong` refuses the value one decimal place past `Long.MAX_VALUE`. */
  lemma ParseLongRefusesOverflow()
    ensures ParseLong(LongToString(MaxLong) + "0") == None
  {
    var max := LongToString(MaxLong);
    var big := max + "0";
    DigitsValueOfNatToDecimal(MaxLong);
    assert big[..|big| - 1] == max;
    assert AllDigits(big);
  }

  /** `Long.toString` writes only digits and a leading minus sign: never a ':' nor a non-ASCII character. */
  lemma LongTextIsDigitsAndSign(n: Long)
    ensures |LongToString(n)| > 0
    ensures forall i :: 0 <= i < |LongToString(n)| ==>
      IsDigit(LongToString(n)[i]) || (i == 0 && n < 0 && LongToString(n)[i] == '-')
  {
  }
}
