/** Signed 64-bit integers as text, as strconv.ParseInt reads them with an
    explicit base: an optional sign, then at least one digit. */
module Integers {
  import opened Results
  import opened RangePlan

  function Digit(c: char, base: nat): Option<nat> {
    if '0' <= c <= '9' && c as int - '0' as int < base then Some(c as int - '0' as int)
    else if 'a' <= c <= 'z' && c as int - 'a' as int + 10 < base then Some(c as int - 'a' as int + 10)
    else if 'A' <= c <= 'Z' && c as int - 'A' as int + 10 < base then Some(c as int - 'A' as int + 10)
    else None
  }

  predicate AllDigits(text: string, base: nat) {
    forall i :: 0 <= i < |text| ==> Digit(text[i], base).Some?
  }

  function Value(text: string, base: nat): nat
    requires AllDigits(text, base)
  {
    if text == [] then 0
    else base * Value(text[..|text| - 1], base) + Digit(text[|text| - 1], base).value
  }

  predicate Signed(text: string) {
    text != [] && (text[0] == '+' || text[0] == '-')
  }

  function ParseInt(text: string, base: nat): Option<int> {
    var digits := if Signed(text) then text[1..] else text;
    if digits == [] || !AllDigits(digits, base) then None
    else
      var magnitude: int := Value(digits, base);
      var v := if Signed(text) && text[0] == '-' then -magnitude else magnitude;
      if IsInt64(v) then Some(v) else None
  }

  // --------------------------------------------------------------- round trips

  const LOWER := "0123456789abcdef"
  const UPPER := "0123456789ABCDEF"

  /** In a base up to 16 a digit is one of these two characters. */
  lemma DigitExactly(c: char, base: nat, d: nat)
    requires base <= 16
    ensures Digit(c, base) == Some(d) <==> d < base && (c == LOWER[d] || c == UPPER[d])
  {
  }

  /** Sixteen characters that stand for the digits, each in either case. */
  ghost predicate HexDigits(digits: string) {
    |digits| == 16 && forall d :: 0 <= d < 16 ==> digits[d] == LOWER[d] || digits[d] == UPPER[d]
  }

  function Hex(n: nat, digits: string): string
    requires |digits| == 16
  {
    if n < 16 then [digits[n]] else Hex(n / 16, digits) + [digits[n % 16]]
  }

  /** Every number reads back from its hexadecimal numeral, in either case. */
  lemma {:induction false} HexRoundTrip(n: nat, digits: string)
    requires HexDigits(digits)
    ensures
      var text := Hex(n, digits);
      text != [] && AllDigits(text, 16) && Value(text, 16) == n
    ensures forall i :: 0 <= i < |Hex(n, digits)| ==> Hex(n, digits)[i] in digits
    decreases n
  {
    var text := Hex(n, digits);
    DigitExactly(digits[n % 16], 16, n % 16);
    if n >= 16 {
      HexRoundTrip(n / 16, digits);
      assert text[..|text| - 1] == Hex(n / 16, digits);
    } else {
      assert text[..0] == [];
    }
  }

  function Decimal(n: nat): string {
    if n < 10 then [LOWER[n]] else Decimal(n / 10) + [LOWER[n % 10]]
  }

  lemma {:induction false} DecimalRoundTrip(n: nat)
    ensures
      var text := Decimal(n);
      text != [] && AllDigits(text, 10) && Value(text, 10) == n
    decreases n
  {
    var text := Decimal(n);
    DigitExactly(LOWER[n % 10], 10, n % 10);
    if n >= 10 {
      DecimalRoundTrip(n / 10);
      assert text[..|text| - 1] == Decimal(n / 10);
    } else {
      assert text[..0] == [];
    }
  }

  lemma {:induction false} LeadingZero(text: string, base: nat)
    requires base > 0 && AllDigits(text, base)
    ensures AllDigits(['0'] + text, base) && Value(['0'] + text, base) == Value(text, base)
    decreases |text|
  {
    var padded := ['0'] + text;
    if text == [] {
      assert padded[..0] == [];
    } else {
      var shorter := text[..|text| - 1];
      assert padded[..|padded| - 1] == ['0'] + shorter;
      LeadingZero(shorter, base);
    }
  }

  /** Digits without a sign are read as they are, if the number fits. */
  lemma PlainParses(text: string, base: nat, n: nat)
    requires text != [] && AllDigits(text, base) && Value(text, base) == n
    ensures ParseInt(text, base) == if n <= MAX_INT64 then Some(n) else None
  {
    assert Digit(text[0], base).Some?;
  }

  lemma SignParses(sign: char, text: string, base: nat, n: nat)
    requires sign == '+' || sign == '-'
    requires text != [] && AllDigits(text, base) && Value(text, base) == n
    ensures
      var v := if sign == '-' then 0 - n else n;
      ParseInt([sign] + text, base) == if IsInt64(v) then Some(v) else None
  {
    var signed := [sign] + text;
    assert signed[0] == sign && signed[1..] == text;
  }

  /** Leading zeros do not matter. */
  lemma ZeroParses(text: string, base: nat)
    requires base > 0 && text != [] && AllDigits(text, base)
    ensures ParseInt(['0'] + text, base) == ParseInt(text, base)
  {
    LeadingZero(text, base);
    PlainParses(text, base, Value(text, base));
    PlainParses(['0'] + text, base, Value(text, base));
  }
}
