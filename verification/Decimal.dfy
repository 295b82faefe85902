/** Decimal text of int64 values: fmt's %v for integers and strconv.ParseInt(s, 10, 64). */
module Decimal {
  import opened Wrappers
  import opened Int64

  datatype ParseError = Syntax | Range

  predicate IsDigit(c: char) { '0' <= c <= '9' }

  function Digit(n: nat): char
    requires n < 10
  {
    '0' + n as char
  }

  function DigitValue(c: char): nat
    requires IsDigit(c)
  {
    (c - '0') as nat
  }

  predicate AllDigits(s: string) {
    forall i | 0 <= i < |s| :: IsDigit(s[i])
  }

  function Digits(n: nat): string {
    if n < 10 then [Digit(n)] else Digits(n / 10) + [Digit(n % 10)]
  }

  function Value(s: string): nat
    requires AllDigits(s)
  {
    if s == "" then 0 else Value(s[..|s| - 1]) * 10 + DigitValue(s[|s| - 1])
  }

  function Print(n: int): string {
    if n < 0 then "-" + Digits(-n) else Digits(n)
  }

  function ParseInt(s: string): Result<int, ParseError> {
    if s == "" then Err(Syntax)
    else
      var digits := if s[0] == '+' || s[0] == '-' then s[1..] else s;
      if digits == "" || !AllDigits(digits) then Err(Syntax)
      else
        Checked(if s[0] == '-' then 0 - Value(digits) else Value(digits))
  }

  function Checked(n: int): Result<int, ParseError> {
    if InRange(n) then Ok(n) else Err(Range)
  }

  lemma ParseDigits(s: string)
    requires s != "" && AllDigits(s)
    ensures ParseInt(s) == Checked(Value(s))
  {
    assert IsDigit(s[0]);
  }

  lemma ParseNegative(s: string)
    requires s != "" && AllDigits(s)
    ensures ParseInt("-" + s) == Checked(0 - Value(s))
  {
    assert ("-" + s)[1..] == s;
  }

  lemma ParsePositive(s: string)
    requires s != "" && AllDigits(s)
    ensures ParseInt("+" + s) == Checked(Value(s))
  {
    assert ("+" + s)[1..] == s;
  }

  lemma {:induction false} ValueOfDigits(n: nat)
    ensures Digits(n) != "" && AllDigits(Digits(n)) && Value(Digits(n)) == n
  {
    if n < 10 {
    } else {
      ValueOfDigits(n / 10);
      assert Digits(n)[..|Digits(n)| - 1] == Digits(n / 10);
    }
  }

  /** Printing then parsing gives the integer back, or a range error outside int64. */
  lemma ParsePrint(n: int)
    ensures ParseInt(Print(n)) == (if InRange(n) then Ok(n) else Err(Range)) && Print(n) != ""
  {
    if n < 0 {
      ValueOfDigits(-n);
      ParseNegative(Digits(-n));
    } else {
      ValueOfDigits(n);
      ParseDigits(Digits(n));
    }
  }

  predicate InDigits(c: char) { c in "0123456789" }

  /** One or more of the ten digits. */
  predicate Numeral(s: string) {
    s != "" && forall i | 0 <= i < |s| :: InDigits(s[i])
  }

  function InInt64(n: int): Result<int, ParseError> {
    if -9223372036854775808 <= n <= 9223372036854775807 then Ok(n) else Err(Range)
  }

  /** A numeral is read as its value, if that fits ... */
  lemma ParsesNumerals(s: string)
    requires Numeral(s)
    ensures AllDigits(s) && ParseInt(s) == InInt64(Value(s))
  {
    NumeralIff(s);
    ParseDigits(s);
  }

  /** ... and so it is with a sign. */
  lemma ParsesPositive(s: string)
    requires Numeral(s)
    ensures AllDigits(s) && ParseInt("+" + s) == InInt64(Value(s))
  {
    NumeralIff(s);
    ParsePositive(s);
  }

  lemma ParsesNegative(s: string)
    requires Numeral(s)
    ensures AllDigits(s) && ParseInt("-" + s) == InInt64(0 - Value(s))
  {
    NumeralIff(s);
    ParseNegative(s);
  }

  /** Anything else is a syntax error. */
  lemma RefusesOthers(s: string)
    requires !Numeral(s) && (s == "" || (s[0] != '+' && s[0] != '-') || !Numeral(s[1..]))
    ensures ParseInt(s) == Err(Syntax)
  {
    NumeralIff(s);
    if s != "" {
      NumeralIff(s[1..]);
    }
  }

  lemma NumeralIff(s: string)
    ensures Numeral(s) <==> s != "" && AllDigits(s)
  {
    forall c: char ensures InDigits(c) <==> IsDigit(c) {
      DigitChar(c);
    }
  }

  lemma DigitChar(c: char)
    ensures InDigits(c) <==> IsDigit(c)
  {
    if IsDigit(c) {
      assert "0123456789"[DigitValue(c)] == c;
    }
  }
}
