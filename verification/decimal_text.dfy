/** Integers written in decimal digits. */
module DecimalText {

  predicate IsDigit(c: char) {
    '0' <= c <= '9'
  }

  function Digit(d: int): (c: char)
    requires 0 <= d <= 9
    ensures IsDigit(c) && DigitValue(c) == d
  {
    '0' + d as char
  }

  function DigitValue(c: char): int {
    c as int - '0' as int
  }

  function Decimal(n: nat): (s: string)
    ensures s != [] && forall c :: c in s ==> IsDigit(c)
  {
    if n < 10 then [Digit(n)] else Decimal(n / 10) + [Digit(n % 10)]
  }

  /** The number a string of digits stands for. */
  function Value(s: string): int {
    if s == [] then 0 else 10 * Value(s[..|s| - 1]) + DigitValue(s[|s| - 1])
  }

  lemma {:induction false} DecimalValue(n: nat)
    ensures Value(Decimal(n)) == n
  {
    var s := Decimal(n);
    if n < 10 {
      assert s[..0] == [];
    } else {
      DecimalValue(n / 10);
      assert s[..|s| - 1] == Decimal(n / 10);
    }
  }

  function IntText(n: int): string {
    if n < 0 then "-" + Decimal(-n) else Decimal(n)
  }

  lemma IntTextInjective(a: int, b: int)
    requires IntText(a) == IntText(b)
    ensures a == b
  {
    DecimalValue(if a < 0 then -a else a);
    DecimalValue(if b < 0 then -b else b);
    assert a < 0 ==> IntText(a)[1..] == Decimal(-a) && IntText(a)[0] == '-';
    assert b < 0 ==> IntText(b)[1..] == Decimal(-b) && IntText(b)[0] == '-';
    assert a >= 0 ==> IntText(a)[0] in Decimal(a);
    assert b >= 0 ==> IntText(b)[0] in Decimal(b);
  }

  /** A number below 100 padded to two digits. */
  function TwoDigits(n: int): (s: string)
    requires 0 <= n <= 99
    ensures |s| == 2
  {
    [Digit(n / 10), Digit(n % 10)]
  }

  lemma TwoDigitsInjective(a: int, b: int)
    requires 0 <= a <= 99 && 0 <= b <= 99 && TwoDigits(a) == TwoDigits(b)
    ensures a == b
  {
    assert TwoDigits(a)[0] == TwoDigits(b)[0] && TwoDigits(a)[1] == TwoDigits(b)[1];
    assert DigitValue(TwoDigits(a)[0]) == a / 10 && DigitValue(TwoDigits(a)[1]) == a % 10;
    assert DigitValue(TwoDigits(b)[0]) == b / 10 && DigitValue(TwoDigits(b)[1]) == b % 10;
  }

  /** A number, a mark and two more digits: the text determines both numbers. */
  lemma LabelInjective(a: int, mark: string, b: int, c: int, d: int)
    requires 0 <= b <= 99 && 0 <= d <= 99
    requires IntText(a) + mark + TwoDigits(b) == IntText(c) + mark + TwoDigits(d)
    ensures a == c && b == d
  {
    var s, t := IntText(a) + mark + TwoDigits(b), IntText(c) + mark + TwoDigits(d);
    assert s[|s| - 2..] == TwoDigits(b) && t[|t| - 2..] == TwoDigits(d);
    TwoDigitsInjective(b, d);
    assert s[..|s| - 2 - |mark|] == IntText(a) && t[..|t| - 2 - |mark|] == IntText(c);
    IntTextInjective(a, c);
  }
}
