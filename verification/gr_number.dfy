/** Amounts read off a receipt page, where either of '.' and ',' may be the decimal sign. */
module GrNumber {
  import opened Options
  import opened DecimalText

  predicate IsSeparator(c: char) {
    c == '.' || c == ','
  }

  // ---- The parser ----

  /** `raw` from its first digit on. */
  function FromFirstDigit(raw: string): string {
    if raw == [] || IsDigit(raw[0]) then raw else FromFirstDigit(raw[1..])
  }

  /** The longest start of `raw` made of digits and separators. */
  function Run(raw: string): string {
    if raw == [] || !(IsDigit(raw[0]) || IsSeparator(raw[0])) then [] else [raw[0]] + Run(raw[1..])
  }

  /** `s` without the separators at its end. */
  function StripRight(s: string): (r: string)
    ensures |r| <= |s|
  {
    if s != [] && IsSeparator(s[|s| - 1]) then StripRight(s[..|s| - 1]) else s
  }

  /** The index of the last separator, or -1. */
  function LastSeparator(s: string): (i: int)
    ensures -1 <= i < |s|
  {
    if s == [] then -1 else if IsSeparator(s[|s| - 1]) then |s| - 1 else LastSeparator(s[..|s| - 1])
  }

  /** `s` without any separator. */
  function WithoutSeparators(s: string): string {
    if s == [] then []
    else WithoutSeparators(s[..|s| - 1]) + (if IsSeparator(s[|s| - 1]) then [] else [s[|s| - 1]])
  }

  /** The last separator is the decimal one when one or two digits follow it; any other is a
      thousands separator. */
  function Read(s: string): real {
    var last := LastSeparator(s);
    var decimals := |s| - last - 1;
    if last != -1 && (decimals == 1 || decimals == 2) then
      Value(WithoutSeparators(s[..last])) as real + Value(s[last + 1..]) as real / (if decimals == 1 then 10.0 else 100.0)
    else Value(WithoutSeparators(s)) as real
  }

  function ParseGrNumber(raw: string): Option<real> {
    var match_ := Run(FromFirstDigit(raw));
    if match_ == [] then None else Some(Read(StripRight(match_)))
  }

  // ---- Printed amounts ----

  function ThreeDigits(n: int): string
    requires 0 <= n <= 999
  {
    [Digit(n / 100), Digit(n / 10 % 10), Digit(n % 10)]
  }

  /** A whole number with its thousands set apart. */
  function Grouped(n: nat, separator: char): string {
    if n < 1000 then Decimal(n) else Grouped(n / 1000, separator) + [separator] + ThreeDigits(n % 1000)
  }

  /** An amount in cents with two decimals: 121400 is 1.214,00 or 1,214.00. */
  function Amount(cents: nat, thousands: char, point: char): string {
    Grouped(cents / 100, thousands) + [point] + TwoDigits(cents % 100)
  }

  predicate DigitFree(s: string) {
    forall c :: c in s ==> !IsDigit(c)
  }

  /** Digits and separators, a digit first and last. */
  predicate IsNumberText(s: string) {
    && s != [] && IsDigit(s[0]) && IsDigit(s[|s| - 1])
    && forall c :: c in s ==> IsDigit(c) || IsSeparator(c)
  }

  // ---- Finding the number in its text ----

  lemma {:induction false} SkipsToDigit(prefix: string, s: string)
    requires DigitFree(prefix) && s != [] && IsDigit(s[0])
    ensures FromFirstDigit(prefix + s) == s
  {
    if prefix == [] {
      assert prefix + s == s;
    } else {
      assert prefix[0] in prefix && forall c :: c in prefix[1..] ==> c in prefix;
      assert (prefix + s)[1..] == prefix[1..] + s;
      SkipsToDigit(prefix[1..], s);
    }
  }

  lemma {:induction false} RunThrough(s: string, suffix: string)
    requires forall c :: c in s ==> IsDigit(c) || IsSeparator(c)
    ensures Run(s + suffix) == s + Run(suffix)
  {
    if s == [] {
      assert s + suffix == suffix;
    } else {
      assert s[0] in s && forall c :: c in s[1..] ==> c in s;
      assert (s + suffix)[1..] == s[1..] + suffix;
      RunThrough(s[1..], suffix);
    }
  }

  lemma {:induction false} RunOfDigitFree(suffix: string)
    requires DigitFree(suffix)
    ensures forall c :: c in Run(suffix) ==> IsSeparator(c)
  {
    if suffix != [] {
      assert suffix[0] in suffix && forall c :: c in suffix[1..] ==> c in suffix;
      RunOfDigitFree(suffix[1..]);
    }
  }

  lemma {:induction false} StripsSeparators(s: string, tail: string)
    requires s != [] && IsDigit(s[|s| - 1]) && forall c :: c in tail ==> IsSeparator(c)
    ensures StripRight(s + tail) == s
  {
    if tail == [] {
      assert s + tail == s;
    } else {
      assert tail[|tail| - 1] in tail && forall c :: c in tail[..|tail| - 1] ==> c in tail;
      assert (s + tail)[..|s + tail| - 1] == s + tail[..|tail| - 1];
      StripsSeparators(s, tail[..|tail| - 1]);
    }
  }

  /** Whatever digit-free text is around a number, the parser finds exactly the number. */
  lemma FindsNumber(prefix: string, s: string, suffix: string)
    requires DigitFree(prefix) && IsNumberText(s) && DigitFree(suffix)
    ensures var found := Run(FromFirstDigit(prefix + s + suffix)); found != [] && StripRight(found) == s
  {
    assert prefix + s + suffix == prefix + (s + suffix);
    SkipsToDigit(prefix, s + suffix);
    RunThrough(s, suffix);
    RunOfDigitFree(suffix);
    StripsSeparators(s, Run(suffix));
  }

  // ---- Reading it ----

  lemma {:induction false} SeparatorsConcat(a: string, b: string)
    ensures WithoutSeparators(a + b) == WithoutSeparators(a) + WithoutSeparators(b)
  {
    if b == [] {
      assert a + b == a;
    } else {
      assert (a + b)[..|a + b| - 1] == a + b[..|b| - 1];
      SeparatorsConcat(a, b[..|b| - 1]);
    }
  }

  lemma {:induction false} DigitsHaveNoSeparators(s: string)
    requires forall c :: c in s ==> IsDigit(c)
    ensures WithoutSeparators(s) == s && LastSeparator(s) == -1
  {
    if s != [] {
      var p, c := s[..|s| - 1], s[|s| - 1];
      assert s == p + [c];
      assert c in s && forall x :: x in p ==> x in s;
      assert !IsSeparator(c);
      hide IsDigit, IsSeparator;
      DigitsHaveNoSeparators(p);
    }
  }

  lemma {:induction false} LastSeparatorBeforeDigits(a: string, separator: char, b: string)
    requires IsSeparator(separator) && forall c :: c in b ==> IsDigit(c)
    ensures LastSeparator(a + [separator] + b) == |a|
  {
    var s := a + [separator] + b;
    if b == [] {
      assert s == a + [separator];
    } else {
      assert b[|b| - 1] in b && forall c :: c in b[..|b| - 1] ==> c in b;
      assert s[..|s| - 1] == a + [separator] + b[..|b| - 1];
      LastSeparatorBeforeDigits(a, separator, b[..|b| - 1]);
    }
  }

  lemma DecimalInThousands(n: nat)
    requires n >= 1000
    ensures Decimal(n) == Decimal(n / 1000) + ThreeDigits(n % 1000)
  {
    Thousands(n);
    assert Decimal(n / 100) == Decimal(n / 1000) + [Digit(n / 100 % 10)];
    assert Decimal(n / 10) == Decimal(n / 100) + [Digit(n / 10 % 10)];
  }

  lemma Thousands(n: nat)
    ensures n / 10 / 10 == n / 100 && n / 100 / 10 == n / 1000
    ensures n % 1000 / 100 == n / 100 % 10 && n % 1000 / 10 % 10 == n / 10 % 10 && n % 1000 % 10 == n % 10
  {
  }

  lemma SeparatorAlone(separator: char)
    requires IsSeparator(separator)
    ensures WithoutSeparators([separator]) == []
  {
    assert [separator][..0] == [];
  }

  lemma {:induction false} GroupedShape(n: nat, separator: char)
    requires IsSeparator(separator)
    ensures IsNumberText(Grouped(n, separator))
    ensures WithoutSeparators(Grouped(n, separator)) == Decimal(n)
    ensures LastSeparator(Grouped(n, separator)) == if n < 1000 then -1 else |Grouped(n, separator)| - 4
  {
    hide WithoutSeparators, LastSeparator, Decimal;
    if n < 1000 {
      DigitsHaveNoSeparators(Decimal(n));
    } else {
      var head, tail := Grouped(n / 1000, separator), ThreeDigits(n % 1000);
      GroupedShape(n / 1000, separator);
      NumberGrows(head, separator, tail);
      SeparatorsConcat(head, [separator]);
      SeparatorsConcat(head + [separator], tail);
      SeparatorAlone(separator);
      DigitsHaveNoSeparators(tail);
      LastSeparatorBeforeDigits(head, separator, tail);
      DecimalInThousands(n);
    }
  }

  lemma NumberGrows(head: string, separator: char, tail: string)
    requires IsNumberText(head) && IsSeparator(separator) && tail != [] && forall c :: c in tail ==> IsDigit(c)
    ensures IsNumberText(head + [separator] + tail)
  {
    var s := head + [separator] + tail;
    assert s[0] == head[0] && s[|s| - 1] == tail[|tail| - 1] && tail[|tail| - 1] in tail;
  }

  lemma ValueSnoc(s: string, c: char)
    ensures Value(s + [c]) == 10 * Value(s) + DigitValue(c)
  {
    assert (s + [c])[..|s|] == s;
  }

  lemma TwoDigitsValue(n: int)
    requires 0 <= n <= 99
    ensures Value(TwoDigits(n)) == n && forall c :: c in TwoDigits(n) ==> IsDigit(c)
  {
    ValueSnoc([], Digit(n / 10));
    ValueSnoc([Digit(n / 10)], Digit(n % 10));
    assert [] + [Digit(n / 10)] == [Digit(n / 10)];
    assert [Digit(n / 10)] + [Digit(n % 10)] == TwoDigits(n);
  }

  /** An amount in cents, printed in either style inside any text without digits, is read back. */
  lemma AmountRoundTrip(prefix: string, cents: nat, thousands: char, point: char, suffix: string)
    requires DigitFree(prefix) && DigitFree(suffix) && IsSeparator(thousands) && IsSeparator(point)
    ensures ParseGrNumber(prefix + Amount(cents, thousands, point) + suffix) == Some(cents as real / 100.0)
  {
    hide Grouped, Run, FromFirstDigit, StripRight, LastSeparator, WithoutSeparators, Value, Decimal, TwoDigits;
    var head, tail := Grouped(cents / 100, thousands), TwoDigits(cents % 100);
    var s := Amount(cents, thousands, point);
    GroupedShape(cents / 100, thousands);
    TwoDigitsValue(cents % 100);
    assert s[0] == head[0] && s[|s| - 1] == tail[1] && tail[1] in tail;
    FindsNumber(prefix, s, suffix);
    LastSeparatorBeforeDigits(head, point, tail);
    assert s[..|head|] == head && s[|head| + 1..] == tail;
    DecimalValue(cents / 100);
    assert cents == cents / 100 * 100 + cents % 100;
  }

  /** So is a whole amount with its thousands set apart. */
  lemma WholeRoundTrip(prefix: string, n: nat, separator: char, suffix: string)
    requires DigitFree(prefix) && DigitFree(suffix) && IsSeparator(separator)
    ensures ParseGrNumber(prefix + Grouped(n, separator) + suffix) == Some(n as real)
  {
    hide Grouped, Run, FromFirstDigit, StripRight, LastSeparator, WithoutSeparators, Value, Decimal;
    GroupedShape(n, separator);
    FindsNumber(prefix, Grouped(n, separator), suffix);
    DecimalValue(n);
  }

  lemma HeadAndTail(head: string, point: char, tail: string)
    requires IsSeparator(point) && forall c :: c in tail ==> IsDigit(c)
    ensures var s := head + [point] + tail;
      LastSeparator(s) == |head| && s[..|head|] == head && s[|head| + 1..] == tail
    ensures WithoutSeparators(head + [point] + tail) == WithoutSeparators(head) + tail
  {
    hide WithoutSeparators, LastSeparator;
    LastSeparatorBeforeDigits(head, point, tail);
    SeparatorsConcat(head, [point]);
    SeparatorsConcat(head + [point], tail);
    SeparatorAlone(point);
    DigitsHaveNoSeparators(tail);
    assert WithoutSeparators(head) + [] == WithoutSeparators(head);
  }

  /** Digits after the last separator: one is tenths, two are hundredths, and three or more belong to
      the whole number. */
  lemma TailDecides(prefix: string, head: string, point: char, tail: string, suffix: string)
    requires DigitFree(prefix) && DigitFree(suffix) && IsNumberText(head) && IsSeparator(point)
    requires tail != [] && forall c :: c in tail ==> IsDigit(c)
    ensures var read := ParseGrNumber(prefix + (head + [point] + tail) + suffix);
      && (|tail| == 1 ==> read == Some(Value(WithoutSeparators(head)) as real + Value(tail) as real / 10.0))
      && (|tail| == 2 ==> read == Some(Value(WithoutSeparators(head)) as real + Value(tail) as real / 100.0))
      && (|tail| >= 3 ==> read == Some(Value(WithoutSeparators(head) + tail) as real))
  {
    hide *;
    NumberGrows(head, point, tail);
    ReadsFound(prefix, head + [point] + tail, suffix);
    ReadsTail(head, point, tail);
  }

  lemma ReadsFound(prefix: string, s: string, suffix: string)
    requires DigitFree(prefix) && IsNumberText(s) && DigitFree(suffix)
    ensures ParseGrNumber(prefix + s + suffix) == Some(Read(s))
  {
    hide Run, FromFirstDigit, StripRight, Read, IsNumberText, DigitFree;
    FindsNumber(prefix, s, suffix);
  }

  lemma ReadsTail(head: string, point: char, tail: string)
    requires IsSeparator(point) && tail != [] && forall c :: c in tail ==> IsDigit(c)
    ensures var read := Read(head + [point] + tail);
      && (|tail| == 1 ==> read == Value(WithoutSeparators(head)) as real + Value(tail) as real / 10.0)
      && (|tail| == 2 ==> read == Value(WithoutSeparators(head)) as real + Value(tail) as real / 100.0)
      && (|tail| >= 3 ==> read == Value(WithoutSeparators(head) + tail) as real)
  {
    hide LastSeparator, WithoutSeparators, Value, IsSeparator, IsDigit;
    HeadAndTail(head, point, tail);
  }

  /** So an amount in tenths, such as 14,5 or 1.214,5, is read back too. */
  lemma TenthsRoundTrip(prefix: string, tenths: nat, thousands: char, point: char, suffix: string)
    requires DigitFree(prefix) && DigitFree(suffix) && IsSeparator(thousands) && IsSeparator(point)
    ensures ParseGrNumber(prefix + (Grouped(tenths / 10, thousands) + [point] + [Digit(tenths % 10)]) + suffix)
         == Some(tenths as real / 10.0)
  {
    hide Grouped, ParseGrNumber, WithoutSeparators, Decimal, IsNumberText;
    var tail := [Digit(tenths % 10)];
    GroupedShape(tenths / 10, thousands);
    TailDecides(prefix, Grouped(tenths / 10, thousands), point, tail, suffix);
    DecimalValue(tenths / 10);
    assert tail[..0] == [] && Value(tail) == tenths % 10;
    assert tenths == tenths / 10 * 10 + tenths % 10;
  }

  /** And so is an amount in cents whose thousands are not set apart. */
  lemma PlainRoundTrip(prefix: string, cents: nat, point: char, suffix: string)
    requires DigitFree(prefix) && DigitFree(suffix) && IsSeparator(point)
    ensures ParseGrNumber(prefix + (Decimal(cents / 100) + [point] + TwoDigits(cents % 100)) + suffix)
         == Some(cents as real / 100.0)
  {
    hide ParseGrNumber, WithoutSeparators, Decimal, Value;
    var head := Decimal(cents / 100);
    assert head[0] in head && head[|head| - 1] in head;
    DigitsHaveNoSeparators(head);
    TwoDigitsValue(cents % 100);
    TailDecides(prefix, head, point, TwoDigits(cents % 100), suffix);
    DecimalValue(cents / 100);
    assert cents == cents / 100 * 100 + cents % 100;
  }

  /** A text without digits is not a number. */
  lemma {:induction false} NoDigitsNoNumber(raw: string)
    requires DigitFree(raw)
    ensures ParseGrNumber(raw) == None
  {
    if raw != [] {
      assert raw[0] in raw && forall c :: c in raw[1..] ==> c in raw;
      NoDigitsNoNumber(raw[1..]);
    }
  }
}
