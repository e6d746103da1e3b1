/** Months numbered consecutively (12 * year + month - 1), and the clamped month
    arithmetic of `relativedelta(months=k)` and `_on_day`. */
module MonthArithmetic {
  import opened CivilCalendar

  function Min(a: int, b: int): int {
    if a <= b then a else b
  }

  function MonthIndex(n: Day): int {
    12 * YearOf(n) + MonthOf(n) - 1
  }

  function LengthOf(mi: int): (len: int)
    ensures 28 <= len <= 31
  {
    MonthLength(mi / 12, mi % 12 + 1)
  }

  /** The first of month `mi`. */
  function MonthStart(mi: int): Day {
    ToDay(mi / 12, mi % 12 + 1, 1)
  }

  /** Day `day` of month `mi`, clamped to the month's length (31 becomes 30 in April). */
  function OnDay(mi: int, day: int): Day {
    MonthStart(mi) + Min(day, LengthOf(mi)) - 1
  }

  /** `k` months after `n`, on its day or the last day of a shorter month. */
  function AddMonths(n: Day, k: int): Day {
    OnDay(MonthIndex(n) + k, DayOfMonth(n))
  }

  lemma MonthFollows(mi: int)
    ensures MonthStart(mi + 1) == MonthStart(mi) + LengthOf(mi)
  {
    var y, m := mi / 12, mi % 12 + 1;
    NextMonth(mi);
    MonthStep(y, m);
    if m == 12 {
      YearStep(y);
      MonthStep(y + 1, 1);
    }
    hide DaysBeforeYear, DaysBeforeMonth, MonthLength;
  }

  lemma NextMonth(mi: int)
    ensures (mi + 1) / 12 == if mi % 12 == 11 then mi / 12 + 1 else mi / 12
    ensures (mi + 1) % 12 == if mi % 12 == 11 then 0 else mi % 12 + 1
  {
  }

  lemma {:induction false} MonthsApart(a: int, b: int)
    requires a <= b
    ensures 28 * (b - a) <= MonthStart(b) - MonthStart(a) <= 31 * (b - a)
    decreases b - a
  {
    if a < b {
      MonthFollows(b - 1);
      MonthsApart(a, b - 1);
    }
  }

  lemma InItsMonth(n: Day)
    ensures n == MonthStart(MonthIndex(n)) + DayOfMonth(n) - 1
    ensures 1 <= DayOfMonth(n) <= LengthOf(MonthIndex(n))
    ensures MonthStart(MonthIndex(n)) <= n < MonthStart(MonthIndex(n) + 1)
    ensures OnDay(MonthIndex(n), DayOfMonth(n)) == n
  {
    hide YearOf, MonthOf, DayOfMonth, MonthLength, DaysBeforeYear, DaysBeforeMonth;
    MonthIndexParts(n);
    CivilRoundTrip(n);
    MonthFollows(MonthIndex(n));
    hide MonthStart, LengthOf, MonthIndex;
  }

  lemma MonthIndexParts(n: Day)
    ensures MonthStart(MonthIndex(n)) == ToDay(YearOf(n), MonthOf(n), 1)
    ensures LengthOf(MonthIndex(n)) == MonthLength(YearOf(n), MonthOf(n))
  {
    hide YearOf, MonthOf, ToDay, MonthLength;
    var mi := MonthIndex(n);
    assert mi / 12 == YearOf(n) && mi % 12 + 1 == MonthOf(n);
  }

  lemma MonthIndexUnique(n: Day, mi: int)
    requires MonthStart(mi) <= n < MonthStart(mi + 1)
    ensures MonthIndex(n) == mi && DayOfMonth(n) == n - MonthStart(mi) + 1
  {
    hide *;
    InItsMonth(n);
    if MonthIndex(n) < mi {
      MonthsApart(MonthIndex(n) + 1, mi);
    } else if MonthIndex(n) > mi {
      MonthsApart(mi + 1, MonthIndex(n));
    }
  }

  lemma OnDayInMonth(mi: int, day: int)
    requires day >= 1
    ensures MonthStart(mi) <= OnDay(mi, day) < MonthStart(mi + 1)
    ensures MonthIndex(OnDay(mi, day)) == mi
    ensures DayOfMonth(OnDay(mi, day)) == Min(day, LengthOf(mi))
  {
    MonthFollows(mi);
    MonthIndexUnique(OnDay(mi, day), mi);
  }

  /** Clamped month addition lands in the month it should, on the day it should, and a
      day that needs no clamping is undone by subtracting the same months. */
  lemma AddMonthsLands(n: Day, k: int)
    ensures MonthIndex(AddMonths(n, k)) == MonthIndex(n) + k
    ensures DayOfMonth(AddMonths(n, k)) == Min(DayOfMonth(n), LengthOf(MonthIndex(n) + k))
    ensures DayOfMonth(n) <= LengthOf(MonthIndex(n) + k) ==> AddMonths(AddMonths(n, k), -k) == n
  {
    hide YearOf, MonthOf, DayOfMonth, MonthStart, LengthOf, MonthIndex;
    OnDayInMonth(MonthIndex(n) + k, DayOfMonth(n));
    InItsMonth(n);
  }

  lemma LaterMonthLater(a: Day, b: Day)
    requires MonthIndex(a) < MonthIndex(b)
    ensures a < b
  {
    InItsMonth(a);
    InItsMonth(b);
    MonthsApart(MonthIndex(a) + 1, MonthIndex(b));
  }

  lemma EarlierNotLaterMonth(a: Day, b: Day)
    requires a <= b
    ensures MonthIndex(a) <= MonthIndex(b)
    ensures MonthIndex(a) == MonthIndex(b) ==> b - a == DayOfMonth(b) - DayOfMonth(a)
  {
    InItsMonth(a);
    InItsMonth(b);
    if MonthIndex(a) > MonthIndex(b) {
      LaterMonthLater(b, a);
    }
  }

  lemma AddMonthsMonotone(a: Day, b: Day, k: int)
    requires a <= b
    ensures AddMonths(a, k) <= AddMonths(b, k)
  {
    hide YearOf, MonthOf, DayOfMonth, MonthStart, LengthOf, MonthIndex;
    EarlierNotLaterMonth(a, b);
    AddMonthsLands(a, k);
    AddMonthsLands(b, k);
    if MonthIndex(a) < MonthIndex(b) {
      LaterMonthLater(AddMonths(a, k), AddMonths(b, k));
    }
  }
}
