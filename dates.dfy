/** System.DateTime reduced to what the booking rules use: a calendar date with a time of day,
    the ordering of DateTime values, and the (year, month) buckets orders are grouped by. */
module Dates {

  type Month = m: int | 1 <= m <= 12 witness 1
  type Day = d: int | 1 <= d <= 31 witness 1
  /** Time of day in 100-nanosecond ticks. */
  type Tick = t: int | 0 <= t < 864_000_000_000

  datatype DateTime = DateTime(year: int, month: Month, day: Day, tick: Tick)

  /** `a <= b` on DateTime: chronological, that is lexicographic on (year, month, day, tick). */
  predicate Le(a: DateTime, b: DateTime) {
    a.year < b.year ||
    (a.year == b.year &&
      (a.month < b.month ||
        (a.month == b.month &&
          (a.day < b.day || (a.day == b.day && a.tick <= b.tick)))))
  }

  lemma LeIsTotalOrder(a: DateTime, b: DateTime, c: DateTime)
    ensures Le(a, a)
    ensures Le(a, b) || Le(b, a)
    ensures Le(a, b) && Le(b, a) ==> a == b
    ensures Le(a, b) && Le(b, c) ==> Le(a, c)
  {
  }

  /** A (year, month) bucket, the key `month_orders_{Year}_{Month}` of the monthly order lists. */
  datatype YearMonth = YearMonth(year: int, month: Month)

  function MonthOf(d: DateTime): YearMonth {
    YearMonth(d.year, d.month)
  }

  /** `new DateTime(year, month, 1)`: midnight on the first day of the month. */
  function MonthStart(ym: YearMonth): DateTime {
    DateTime(ym.year, ym.month, 1, 0)
  }

  /** Months counted from January of year 0. */
  function MonthIndex(ym: YearMonth): int {
    ym.year * 12 + ym.month - 1
  }

  function MonthAt(k: int): (ym: YearMonth)
    ensures MonthIndex(ym) == k
  {
    YearMonth(k / 12, k % 12 + 1)
  }

  lemma MonthAtIndex(ym: YearMonth)
    ensures MonthAt(MonthIndex(ym)) == ym
  {
    var k := MonthIndex(ym);
    assert k == ym.year * 12 + (ym.month - 1) && 0 <= ym.month - 1 < 12;
    assert k / 12 == ym.year && k % 12 == ym.month - 1;
  }

  lemma MonthIndexInjective(a: YearMonth, b: YearMonth)
    ensures MonthIndex(a) == MonthIndex(b) ==> a == b
  {
    MonthAtIndex(a);
    MonthAtIndex(b);
  }

  /** `AddMonths(1)` applied to the first day of a month. */
  function NextMonth(ym: YearMonth): (next: YearMonth)
    ensures MonthIndex(next) == MonthIndex(ym) + 1
  {
    if ym.month == 12 then YearMonth(ym.year + 1, 1) else YearMonth(ym.year, ym.month + 1)
  }

  /** Month starts compare as their month indices do. */
  lemma MonthStartOrder(a: YearMonth, b: YearMonth)
    ensures Le(MonthStart(a), MonthStart(b)) <==> MonthIndex(a) <= MonthIndex(b)
  {
  }

  /** Every month from `first` to `last` inclusive, in calendar order; empty when `last` precedes `first`. */
  function MonthRange(first: YearMonth, last: YearMonth): seq<YearMonth> {
    var n := MonthIndex(last) - MonthIndex(first) + 1;
    if n <= 0 then [] else seq(n, i requires 0 <= i < n => MonthAt(MonthIndex(first) + i))
  }

  /** The range holds exactly the months between its ends, each once, in increasing order. */
  lemma {:induction false} MonthRangeExact(first: YearMonth, last: YearMonth)
    ensures |MonthRange(first, last)| == if MonthIndex(last) < MonthIndex(first) then 0 else MonthIndex(last) - MonthIndex(first) + 1
    ensures forall i, j :: 0 <= i < j < |MonthRange(first, last)| ==>
              MonthIndex(MonthRange(first, last)[i]) < MonthIndex(MonthRange(first, last)[j])
    ensures forall ym :: ym in MonthRange(first, last) <==> MonthIndex(first) <= MonthIndex(ym) <= MonthIndex(last)
  {
    var r := MonthRange(first, last);
    var lo, hi := MonthIndex(first), MonthIndex(last);
    if hi < lo {
      assert r == [];
    } else {
      assert |r| == hi - lo + 1;
      forall i | 0 <= i < |r|
        ensures MonthIndex(r[i]) == lo + i
      {
        assert r[i] == MonthAt(lo + i);
      }
      forall ym | ym in r
        ensures lo <= MonthIndex(ym) <= hi
      {
        var i :| 0 <= i < |r| && r[i] == ym;
      }
      forall ym | lo <= MonthIndex(ym) <= hi
        ensures ym in r
      {
        MonthAtIndex(ym);
        assert r[MonthIndex(ym) - lo] == ym;
      }
    }
  }
}
