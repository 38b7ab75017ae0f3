/**
 * Calendar days as the bot sees them: a Python `date` (year, month, day) and
 * the English month names that strftime('%B') prints in the C locale.
 */
module Calendar {
  import opened Wrappers

  datatype Date = Date(year: nat, month: nat, day: nat)

  predicate IsLeapYear(year: nat) {
    year % 4 == 0 && (year % 100 != 0 || year % 400 == 0)
  }

  /** Days in `month` of `year` in the proleptic Gregorian calendar Python's `date` uses. */
  function DaysInMonth(year: nat, month: nat): (n: nat)
    requires 1 <= month <= 12
    ensures 28 <= n <= 31
    ensures n == 28 <==> month == 2 && !IsLeapYear(year)
    ensures n == 29 <==> month == 2 && IsLeapYear(year)
    ensures n == 30 <==> month == 4 || month == 6 || month == 9 || month == 11
  {
    if month == 2 then (if IsLeapYear(year) then 29 else 28)
    else if month == 4 || month == 6 || month == 9 || month == 11 then 30
    else 31
  }

  /** Every value of Python's `date` type satisfies this: year 1..9999, a real month and day. */
  predicate ValidDate(d: Date) {
    1 <= d.year <= 9999 && 1 <= d.month <= 12 && 1 <= d.day <= DaysInMonth(d.year, d.month)
  }

  const MONTH_NAMES: seq<string> := [
    "January", "February", "March", "April", "May", "June",
    "July", "August", "September", "October", "November", "December"
  ]

  /** strftime('%B'): the full English name of the month. */
  function MonthName(month: nat): (name: string)
    requires 1 <= month <= 12
    ensures name in MONTH_NAMES
    ensures name != [] && 'A' <= name[0] <= 'Z'
  {
    MONTH_NAMES[month - 1]
  }

  /** The month with the given English name, if any: the inverse of MonthName. */
  function MonthNumber(name: string): (m: Option<nat>)
    ensures m.Some? ==> 1 <= m.value <= 12
  {
    MonthNumberFrom(name, 1)
  }

  function MonthNumberFrom(name: string, month: nat): (m: Option<nat>)
    requires 1 <= month
    ensures m.Some? ==> month <= m.value <= 12 && MONTH_NAMES[m.value - 1] == name
    decreases 13 - month
  {
    if month > 12 then None
    else if MONTH_NAMES[month - 1] == name then Some(month)
    else MonthNumberFrom(name, month + 1)
  }

  /** No two months share a name, so the name tells the month back. */
  lemma MonthNameRoundTrip(month: nat)
    requires 1 <= month <= 12
    ensures MonthNumber(MonthName(month)) == Some(month)
  {
    MonthNamesDistinct();
    MonthNumberFinds(MonthName(month), 1, month);
  }

  lemma MonthNamesDistinct()
    ensures forall i, j :: 0 <= i < j < |MONTH_NAMES| ==> MONTH_NAMES[i] != MONTH_NAMES[j]
  {
    forall i, j | 0 <= i < j < |MONTH_NAMES|
      ensures MONTH_NAMES[i] != MONTH_NAMES[j]
    {
      MonthNameKeys(i);
      MonthNameKeys(j);
    }
  }

  /** The first three letters of each month name, which already tell them apart. */
  lemma MonthNameKeys(i: nat)
    requires i < |MONTH_NAMES|
    ensures |MONTH_NAMES[i]| >= 3
    ensures MONTH_NAMES[i][..3] == ["Jan", "Feb", "Mar", "Apr", "May", "Jun", "Jul", "Aug", "Sep", "Oct", "Nov", "Dec"][i]
  {
  }

  lemma {:induction false} MonthNumberFinds(name: string, from: nat, month: nat)
    requires 1 <= from <= month <= 12
    requires MONTH_NAMES[month - 1] == name
    requires forall i, j :: 0 <= i < j < |MONTH_NAMES| ==> MONTH_NAMES[i] != MONTH_NAMES[j]
    ensures MonthNumberFrom(name, from) == Some(month)
    decreases month - from
  {
    if from < month {
      assert MONTH_NAMES[from - 1] != name;
      MonthNumberFinds(name, from + 1, month);
    }
  }
}
