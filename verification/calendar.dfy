/** The part of the JavaScript `Date` object that `isDate` relies on: building a
    local date from (year, month index, day of month) and reading back its
    `getFullYear()`, `getMonth() + 1` and `getDate()`. Out-of-range months and
    days roll over into neighbouring months and years, and years 0 to 99 are
    taken to mean 1900 to 1999. */
module Calendar {

  /** Proleptic Gregorian leap years, as `Date` counts them. */
  predicate IsLeapYear(y: int) {
    (y % 4 == 0 && y % 100 != 0) || y % 400 == 0
  }

  function DaysInMonth(y: int, m: int): (days: int)
    requires 1 <= m <= 12
    ensures 28 <= days <= 31
  {
    if m == 2 then (if IsLeapYear(y) then 29 else 28)
    else if m == 4 || m == 6 || m == 9 || m == 11 then 30
    else 31
  }

  /** A calendar date as the getters report it: month 1 to 12. */
  datatype CivilDate = CivilDate(year: int, month: int, day: int)

  /** The month exists and the day exists in it. */
  predicate IsRealDate(d: CivilDate) {
    1 <= d.month <= 12 && 1 <= d.day <= DaysInMonth(d.year, d.month)
  }

  /** The date `d - 1` days after the first of month `m` of year `y`, where
      day 0 is the last day of the month before. */
  function RollDays(y: int, m: int, d: nat): (r: CivilDate)
    requires 1 <= m <= 12
    ensures IsRealDate(r)
    ensures r.year >= y - 1
    ensures d >= 1 ==> r.year >= y
    ensures 1 <= d <= DaysInMonth(y, m) ==> r == CivilDate(y, m, d)
    decreases d
  {
    if d == 0 then
      if m == 1 then CivilDate(y - 1, 12, DaysInMonth(y - 1, 12))
      else CivilDate(y, m - 1, DaysInMonth(y, m - 1))
    else if d <= DaysInMonth(y, m) then CivilDate(y, m, d)
    else if m == 12 then RollDays(y + 1, 1, d - DaysInMonth(y, m))
    else RollDays(y, m + 1, d - DaysInMonth(y, m))
  }

  /** `new Date(year, monthIndex, day)` read back through the local-time getters.
      A two-digit year is moved to the twentieth century first; the month index
      then carries whole years (floor division, as `Date` does), and the day
      carries into neighbouring months. */
  function NewLocalDate(year: int, monthIndex: int, day: nat): (r: CivilDate)
    ensures IsRealDate(r)
  {
    var y := if 0 <= year <= 99 then 1900 + year else year;
    RollDays(y + monthIndex / 12, monthIndex % 12 + 1, day)
  }

  /** Building a date from its own fields reads the same fields back exactly when
      they name a real date and the year is not one of the remapped years 0-99. */
  lemma NewLocalDateRoundTripIff(year: nat, month: nat, day: nat)
    ensures NewLocalDate(year, month - 1, day) == CivilDate(year, month, day)
            <==> year >= 100 && IsRealDate(CivilDate(year, month, day))
  {
    var r := NewLocalDate(year, month - 1, day);
    if year < 100 {
      assert (month - 1) / 12 >= -1;
      assert r.year >= 1900 + year - 2;
    } else if IsRealDate(CivilDate(year, month, day)) {
      assert (month - 1) / 12 == 0;
      assert (month - 1) % 12 + 1 == month;
    }
  }
}
