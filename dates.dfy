/** Python's `datetime(year, month, day, hour, minute, second)` constructor:
    the Gregorian calendar over years 1 to 9999, with `ValueError` for any
    component out of range. Microseconds and time zones are not modelled. */
module Dates {
  import opened Outcomes

  datatype DateTime = DateTime(year: int, month: int, day: int, hour: int, minute: int, second: int)

  predicate IsLeapYear(y: int) { y % 4 == 0 && (y % 100 != 0 || y % 400 == 0) }

  function DaysInMonth(y: int, m: int): int
    requires 1 <= m <= 12
  {
    if m == 2 then (if IsLeapYear(y) then 29 else 28)
    else if m == 4 || m == 6 || m == 9 || m == 11 then 30
    else 31
  }

  /** The ranges `datetime` accepts (`MINYEAR` = 1, `MAXYEAR` = 9999). */
  predicate Valid(d: DateTime)
  {
    && 1 <= d.year <= 9999 && 1 <= d.month <= 12 && 1 <= d.day <= DaysInMonth(d.year, d.month)
    && 0 <= d.hour <= 23 && 0 <= d.minute <= 59 && 0 <= d.second <= 59
  }

  /** `datetime(y, mo, d, h, mi, s)`, with `None` where Python raises. */
  function MakeDateTime(y: int, mo: int, d: int, h: int, mi: int, s: int): (r: Option<DateTime>)
    ensures r.Some? <==> Valid(DateTime(y, mo, d, h, mi, s))
    ensures r.Some? ==> r.value == DateTime(y, mo, d, h, mi, s)
  {
    var dt := DateTime(y, mo, d, h, mi, s);
    if Valid(dt) then Some(dt) else None
  }
}
