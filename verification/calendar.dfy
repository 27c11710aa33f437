/** Calendar dates as day numbers.

    A date is its proleptic Gregorian ordinal (what Python's `date.toordinal()`
    returns): 0001-01-01 is day 1 and 9999-12-31 is day 3652059. Adding a
    `timedelta` is adding days; a sum outside that range raises OverflowError,
    which `AddDays` reports as `None`. */
module Calendar {
  import opened Results

  /** The ordinal of 0001-01-01, the smallest representable date. */
  const MinOrdinal: int := 1
  /** The ordinal of 9999-12-31, the largest representable date. */
  const MaxOrdinal: int := 3652059

  type Date = d: int | MinOrdinal <= d <= MaxOrdinal witness MinOrdinal

  const DaysPerWeek: nat := 7

  /** The length in days of `timedelta(weeks=n)`. */
  function Weeks(n: nat): nat
  {
    DaysPerWeek * n
  }

  /** `d + timedelta(days=days)`: the shifted date, or `None` where Python
      raises OverflowError because the result leaves the date range. */
  function AddDays(d: Date, days: int): (r: Option<Date>)
    ensures r.Some? ==> r.value - d == days
    ensures r.None? ==> d + days < MinOrdinal || MaxOrdinal < d + days
  {
    if MinOrdinal <= d + days <= MaxOrdinal then Some(d + days) else None
  }
}
