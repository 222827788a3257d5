/**
 * The clock reading the handlers work from and the cyclic day index.
 *
 * The clock itself (the process-wide time zone, `datetime.now`) is not
 * modelled: every handler receives the reading as a parameter. A calendar
 * date is a day ordinal (consecutive dates differ by one), so that the
 * "today minus 29 days" of the progress query is plain subtraction and the
 * ISO-string comparison of the report store is integer comparison.
 */
module Calendar {

  /** One reading of the local clock: the ISO timestamp (opaque text), the
      local date as a day ordinal, its day of the month, and the wall-clock
      hour and minute. */
  datatype LocalNow = LocalNow(stamp: string, date: int, dayOfMonth: int, hour: int, minute: int)

  /** The mission-cycle index of a day of the month, 1..30. Days 1..30 map to
      themselves and day 31 starts the cycle again. */
  function DayIndex(dayOfMonth: int): (idx: int)
    ensures 1 <= idx <= 30
    ensures 1 <= dayOfMonth <= 30 ==> idx == dayOfMonth
    ensures dayOfMonth == 31 ==> idx == 1
  {
    // Python's % floors and Dafny's is Euclidean; for the positive divisor 30
    // both give a remainder in 0..29.
    ((dayOfMonth - 1) % 30) + 1
  }

  /** The index only depends on the day of the month modulo 30. */
  lemma DayIndexCycle(dayOfMonth: int)
    ensures DayIndex(dayOfMonth + 30) == DayIndex(dayOfMonth)
  {
  }

  /** Within a month, an index i is reached only from day i or day i + 30. */
  lemma DayIndexPreimage(dayOfMonth: int, idx: int)
    requires 1 <= dayOfMonth <= 31 && DayIndex(dayOfMonth) == idx
    ensures dayOfMonth == idx || dayOfMonth == idx + 30
  {
  }

  /** The first date of the trailing 30-day window that ends today. */
  function WindowStart(today: int): (since: int)
    ensures today - since + 1 == 30
  {
    today - 29
  }
}
