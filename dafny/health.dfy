/**
  * Health coverage of a person (`CoberturaSalud`): whether a coverage is
  * in force on a given day.
  */
module Health {
  import opened Wrappers
  import Calendar

  /** The fields of a coverage row the validity check reads, plus the
      start date, which it ignores. */
  datatype Coverage = Coverage(start: Calendar.Date, end: Option<Calendar.Date>, active: bool)

  /** `esta_vigente`: an inactive coverage is never in force; an active one
      is in force unless it has an end date that is already past. */
  function CoverageCurrent(c: Coverage, today: Calendar.Date): (r: bool)
    ensures !c.active ==> !r
    ensures c.active && c.end.Some? && Calendar.Before(c.end.value, today) ==> !r
    ensures c.active && (c.end.None? || Calendar.AtOrBefore(today, c.end.value)) ==> r
  {
    c.active && !(c.end.Some? && Calendar.Before(c.end.value, today))
  }

  /** The verdict depends on the active flag, the end date and today only:
      two coverages that agree on those two fields get the same verdict. */
  lemma CoverageIgnoresStart(c: Coverage, d: Coverage, today: Calendar.Date)
    requires c.active == d.active && c.end == d.end
    ensures CoverageCurrent(c, today) == CoverageCurrent(d, today)
  {
  }

  /** On valid dates an active coverage with an end date is in force
      exactly while the days left until the end are not negative; the end
      day itself is still covered. */
  lemma CoverageByDays(c: Coverage, today: Calendar.Date)
    requires c.active && c.end.Some? && Calendar.Valid(c.end.value) && Calendar.Valid(today)
    ensures CoverageCurrent(c, today) <==> Calendar.DaysBetween(today, c.end.value) >= 0
    ensures CoverageCurrent(c, c.end.value)
  {
    Calendar.AtOrBeforeIffOrdinal(today, c.end.value);
  }
}
