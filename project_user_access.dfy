/** The date range a project user access grants, and the check of a request
    range or a sample against it. Dates are day numbers and date-times are
    milliseconds counted from the start of day 0, so the start of day `d` is
    `d * MILLIS_PER_DAY`. */
module ProjectUserAccess {
  import opened Wrappers

  const MILLIS_PER_DAY: int := 86_400_000

  /** `date.atTime(LocalTime.of(0, 0, 0))`. */
  function DayStart(day: int): int {
    day * MILLIS_PER_DAY
  }

  /** `ProjectUserAccess`: the user and the granted start date (inclusive)
      and end date (exclusive); an absent date does not restrict. */
  datatype Access<U> = Access(user: U, startDate: Option<int>, endDate: Option<int>)

  /** The two `ForbiddenException` messages: "Access forbidden for ..." and
      "Sample outside granted time range". */
  datatype Forbidden = AccessForbidden | SampleOutsideRange

  /** Whether a request bound is inside the granted bound: a start bound
      needs a request start at or after the start of its day, an end bound
      a request end at or before the start of its day. */
  predicate StartAllowed(startDate: Option<int>, rangeStart: Option<int>) {
    startDate.None? || (rangeStart.Some? && rangeStart.value >= DayStart(startDate.value))
  }

  predicate EndAllowed(endDate: Option<int>, rangeEnd: Option<int>) {
    endDate.None? || (rangeEnd.Some? && rangeEnd.value <= DayStart(endDate.value))
  }

  /** `checkMatchesRange(rangeStart, rangeEnd)`: the start bound is checked
      first, then the end bound. */
  function CheckMatchesRange<U>(a: Access<U>, rangeStart: Option<int>, rangeEnd: Option<int>): (r: Result<(), Forbidden>)
    ensures r.Ok? <==> StartAllowed(a.startDate, rangeStart) && EndAllowed(a.endDate, rangeEnd)
    ensures r.Err? ==> r.error == AccessForbidden
  {
    if a.startDate.Some? && (rangeStart.None? || rangeStart.value < DayStart(a.startDate.value)) then
      Err(AccessForbidden)
    else if a.endDate.Some? && (rangeEnd.None? || rangeEnd.value > DayStart(a.endDate.value)) then
      Err(AccessForbidden)
    else
      Ok(())
  }

  /** `checkMatchesRange(dbObject)`: an object that is not a sample (`None`)
      always passes; a sample at time `t` is checked as the range
      `[t, t + 1 ms)` and a failure gets the sample message. */
  function CheckObjectMatchesRange<U>(a: Access<U>, sampleTime: Option<int>): (r: Result<(), Forbidden>)
    ensures sampleTime.None? ==> r.Ok?
    ensures r.Err? ==> r.error == SampleOutsideRange
  {
    if sampleTime.None? then Ok(())
    else
      var t := sampleTime.value;
      match CheckMatchesRange(a, Some(t), Some(t + 1))
      case Ok(_) => Ok(())
      case Err(_) => Err(SampleOutsideRange)
  }

  /** Without bounds every request range passes, unbounded ones included. */
  lemma UnrestrictedAllowsAll<U>(user: U, rangeStart: Option<int>, rangeEnd: Option<int>)
    ensures CheckMatchesRange(Access(user, None, None), rangeStart, rangeEnd).Ok?
  {
  }

  /** A range inside an allowed range is allowed. */
  lemma SubrangeAllowed<U>(a: Access<U>, s: int, e: int, s': int, e': int)
    requires CheckMatchesRange(a, Some(s), Some(e)).Ok?
    requires s <= s' && e' <= e
    ensures CheckMatchesRange(a, Some(s'), Some(e')).Ok?
  {
  }

  /** A sample passes exactly when it lies on or after the start of the
      start day and strictly before the start of the end day. */
  lemma SampleWithinDays<U>(a: Access<U>, t: int)
    ensures CheckObjectMatchesRange(a, Some(t)).Ok? <==>
              (a.startDate.None? || DayStart(a.startDate.value) <= t) &&
              (a.endDate.None? || t < DayStart(a.endDate.value))
  {
  }

  /** The edges: a sample at the start of the start day passes, one at the
      start of the end day does not. */
  lemma SampleEdges<U>(user: U, startDate: int, endDate: int)
    requires startDate < endDate
    ensures CheckObjectMatchesRange(Access(user, Some(startDate), Some(endDate)), Some(DayStart(startDate))).Ok?
    ensures CheckObjectMatchesRange(Access(user, Some(startDate), Some(endDate)), Some(DayStart(endDate))).Err?
  {
    assert DayStart(startDate) + 1 <= DayStart(endDate);
  }
}
