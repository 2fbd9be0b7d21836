/** Whether an app notification is active: not ended, started, and not yet
    at its end time. Times are local date-times as integer milliseconds. */
module AppNotification {
  import opened Wrappers

  /** The fields `isActive` reads: the start time (`toDateTime`), the
      optional end time and the ended flag. */
  datatype Notification = Notification(start: int, endTime: Option<int>, ended: bool)

  /** `isActive`. */
  predicate IsActive(n: Notification, now: int) {
    if n.ended then false
    else if n.start > now then false
    else if n.endTime.Some? && !(now < n.endTime.value) then false
    else true
  }

  /** A notification is active exactly in the half-open interval from its
      start to its end time (unbounded without one), unless it has ended. */
  lemma ActiveInterval(n: Notification, now: int)
    ensures IsActive(n, now) <==>
              !n.ended && n.start <= now && (n.endTime.None? || now < n.endTime.value)
  {
  }

  /** Active from the start time on, never at or after the end time, and
      never once ended. */
  lemma ActiveBounds(n: Notification, now: int)
    ensures n.ended ==> !IsActive(n, now)
    ensures now < n.start ==> !IsActive(n, now)
    ensures !n.ended && (n.endTime.None? || n.start < n.endTime.value) ==> IsActive(n, n.start)
    ensures n.endTime.Some? && now >= n.endTime.value ==> !IsActive(n, now)
  {
  }

  /** Without an end time an active notification stays active. */
  lemma NoEndStaysActive(n: Notification, now: int, later: int)
    requires n.endTime.None? && IsActive(n, now) && now <= later
    ensures IsActive(n, later)
  {
  }

  /** The times at which a notification is active form an interval. */
  lemma ActiveConvex(n: Notification, a: int, b: int, c: int)
    requires a <= b <= c && IsActive(n, a) && IsActive(n, c)
    ensures IsActive(n, b)
  {
  }
}
