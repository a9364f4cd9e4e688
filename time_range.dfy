/** Minutes-of-day intervals, as the meeting finder uses them. */
module TimeRanges {

  /** The half-open interval [start, end), in minutes since midnight. */
  datatype TimeRange = TimeRange(start: int, end: int) {

    /** At least one minute lies inside the range. */
    predicate NonEmpty() {
      start < end
    }

    /** Minute p lies in [start, end): the end minute itself is not part of the range. */
    predicate ContainsPoint(p: int) {
      start <= p < end
    }

    /** The two ranges share a minute (for non-empty ranges; see OverlapsIffSharedMinute). */
    predicate Overlaps(other: TimeRange) {
      start < other.end && other.start < end
    }

    /** other lies entirely within this range. */
    predicate Contains(other: TimeRange) {
      start <= other.start && other.end <= end
    }
  }

  /** Minutes since midnight of hours:minutes. */
  function GetTimeInMinutes(hours: int, minutes: int): (r: int)
    requires 0 <= hours < 24 && 0 <= minutes < 60
    ensures 0 <= r < 24 * 60
    ensures r / 60 == hours && r % 60 == minutes
  {
    hours * 60 + minutes
  }

  /** 00:00. */
  const START_OF_DAY: int := 0
  /** 23:59, the last minute of the day (not the minute after it). */
  const END_OF_DAY: int := 23 * 60 + 59
  /** [00:00, 24:00): every minute of the day. */
  const WHOLE_DAY: TimeRange := TimeRange(START_OF_DAY, 24 * 60)

  /** The range from start to end; with inclusive set, the minute end itself belongs to it too. */
  function FromStartEnd(start: int, end: int, inclusive: bool): (r: TimeRange)
    ensures r.start == start
    ensures forall p :: r.ContainsPoint(p) <==> start <= p && (p < end || (inclusive && p == end))
  {
    if inclusive then TimeRange(start, end + 1) else TimeRange(start, end)
  }

  /** ORDER_BY_START: a comes no later than b. */
  predicate StartsNoLater(a: TimeRange, b: TimeRange) {
    a.start <= b.start
  }

  /** For non-empty ranges, Overlaps is exactly "some minute lies in both". */
  lemma OverlapsIffSharedMinute(a: TimeRange, b: TimeRange)
    requires a.NonEmpty() && b.NonEmpty()
    ensures a.Overlaps(b) <==> exists p :: a.ContainsPoint(p) && b.ContainsPoint(p)
  {
    if a.Overlaps(b) {
      var p := if a.start < b.start then b.start else a.start;
      assert a.ContainsPoint(p) && b.ContainsPoint(p);
    }
  }

  /** For a non-empty other, Contains is exactly "every minute of other lies in this range". */
  lemma ContainsIffEveryMinute(a: TimeRange, b: TimeRange)
    requires b.NonEmpty()
    ensures a.Contains(b) <==> forall p :: b.ContainsPoint(p) ==> a.ContainsPoint(p)
  {
    if forall p :: b.ContainsPoint(p) ==> a.ContainsPoint(p) {
      assert b.ContainsPoint(b.start);
      assert b.ContainsPoint(b.end - 1);
    }
  }
}
