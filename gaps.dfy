/**
 * The cursor walk of findAvailability over the merged busy ranges, in ascending order, stated as a
 * fold: the free slots emitted and the cursor after each busy range.
 */
module Gaps {
  import opened TimeRanges
  import opened Sorting
  import opened Merging

  /** Each range ends no later than the next one starts. */
  predicate Ascending(rs: seq<TimeRange>) {
    forall i, j :: 0 <= i < j < |rs| ==> rs[i].end <= rs[j].start
  }

  /** r lies within [START_OF_DAY, 24:00). */
  predicate InDay(r: TimeRange) {
    START_OF_DAY <= r.start && r.end <= WHOLE_DAY.end
  }

  predicate AllInDay(rs: seq<TimeRange>) {
    forall i :: 0 <= i < |rs| ==> InDay(rs[i])
  }

  /** A slot end as the final-slot comparison measures it: never past END_OF_DAY. */
  function Clip(end: int): int {
    if end <= END_OF_DAY then end else END_OF_DAY
  }

  /** No minute of [a, b) is busy. */
  ghost predicate FreeWindow(a: int, b: int, busy: seq<TimeRange>) {
    forall p :: a <= p < b ==> !Busy(p, busy)
  }

  /** Some slot contains all of [a, b). */
  ghost predicate Covered(a: int, b: int, slots: seq<TimeRange>) {
    exists s :: s in slots && s.start <= a && b <= s.end
  }

  /** The slots emitted so far and the cursor start. */
  datatype Walk = Walk(slots: seq<TimeRange>, cursor: int)

  /** The walk once the loop has visited busy[..k]. */
  function WalkPrefix(busy: seq<TimeRange>, k: nat, duration: nat): Walk
    requires k <= |busy|
  {
    if k == 0 then
      Walk([], START_OF_DAY)
    else
      var w := WalkPrefix(busy, k - 1, duration);
      var interval := busy[k - 1];
      var slots :=
        if interval.start - w.cursor >= duration
        then w.slots + [FromStartEnd(w.cursor, interval.start, false)]
        else w.slots;
      Walk(slots, interval.end)
  }

  /** The free slots of the day around the ascending busy ranges, closed by the end-of-day slot. */
  function FreeSlots(busy: seq<TimeRange>, duration: nat): seq<TimeRange> {
    var w := WalkPrefix(busy, |busy|, duration);
    if END_OF_DAY - w.cursor >= duration
    then w.slots + [FromStartEnd(w.cursor, END_OF_DAY, true)]
    else w.slots
  }

  /** The slots so far are in order and apart, lie before the cursor and inside 23:59, and each meets duration. */
  predicate SlotsShaped(duration: nat, w: Walk) {
    && (forall i, j :: 0 <= i < j < |w.slots| ==> w.slots[i].end < w.slots[j].start)
    && (forall s :: s in w.slots ==>
          START_OF_DAY <= s.start && s.end < w.cursor && s.end <= END_OF_DAY && s.end - s.start >= duration)
  }

  /** No slot so far shares a minute with a busy range. */
  ghost predicate SlotsFree(busy: seq<TimeRange>, w: Walk) {
    forall s, p :: s in w.slots && s.ContainsPoint(p) ==> !Busy(p, busy)
  }

  /** Each slot so far starts at START_OF_DAY or where a busy range ends, and ends where one starts. */
  ghost predicate SlotsAtEdges(busy: seq<TimeRange>, w: Walk) {
    forall s :: s in w.slots ==>
      && (s.start == START_OF_DAY || exists j :: 0 <= j < |busy| && busy[j].end == s.start)
      && (exists j :: 0 <= j < |busy| && busy[j].start == s.end)
  }

  /** Every free window before the cursor that is long enough lies in a slot so far. */
  ghost predicate SlotsCover(busy: seq<TimeRange>, duration: nat, w: Walk) {
    forall a, b :: START_OF_DAY <= a < b <= w.cursor && FreeWindow(a, b, busy) && b - a >= duration ==>
      Covered(a, b, w.slots)
  }

  /** A minute after busy[k - 1] and before busy[k] is not busy. */
  lemma GapFree(busy: seq<TimeRange>, k: nat, p: int)
    requires Ascending(busy) && AllNonEmpty(busy) && k <= |busy|
    requires k > 0 ==> busy[k - 1].end <= p
    requires k < |busy| ==> p < busy[k].start
    ensures !Busy(p, busy)
  {
  }

  /** The minute before the end of a busy range is busy. */
  lemma BeforeEndBusy(busy: seq<TimeRange>, k: nat)
    requires AllNonEmpty(busy) && k < |busy|
    ensures Busy(busy[k].end - 1, busy)
  {
    assert busy[k] in busy && busy[k].ContainsPoint(busy[k].end - 1);
  }

  /** Where the cursor stands when the walk reaches busy[k - 1]: inside the day and not past its start. */
  lemma CursorBefore(busy: seq<TimeRange>, k: nat, duration: nat)
    requires Ascending(busy) && AllNonEmpty(busy) && AllInDay(busy) && 0 < k <= |busy|
    ensures START_OF_DAY <= WalkPrefix(busy, k - 1, duration).cursor <= busy[k - 1].start
    ensures k == 1 ==> WalkPrefix(busy, k - 1, duration).cursor == START_OF_DAY
    ensures k > 1 ==> WalkPrefix(busy, k - 1, duration).cursor == busy[k - 2].end
    ensures k > 1 ==> Busy(busy[k - 2].end - 1, busy)
  {
    if k > 1 {
      assert busy[k - 2].end <= busy[k - 1].start;
      assert InDay(busy[k - 2]) && busy[k - 2].NonEmpty();
      BeforeEndBusy(busy, k - 2);
    } else {
      assert InDay(busy[0]);
    }
  }

  /** Where the cursor stands after the whole walk: inside the day, with no busy minute from it on. */
  lemma CursorAtEnd(busy: seq<TimeRange>, duration: nat)
    requires Ascending(busy) && AllNonEmpty(busy) && AllInDay(busy)
    ensures START_OF_DAY <= WalkPrefix(busy, |busy|, duration).cursor <= WHOLE_DAY.end
    ensures |busy| == 0 ==> WalkPrefix(busy, |busy|, duration).cursor == START_OF_DAY
    ensures |busy| > 0 ==> WalkPrefix(busy, |busy|, duration).cursor == busy[|busy| - 1].end
    ensures |busy| > 0 ==> Busy(busy[|busy| - 1].end - 1, busy)
    ensures forall p :: WalkPrefix(busy, |busy|, duration).cursor <= p ==> !Busy(p, busy)
  {
    var n := |busy|;
    if n > 0 {
      assert InDay(busy[n - 1]) && busy[n - 1].NonEmpty();
      BeforeEndBusy(busy, n - 1);
    }
    forall p | WalkPrefix(busy, n, duration).cursor <= p ensures !Busy(p, busy) {
      GapFree(busy, n, p);
    }
  }

  /** The walk keeps its slots in order, apart, inside the day and at least duration long. */
  lemma {:induction false} WalkShaped(busy: seq<TimeRange>, k: nat, duration: nat)
    requires Ascending(busy) && AllNonEmpty(busy) && AllInDay(busy) && k <= |busy|
    ensures SlotsShaped(duration, WalkPrefix(busy, k, duration))
  {
    if k == 0 {
      assert WalkPrefix(busy, 0, duration).slots == [];
    } else {
      WalkShaped(busy, k - 1, duration);
      CursorBefore(busy, k, duration);
      var w, next, b := WalkPrefix(busy, k - 1, duration), WalkPrefix(busy, k, duration), busy[k - 1];
      assert b.NonEmpty() && InDay(b);
      assert next.cursor == b.end;
      if b.start - w.cursor >= duration {
        var gap := FromStartEnd(w.cursor, b.start, false);
        assert next.slots == w.slots + [gap];
        forall i, j | 0 <= i < j < |next.slots| ensures next.slots[i].end < next.slots[j].start {
          if j == |w.slots| {
            assert next.slots[i] in w.slots;
          }
        }
        forall s | s in next.slots
          ensures START_OF_DAY <= s.start && s.end < next.cursor && s.end <= END_OF_DAY && s.end - s.start >= duration
        {
          if s != gap {
            assert s in w.slots;
          }
        }
      } else {
        assert next.slots == w.slots;
      }
    }
  }

  /** No slot the walk emits shares a minute with a busy range. */
  lemma {:induction false} WalkFree(busy: seq<TimeRange>, k: nat, duration: nat)
    requires Ascending(busy) && AllNonEmpty(busy) && AllInDay(busy) && k <= |busy|
    ensures SlotsFree(busy, WalkPrefix(busy, k, duration))
  {
    if k == 0 {
      assert WalkPrefix(busy, 0, duration).slots == [];
    } else {
      WalkFree(busy, k - 1, duration);
      CursorBefore(busy, k, duration);
      var w, next, b := WalkPrefix(busy, k - 1, duration), WalkPrefix(busy, k, duration), busy[k - 1];
      if b.start - w.cursor >= duration {
        var gap := FromStartEnd(w.cursor, b.start, false);
        assert next.slots == w.slots + [gap];
        forall p | gap.ContainsPoint(p) ensures !Busy(p, busy) {
          GapFree(busy, k - 1, p);
        }
      } else {
        assert next.slots == w.slots;
      }
    }
  }

  /** Every slot the walk emits starts at START_OF_DAY or at a busy end, and ends at a busy start. */
  lemma {:induction false} WalkAtEdges(busy: seq<TimeRange>, k: nat, duration: nat)
    requires Ascending(busy) && AllNonEmpty(busy) && AllInDay(busy) && k <= |busy|
    ensures SlotsAtEdges(busy, WalkPrefix(busy, k, duration))
  {
    if k == 0 {
      assert WalkPrefix(busy, 0, duration).slots == [];
    } else {
      WalkAtEdges(busy, k - 1, duration);
      CursorBefore(busy, k, duration);
      var w, next, b := WalkPrefix(busy, k - 1, duration), WalkPrefix(busy, k, duration), busy[k - 1];
      if b.start - w.cursor >= duration {
        var gap := FromStartEnd(w.cursor, b.start, false);
        assert next.slots == w.slots + [gap];
        assert k > 1 ==> busy[k - 2].end == gap.start;
        assert busy[k - 1].start == gap.end;
      } else {
        assert next.slots == w.slots;
      }
    }
  }

  /** Every free window before the cursor that is long enough lies in a slot the walk has emitted. */
  lemma {:induction false} WalkCovers(busy: seq<TimeRange>, k: nat, duration: nat)
    requires Ascending(busy) && AllNonEmpty(busy) && AllInDay(busy) && k <= |busy|
    ensures SlotsCover(busy, duration, WalkPrefix(busy, k, duration))
  {
    if k > 0 {
      WalkCovers(busy, k - 1, duration);
      CursorBefore(busy, k, duration);
      var w, next, b := WalkPrefix(busy, k - 1, duration), WalkPrefix(busy, k, duration), busy[k - 1];
      var c := w.cursor;
      var gap := FromStartEnd(c, b.start, false);
      assert b.NonEmpty() && b in busy && b.ContainsPoint(b.start);
      assert next.slots == if b.start - c >= duration then w.slots + [gap] else w.slots;
      assert next.cursor == b.end;
      forall lo, hi | START_OF_DAY <= lo < hi <= b.end && FreeWindow(lo, hi, busy) && hi - lo >= duration
        ensures Covered(lo, hi, next.slots)
      {
        if hi <= c {
          var s :| s in w.slots && s.start <= lo && hi <= s.end;
          assert s in next.slots;
        } else {
          assert lo <= c - 1 < hi ==> !Busy(c - 1, busy);
          assert c <= lo;
          var p := if lo >= b.start then lo else b.start;
          assert b.ContainsPoint(p) && Busy(p, busy);
          assert lo <= p < hi ==> !Busy(p, busy);
          assert hi <= b.start;
          assert gap in next.slots;
        }
      }
    }
  }

  /** The cursor never moves back as the walk proceeds. */
  lemma CursorNeverDecreases(busy: seq<TimeRange>, k1: nat, k2: nat, duration: nat)
    requires Ascending(busy) && AllNonEmpty(busy) && AllInDay(busy) && k1 <= k2 <= |busy|
    ensures WalkPrefix(busy, k1, duration).cursor <= WalkPrefix(busy, k2, duration).cursor
  {
  }

  /**
   * Around ascending busy ranges inside the day, the free slots are ordered and apart, lie inside the
   * day and meet the duration as the source measures it: the final slot only counts up to END_OF_DAY.
   */
  lemma FreeSlotsShaped(busy: seq<TimeRange>, duration: nat)
    requires Ascending(busy) && AllNonEmpty(busy) && AllInDay(busy)
    ensures forall i, j :: 0 <= i < j < |FreeSlots(busy, duration)| ==>
      FreeSlots(busy, duration)[i].end < FreeSlots(busy, duration)[j].start
    ensures forall s :: s in FreeSlots(busy, duration) ==>
      START_OF_DAY <= s.start <= s.end <= WHOLE_DAY.end && Clip(s.end) - s.start >= duration
  {
    var w := WalkPrefix(busy, |busy|, duration);
    var slots := FreeSlots(busy, duration);
    WalkShaped(busy, |busy|, duration);
    CursorAtEnd(busy, duration);
    var last := FromStartEnd(w.cursor, END_OF_DAY, true);
    if END_OF_DAY - w.cursor >= duration {
      assert slots == w.slots + [last];
      assert last.start == w.cursor && last.end == WHOLE_DAY.end;
      forall i, j | 0 <= i < j < |slots| ensures slots[i].end < slots[j].start {
        if j == |w.slots| {
          assert slots[i] in w.slots;
        }
      }
    } else {
      assert slots == w.slots;
    }
  }

  /** No free slot shares a minute with a busy range. */
  lemma FreeSlotsFree(busy: seq<TimeRange>, duration: nat)
    requires Ascending(busy) && AllNonEmpty(busy) && AllInDay(busy)
    ensures forall s, p :: s in FreeSlots(busy, duration) && s.ContainsPoint(p) ==> !Busy(p, busy)
  {
    var w := WalkPrefix(busy, |busy|, duration);
    WalkFree(busy, |busy|, duration);
    CursorAtEnd(busy, duration);
    if END_OF_DAY - w.cursor >= duration {
      assert FreeSlots(busy, duration) == w.slots + [FromStartEnd(w.cursor, END_OF_DAY, true)];
    }
  }

  /**
   * Each free slot starts at START_OF_DAY or where a busy range ends, and ends at 24:00 or where a
   * busy range starts: no slot can grow on either side.
   */
  lemma FreeSlotsAtEdges(busy: seq<TimeRange>, duration: nat)
    requires Ascending(busy) && AllNonEmpty(busy) && AllInDay(busy)
    ensures forall s :: s in FreeSlots(busy, duration) ==>
      s.start == START_OF_DAY || exists j :: 0 <= j < |busy| && busy[j].end == s.start
    ensures forall s :: s in FreeSlots(busy, duration) ==>
      s.end == WHOLE_DAY.end || exists j :: 0 <= j < |busy| && busy[j].start == s.end
  {
    var n := |busy|;
    var w := WalkPrefix(busy, n, duration);
    WalkAtEdges(busy, n, duration);
    CursorAtEnd(busy, duration);
    var last := FromStartEnd(w.cursor, END_OF_DAY, true);
    if END_OF_DAY - w.cursor >= duration {
      assert FreeSlots(busy, duration) == w.slots + [last];
      assert last.end == WHOLE_DAY.end;
      assert n > 0 ==> busy[n - 1].end == last.start;
    } else {
      assert FreeSlots(busy, duration) == w.slots;
    }
  }

  /** Every free window inside the day long enough for the duration, as the source measures it, lies in a free slot. */
  lemma FreeSlotsComplete(busy: seq<TimeRange>, duration: nat)
    requires Ascending(busy) && AllNonEmpty(busy) && AllInDay(busy)
    ensures forall a, b :: START_OF_DAY <= a < b <= WHOLE_DAY.end && FreeWindow(a, b, busy) && Clip(b) - a >= duration ==>
      Covered(a, b, FreeSlots(busy, duration))
  {
    var w := WalkPrefix(busy, |busy|, duration);
    var slots := FreeSlots(busy, duration);
    WalkCovers(busy, |busy|, duration);
    CursorAtEnd(busy, duration);
    var c := w.cursor;
    var last := FromStartEnd(c, END_OF_DAY, true);
    forall a, b | START_OF_DAY <= a < b <= WHOLE_DAY.end && FreeWindow(a, b, busy) && Clip(b) - a >= duration
      ensures Covered(a, b, slots)
    {
      if b <= c {
        var s :| s in w.slots && s.start <= a && b <= s.end;
        assert s in slots;
      } else {
        assert a <= c - 1 < b ==> !Busy(c - 1, busy);
        assert c <= a;
        assert slots == w.slots + [last];
        assert last in slots;
      }
    }
  }

  /**
   * The final gap is measured only up to END_OF_DAY: after a busy range ending at 23:30, a 30-minute
   * meeting finds no slot although [23:30, 24:00) is free, while a 29-minute one gets that slot.
   */
  lemma FinalGapOfExactDuration()
    ensures FreeSlots([TimeRange(START_OF_DAY, 1410)], 30) == []
    ensures FreeSlots([TimeRange(START_OF_DAY, 1410)], 29) == [TimeRange(1410, WHOLE_DAY.end)]
  {
    var busy := [TimeRange(START_OF_DAY, 1410)];
    assert WalkPrefix(busy, 0, 30) == Walk([], START_OF_DAY);
    assert WalkPrefix(busy, 1, 30) == Walk([], 1410);
    assert WalkPrefix(busy, 0, 29) == Walk([], START_OF_DAY);
    assert WalkPrefix(busy, 1, 29) == Walk([], 1410);
  }

  /** Reading a top-first stack from the bottom gives ascending ranges with the same members. */
  lemma ReverseOfDescending(stack: seq<TimeRange>)
    requires Descending(stack)
    ensures Ascending(Reverse(stack))
    ensures forall r :: r in Reverse(stack) <==> r in stack
  {
  }

  /** Every merged range is non-empty and lies inside the day when every input range does. */
  lemma MergedInDay(busy: seq<TimeRange>)
    requires busy != [] && AllNonEmpty(busy) && AllInDay(busy)
    ensures AllNonEmpty(Merge(busy)) && AllInDay(Merge(busy))
  {
    MergeCoverage(busy);
    var merged := Merge(busy);
    forall i | 0 <= i < |merged| ensures InDay(merged[i]) {
      var m := merged[i];
      assert m in merged;
      forall p | m.ContainsPoint(p) ensures Busy(p, busy) {
        assert Busy(p, merged);
      }
      CoveredRangeWithin(m, busy, START_OF_DAY, WHOLE_DAY.end);
    }
  }

  /**
   * Sorting a top-first stack of non-empty ranges by start reads it from the bottom: the result is
   * ascending and holds the same ranges.
   */
  lemma SortedStackIsReverse(stack: seq<TimeRange>)
    requires Descending(stack) && AllNonEmpty(stack)
    ensures SortByStart(stack) == Reverse(stack)
    ensures Ascending(SortByStart(stack))
    ensures forall r :: r in SortByStart(stack) <==> r in stack
  {
    forall i, j | 0 <= i < j < |stack| ensures stack[j].start < stack[i].start {
      assert stack[j].NonEmpty();
    }
    SortOfDescendingIsReverse(stack);
    ReverseOfDescending(stack);
  }

  /**
   * The merged stack sorted again by start is the stack read bottom-to-top: ascending, non-empty,
   * inside the day when the input is, and busy at exactly the minutes the input is busy.
   */
  lemma SortedMergeIsAscending(busy: seq<TimeRange>)
    requires busy != [] && AllNonEmpty(busy) && AllInDay(busy)
    ensures Ascending(SortByStart(Merge(busy)))
    ensures AllNonEmpty(SortByStart(Merge(busy))) && AllInDay(SortByStart(Merge(busy)))
    ensures forall p :: Busy(p, SortByStart(Merge(busy))) <==> Busy(p, busy)
  {
    MergeCoverage(busy);
    MergedInDay(busy);
    var merged := Merge(busy);
    SortedStackIsReverse(merged);
    var asc := SortByStart(merged);
    forall i | 0 <= i < |asc| ensures asc[i].NonEmpty() && InDay(asc[i]) {
      assert asc[i] in merged;
    }
    forall p ensures Busy(p, asc) <==> Busy(p, merged) {
      if Busy(p, asc) {
        var r :| r in asc && r.ContainsPoint(p);
        assert r in merged;
      }
      if Busy(p, merged) {
        var r :| r in merged && r.ContainsPoint(p);
        assert r in asc;
      }
    }
  }
}
