/**
 * The stack merge of busy ranges (mergeAllUnavailabilities), stated as a fold over the sorted input.
 * A stack is a sequence whose element 0 is the top: push is [x] + stack, and the sequence read from
 * index 0 is what ArrayDeque.toArray returns.
 */
module Merging {
  import opened TimeRanges
  import opened Sorting

  /** Every range of rs has at least one minute. */
  predicate AllNonEmpty(rs: seq<TimeRange>) {
    forall i :: 0 <= i < |rs| ==> rs[i].NonEmpty()
  }

  /** Read from the top, each range lies wholly after the ranges beneath it. */
  predicate Descending(stack: seq<TimeRange>) {
    forall i, j :: 0 <= i < j < |stack| ==> stack[j].end <= stack[i].start
  }

  /** Minute p lies in some range of rs. */
  ghost predicate Busy(p: int, rs: seq<TimeRange>) {
    exists r :: r in rs && r.ContainsPoint(p)
  }

  /** Some range of rs contains all of r. */
  ghost predicate ContainedInSome(r: TimeRange, rs: seq<TimeRange>) {
    exists m :: m in rs && m.Contains(r)
  }

  /** One iteration of the merge loop: cur against the top of the stack. */
  function MergeInto(stack: seq<TimeRange>, cur: TimeRange): (r: seq<TimeRange>)
    requires stack != []
    ensures 0 < |r| <= |stack| + 1
  {
    var top := stack[0];
    if !top.Overlaps(cur) then [cur] + stack
    else if top.Contains(cur) then stack
    else [FromStartEnd(top.start, cur.end, false)] + stack[1..]
  }

  /** The stack once the loop has consumed sorted[..i]. */
  function MergePrefix(sorted: seq<TimeRange>, i: nat): (r: seq<TimeRange>)
    requires 1 <= i <= |sorted|
    ensures 0 < |r| <= i
  {
    if i == 1 then [sorted[0]] else MergeInto(MergePrefix(sorted, i - 1), sorted[i - 1])
  }

  /** The merged stack, top first, for a non-empty list of busy ranges. */
  function Merge(unavailabilities: seq<TimeRange>): seq<TimeRange>
    requires unavailabilities != []
  {
    var sorted := SortByStart(unavailabilities);
    assert |multiset(sorted)| == |unavailabilities|;
    MergePrefix(sorted, |sorted|)
  }

  /**
   * The shape of the stack after consuming sorted[..i]: no larger than the input consumed, non-empty
   * ranges apart from one another top-first, and a top starting no later than any range to come.
   */
  predicate StackShaped(sorted: seq<TimeRange>, i: nat, stack: seq<TimeRange>) {
    && 0 < |stack| <= i <= |sorted|
    && AllNonEmpty(stack)
    && Descending(stack)
    && (forall j :: i <= j < |sorted| ==> stack[0].start <= sorted[j].start)
  }

  /** Every range consumed lies inside a range of the stack. */
  ghost predicate StackContains(sorted: seq<TimeRange>, i: nat, stack: seq<TimeRange>)
    requires i <= |sorted|
  {
    forall j :: 0 <= j < i ==> ContainedInSome(sorted[j], stack)
  }

  /** Every minute of the stack is a minute of a range consumed. */
  ghost predicate StackBusy(sorted: seq<TimeRange>, i: nat, stack: seq<TimeRange>)
    requires i <= |sorted|
  {
    forall p :: Busy(p, stack) ==> Busy(p, sorted[..i])
  }

  /** What holds of the stack after consuming sorted[..i]. */
  ghost predicate StackInvariant(sorted: seq<TimeRange>, i: nat, stack: seq<TimeRange>) {
    && StackShaped(sorted, i, stack)
    && StackContains(sorted, i, stack)
    && StackBusy(sorted, i, stack)
  }

  /** Merging sorted[i - 1] into the stack keeps its shape. */
  lemma MergeIntoShaped(sorted: seq<TimeRange>, i: nat, stack: seq<TimeRange>)
    requires SortedByStart(sorted) && AllNonEmpty(sorted)
    requires 1 < i <= |sorted|
    requires StackShaped(sorted, i - 1, stack)
    ensures StackShaped(sorted, i, MergeInto(stack, sorted[i - 1]))
  {
  }

  /** Merging sorted[i - 1] into the stack keeps every consumed range inside a stack range. */
  lemma MergeIntoContains(sorted: seq<TimeRange>, i: nat, stack: seq<TimeRange>)
    requires SortedByStart(sorted) && AllNonEmpty(sorted)
    requires 1 < i <= |sorted|
    requires StackShaped(sorted, i - 1, stack) && StackContains(sorted, i - 1, stack)
    ensures StackContains(sorted, i, MergeInto(stack, sorted[i - 1]))
  {
    var top, cur := stack[0], sorted[i - 1];
    var next := MergeInto(stack, cur);
    if !top.Overlaps(cur) {
      forall j | 0 <= j < i ensures ContainedInSome(sorted[j], next) {
        if j == i - 1 {
          assert next[0] == cur && cur.Contains(cur);
        } else {
          assert ContainedInSome(sorted[j], stack);
          var m :| m in stack && m.Contains(sorted[j]);
          assert m in next;
        }
      }
    } else if top.Contains(cur) {
      forall j | 0 <= j < i ensures ContainedInSome(sorted[j], next) {
        if j == i - 1 {
          assert top in next;
        }
      }
    } else {
      var merged := FromStartEnd(top.start, cur.end, false);
      assert next == [merged] + stack[1..];
      assert merged.Contains(top) && merged.Contains(cur);
      forall j | 0 <= j < i ensures ContainedInSome(sorted[j], next) {
        if j == i - 1 {
          assert merged in next;
        } else {
          assert ContainedInSome(sorted[j], stack);
          var m :| m in stack && m.Contains(sorted[j]);
          if m == top {
            assert merged in next;
          } else {
            var k :| 0 <= k < |stack| && stack[k] == m;
            assert k != 0;
            assert m in next;
          }
        }
      }
    }
  }

  /** Merging sorted[i - 1] into the stack adds no minute that the consumed ranges do not cover. */
  lemma MergeIntoBusy(sorted: seq<TimeRange>, i: nat, stack: seq<TimeRange>)
    requires SortedByStart(sorted) && AllNonEmpty(sorted)
    requires 1 < i <= |sorted|
    requires StackShaped(sorted, i - 1, stack) && StackBusy(sorted, i - 1, stack)
    ensures StackBusy(sorted, i, MergeInto(stack, sorted[i - 1]))
  {
    var top, cur := stack[0], sorted[i - 1];
    var next := MergeInto(stack, cur);
    assert sorted[..i] == sorted[..i - 1] + [cur];
    assert cur in sorted[..i];
    forall p | Busy(p, stack) ensures Busy(p, sorted[..i]) {
      assert Busy(p, sorted[..i - 1]);
      var r :| r in sorted[..i - 1] && r.ContainsPoint(p);
      assert r in sorted[..i];
    }
    if !top.Overlaps(cur) {
      forall p | Busy(p, next) ensures Busy(p, sorted[..i]) {
        var r :| r in next && r.ContainsPoint(p);
        if r != cur {
          assert r in stack;
          assert Busy(p, stack);
        }
      }
    } else if !top.Contains(cur) {
      var merged := FromStartEnd(top.start, cur.end, false);
      assert next == [merged] + stack[1..];
      forall p | Busy(p, next) ensures Busy(p, sorted[..i]) {
        var r :| r in next && r.ContainsPoint(p);
        if r == merged {
          if p < top.end {
            assert top.ContainsPoint(p) && top in stack;
            assert Busy(p, stack);
          } else {
            assert StartsNoLater(top, cur) by {
              assert forall j :: i - 1 <= j < |sorted| ==> top.start <= sorted[j].start;
            }
            assert cur.ContainsPoint(p);
          }
        } else {
          var k :| 0 <= k < |next| && next[k] == r;
          assert k != 0 && stack[k] == r;
          assert Busy(p, stack);
        }
      }
    }
  }

  /** The loop invariant holds after every iteration. */
  lemma {:induction false} MergePrefixInvariant(sorted: seq<TimeRange>, i: nat)
    requires SortedByStart(sorted) && AllNonEmpty(sorted)
    requires 1 <= i <= |sorted|
    ensures StackInvariant(sorted, i, MergePrefix(sorted, i))
  {
    if i == 1 {
      var stack := [sorted[0]];
      assert sorted[..1] == stack;
      forall j | 1 <= j < |sorted| ensures stack[0].start <= sorted[j].start {
        assert StartsNoLater(sorted[0], sorted[j]);
      }
      assert ContainedInSome(sorted[0], stack) by {
        assert sorted[0] in stack && sorted[0].Contains(sorted[0]);
      }
    } else {
      var stack := MergePrefix(sorted, i - 1);
      MergePrefixInvariant(sorted, i - 1);
      MergeIntoShaped(sorted, i, stack);
      MergeIntoContains(sorted, i, stack);
      MergeIntoBusy(sorted, i, stack);
    }
  }

  /**
   * The merged stack is non-empty, no longer than the input, top-first ordered with no two ranges
   * sharing a minute; every input range lies inside one merged range, and the merged ranges cover
   * exactly the minutes the input ranges cover.
   */
  lemma MergeCoverage(unavailabilities: seq<TimeRange>)
    requires unavailabilities != [] && AllNonEmpty(unavailabilities)
    ensures 0 < |Merge(unavailabilities)| <= |unavailabilities|
    ensures AllNonEmpty(Merge(unavailabilities)) && Descending(Merge(unavailabilities))
    ensures forall r :: r in unavailabilities ==> ContainedInSome(r, Merge(unavailabilities))
    ensures forall p :: Busy(p, Merge(unavailabilities)) <==> Busy(p, unavailabilities)
  {
    var sorted := SortByStart(unavailabilities);
    var merged := Merge(unavailabilities);
    assert |multiset(sorted)| == |unavailabilities|;
    assert forall r :: r in sorted <==> r in unavailabilities by {
      forall r ensures r in sorted <==> r in unavailabilities {
        assert r in sorted <==> r in multiset(sorted);
        assert r in unavailabilities <==> r in multiset(unavailabilities);
      }
    }
    forall k | 0 <= k < |sorted| ensures sorted[k].NonEmpty() {
      assert sorted[k] in unavailabilities;
    }
    MergePrefixInvariant(sorted, |sorted|);
    assert sorted[..|sorted|] == sorted;
    forall r | r in unavailabilities ensures ContainedInSome(r, merged) {
      var j :| 0 <= j < |sorted| && sorted[j] == r;
    }
    forall p | Busy(p, unavailabilities) ensures Busy(p, merged) {
      var r :| r in unavailabilities && r.ContainsPoint(p);
      var j :| 0 <= j < |sorted| && sorted[j] == r;
      var m :| m in merged && m.Contains(r);
      assert m.ContainsPoint(p);
    }
    forall p | Busy(p, merged) ensures Busy(p, unavailabilities) {
      var r :| r in sorted && r.ContainsPoint(p);
    }
  }

  /** A non-empty range whose minutes all lie in ranges inside [lo, hi) lies inside [lo, hi). */
  lemma CoveredRangeWithin(m: TimeRange, rs: seq<TimeRange>, lo: int, hi: int)
    requires m.NonEmpty()
    requires forall p :: m.ContainsPoint(p) ==> Busy(p, rs)
    requires forall i :: 0 <= i < |rs| ==> lo <= rs[i].start && rs[i].end <= hi
    ensures lo <= m.start && m.end <= hi
  {
    assert m.ContainsPoint(m.start) && m.ContainsPoint(m.end - 1);
    var a :| a in rs && a.ContainsPoint(m.start);
    var b :| b in rs && b.ContainsPoint(m.end - 1);
  }
}
