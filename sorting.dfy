/**
 * List.sort with ORDER_BY_START, modelled as a stable insertion sort on sequences: the result is
 * ordered by start and holds exactly the ranges of the input.
 */
module Sorting {
  import opened TimeRanges

  /** Starts never decrease along s. */
  predicate SortedByStart(s: seq<TimeRange>) {
    forall i, j :: 0 <= i < j < |s| ==> StartsNoLater(s[i], s[j])
  }

  /** Inserts x before the first range that starts no earlier than x. */
  function InsertByStart(x: TimeRange, s: seq<TimeRange>): (r: seq<TimeRange>)
    requires SortedByStart(s)
    ensures SortedByStart(r)
    ensures multiset(r) == multiset(s) + multiset{x}
    ensures r[0] == x || r[0] == s[0]
  {
    if s == [] || x.start <= s[0].start then
      [x] + s
    else
      var rest := InsertByStart(x, s[1..]);
      assert s == [s[0]] + s[1..];
      SortedCons(s[0], rest);
      [s[0]] + rest
  }

  /** A range starting no later than the first range of a sorted sequence can go in front of it. */
  lemma SortedCons(h: TimeRange, t: seq<TimeRange>)
    requires SortedByStart(t)
    requires t != [] ==> h.start <= t[0].start
    ensures SortedByStart([h] + t)
  {
  }

  /** Sorts s by start; ranges with equal starts keep their input order. */
  function SortByStart(s: seq<TimeRange>): (r: seq<TimeRange>)
    ensures SortedByStart(r)
    ensures multiset(r) == multiset(s)
  {
    if s == [] then
      []
    else
      assert s == [s[0]] + s[1..];
      InsertByStart(s[0], SortByStart(s[1..]))
  }

  /** The elements of s, last first. */
  function Reverse(s: seq<TimeRange>): (r: seq<TimeRange>)
    ensures |r| == |s|
    ensures forall i :: 0 <= i < |s| ==> r[i] == s[|s| - 1 - i]
  {
    if s == [] then [] else Reverse(s[1..]) + [s[0]]
  }

  /** A range starting after every range of a sorted sequence goes to its end. */
  lemma {:induction false} InsertLatest(x: TimeRange, s: seq<TimeRange>)
    requires SortedByStart(s)
    requires forall i :: 0 <= i < |s| ==> s[i].start < x.start
    ensures InsertByStart(x, s) == s + [x]
  {
    if s != [] {
      InsertLatest(x, s[1..]);
      assert s == [s[0]] + s[1..];
    }
  }

  /** Sorting a sequence whose starts strictly decrease reverses it. */
  lemma {:induction false} SortOfDescendingIsReverse(s: seq<TimeRange>)
    requires forall i, j :: 0 <= i < j < |s| ==> s[j].start < s[i].start
    ensures SortByStart(s) == Reverse(s)
  {
    if s != [] {
      SortOfDescendingIsReverse(s[1..]);
      var tail := Reverse(s[1..]);
      assert forall i :: 0 <= i < |tail| ==> tail[i] == s[|s| - 1 - i];
      InsertLatest(s[0], tail);
    }
  }
}
