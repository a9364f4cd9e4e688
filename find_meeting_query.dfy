/**
 * FindMeetingQuery: the free slots of one day in which a requested meeting fits, given the events
 * already on the calendar. query tries mandatory and optional attendees together and falls back to
 * the mandatory attendees alone; findAvailability collects the busy ranges of the attendees, merges
 * them and walks the gaps between them.
 */
module FindMeetingQuery {
  import opened TimeRanges
  import opened Sorting
  import opened Merging
  import opened Gaps

  /** An event on the calendar: when it takes place and who attends it. */
  datatype Event = Event(title: string, when: TimeRange, attendees: set<string>)

  /** A request for a meeting of duration minutes with mandatory and optional attendees. */
  datatype MeetingRequest = MeetingRequest(attendees: set<string>, optionalAttendees: set<string>, duration: nat)

  /** The event takes at least one minute and lies within the day. */
  predicate WellFormed(e: Event) {
    e.when.NonEmpty() && InDay(e.when)
  }

  predicate AllWellFormed(events: seq<Event>) {
    forall e :: e in events ==> WellFormed(e)
  }

  /** Some attendee of e is among attendees (the negation of Collections.disjoint). */
  predicate Conflicts(e: Event, attendees: set<string>) {
    e.attendees * attendees != {}
  }

  /** Minute p is taken by an event that one of attendees attends. */
  ghost predicate Occupied(p: int, events: seq<Event>, attendees: set<string>) {
    exists e :: e in events && Conflicts(e, attendees) && e.when.ContainsPoint(p)
  }

  /** No minute of [a, b) is taken by an event of attendees. */
  ghost predicate FreeFor(a: int, b: int, events: seq<Event>, attendees: set<string>) {
    forall p :: a <= p < b ==> !Occupied(p, events, attendees)
  }

  /** The ranges of the events that one of attendees attends, in event order. */
  function Unavailabilities(events: seq<Event>, attendees: set<string>): (r: seq<TimeRange>)
    ensures |r| <= |events|
    ensures r == [] <==> forall e :: e in events ==> !Conflicts(e, attendees)
  {
    if events == [] then
      []
    else
      var e := events[|events| - 1];
      var rest := Unavailabilities(events[..|events| - 1], attendees);
      assert events == events[..|events| - 1] + [e];
      if Conflicts(e, attendees) then rest + [e.when] else rest
  }

  /** The free slots of the day for attendees, as findAvailability computes them. */
  function Availability(events: seq<Event>, duration: nat, attendees: set<string>): seq<TimeRange> {
    var busy := Unavailabilities(events, attendees);
    if busy == [] then [WHOLE_DAY] else FreeSlots(SortByStart(Merge(busy)), duration)
  }

  /** A range is collected exactly when it is the range of an event one of attendees attends. */
  lemma {:induction false} UnavailabilitiesExact(events: seq<Event>, attendees: set<string>)
    ensures forall t :: t in Unavailabilities(events, attendees) <==>
      exists e :: e in events && Conflicts(e, attendees) && e.when == t
  {
    if events != [] {
      var e := events[|events| - 1];
      var init := events[..|events| - 1];
      UnavailabilitiesExact(init, attendees);
      assert events == init + [e];
    }
  }

  /** The collected ranges are well formed and busy at exactly the minutes the attendees' events take. */
  lemma UnavailabilitiesBusy(events: seq<Event>, attendees: set<string>)
    requires AllWellFormed(events)
    ensures AllNonEmpty(Unavailabilities(events, attendees)) && AllInDay(Unavailabilities(events, attendees))
    ensures forall p :: Busy(p, Unavailabilities(events, attendees)) <==> Occupied(p, events, attendees)
  {
    var busy := Unavailabilities(events, attendees);
    UnavailabilitiesExact(events, attendees);
    forall i | 0 <= i < |busy| ensures busy[i].NonEmpty() && InDay(busy[i]) {
      assert busy[i] in busy;
    }
    forall p ensures Busy(p, busy) <==> Occupied(p, events, attendees) {
      if Busy(p, busy) {
        var t :| t in busy && t.ContainsPoint(p);
        var e :| e in events && Conflicts(e, attendees) && e.when == t;
      }
      if Occupied(p, events, attendees) {
        var e :| e in events && Conflicts(e, attendees) && e.when.ContainsPoint(p);
        assert e.when in busy;
      }
    }
  }

  /** The busy ranges findAvailability walks: ascending, inside the day, busy where the events are. */
  lemma SortedMergeOfEvents(events: seq<Event>, attendees: set<string>)
    requires AllWellFormed(events)
    requires Unavailabilities(events, attendees) != []
    ensures Ascending(SortByStart(Merge(Unavailabilities(events, attendees))))
    ensures AllNonEmpty(SortByStart(Merge(Unavailabilities(events, attendees))))
    ensures AllInDay(SortByStart(Merge(Unavailabilities(events, attendees))))
    ensures forall p :: Busy(p, SortByStart(Merge(Unavailabilities(events, attendees)))) <==> Occupied(p, events, attendees)
  {
    UnavailabilitiesBusy(events, attendees);
    SortedMergeIsAscending(Unavailabilities(events, attendees));
  }

  /** Availability is the whole day exactly when no event of attendees is on the calendar. */
  lemma AvailabilityWholeDay(events: seq<Event>, duration: nat, attendees: set<string>)
    requires AllWellFormed(events)
    ensures Availability(events, duration, attendees) == [WHOLE_DAY] <==>
      forall e :: e in events ==> !Conflicts(e, attendees)
  {
    var busy := Unavailabilities(events, attendees);
    if e :| e in events && Conflicts(e, attendees) {
      UnavailabilitiesExact(events, attendees);
      assert e.when in busy;
      SortedMergeOfEvents(events, attendees);
      var asc := SortByStart(Merge(busy));
      FreeSlotsFree(asc, duration);
      assert Occupied(e.when.start, events, attendees) && Busy(e.when.start, asc);
      assert WHOLE_DAY.ContainsPoint(e.when.start);
      assert WHOLE_DAY !in FreeSlots(asc, duration);
    }
  }

  /**
   * Every free slot for attendees lies inside the day, takes no minute of their events, starts at
   * START_OF_DAY or right after a taken minute and ends at 24:00 or at a taken minute; the slots are
   * in ascending order with a taken minute between each two; and when the duration is at most 23:59
   * every slot meets it, counting the final slot only up to END_OF_DAY.
   */
  lemma AvailabilitySound(events: seq<Event>, duration: nat, attendees: set<string>)
    requires AllWellFormed(events)
    ensures forall i, j :: 0 <= i < j < |Availability(events, duration, attendees)| ==>
      Availability(events, duration, attendees)[i].end < Availability(events, duration, attendees)[j].start
    ensures forall s :: s in Availability(events, duration, attendees) ==>
      START_OF_DAY <= s.start <= s.end <= WHOLE_DAY.end
    ensures forall s, p :: s in Availability(events, duration, attendees) && s.ContainsPoint(p) ==>
      !Occupied(p, events, attendees)
    ensures forall s :: s in Availability(events, duration, attendees) ==>
      (s.start == START_OF_DAY || Occupied(s.start - 1, events, attendees)) &&
      (s.end == WHOLE_DAY.end || Occupied(s.end, events, attendees))
    ensures duration <= END_OF_DAY ==> forall s :: s in Availability(events, duration, attendees) ==>
      Clip(s.end) - s.start >= duration
  {
    var busy := Unavailabilities(events, attendees);
    if busy == [] {
      assert forall e :: e in events ==> !Conflicts(e, attendees);
    } else {
      SortedMergeOfEvents(events, attendees);
      var asc := SortByStart(Merge(busy));
      FreeSlotsShaped(asc, duration);
      FreeSlotsFree(asc, duration);
      FreeSlotsAtEdges(asc, duration);
      forall s | s in FreeSlots(asc, duration)
        ensures (s.start == START_OF_DAY || Occupied(s.start - 1, events, attendees)) &&
                (s.end == WHOLE_DAY.end || Occupied(s.end, events, attendees))
      {
        if s.start != START_OF_DAY {
          var j :| 0 <= j < |asc| && asc[j].end == s.start;
          assert asc[j] in asc && asc[j].ContainsPoint(s.start - 1);
          assert Busy(s.start - 1, asc);
        }
        if s.end != WHOLE_DAY.end {
          var j :| 0 <= j < |asc| && asc[j].start == s.end;
          assert asc[j] in asc && asc[j].ContainsPoint(s.end);
          assert Busy(s.end, asc);
        }
      }
    }
  }

  /**
   * Every window of the day in which no event of attendees takes a minute, and which is long enough
   * for the duration as the source measures it, lies inside one of the free slots.
   */
  lemma AvailabilityComplete(events: seq<Event>, duration: nat, attendees: set<string>)
    requires AllWellFormed(events)
    ensures forall a, b ::
      (START_OF_DAY <= a < b <= WHOLE_DAY.end && FreeFor(a, b, events, attendees) && Clip(b) - a >= duration) ==>
      Covered(a, b, Availability(events, duration, attendees))
  {
    var busy := Unavailabilities(events, attendees);
    if busy == [] {
      forall a, b | START_OF_DAY <= a < b <= WHOLE_DAY.end
        ensures Covered(a, b, Availability(events, duration, attendees))
      {
        assert WHOLE_DAY in Availability(events, duration, attendees);
      }
    } else {
      SortedMergeOfEvents(events, attendees);
      var asc := SortByStart(Merge(busy));
      FreeSlotsComplete(asc, duration);
      forall a, b | START_OF_DAY <= a < b <= WHOLE_DAY.end && FreeFor(a, b, events, attendees)
        ensures FreeWindow(a, b, asc)
      {
        forall p | a <= p < b ensures !Busy(p, asc) {
          assert !Occupied(p, events, attendees);
        }
      }
    }
  }

  /** Adding attendees can only take more minutes. */
  lemma OccupiedGrows(events: seq<Event>, fewer: set<string>, more: set<string>, p: int)
    requires fewer <= more
    requires Occupied(p, events, fewer)
    ensures Occupied(p, events, more)
  {
  }

  /**
   * mergeAllUnavailabilities: sorts the busy ranges by start and sweeps them with a stack, returning
   * the stack top first.
   */
  method MergeAllUnavailabilities(unavailabilities: seq<TimeRange>) returns (merged: seq<TimeRange>)
    requires unavailabilities != [] && AllNonEmpty(unavailabilities)
    ensures merged == Merge(unavailabilities)
    ensures 0 < |merged| <= |unavailabilities| && AllNonEmpty(merged) && Descending(merged)
    ensures forall r :: r in unavailabilities ==> ContainedInSome(r, merged)
    ensures forall p :: Busy(p, merged) <==> Busy(p, unavailabilities)
  {
    var sorted := SortByStart(unavailabilities);
    assert |multiset(sorted)| == |unavailabilities|;
    var stack := [sorted[0]];
    for i := 1 to |sorted|
      invariant stack == MergePrefix(sorted, i)
    {
      var top := stack[0];
      var currentRange := sorted[i];
      if !top.Overlaps(currentRange) {
        stack := [currentRange] + stack;
      } else if top.Contains(currentRange) {
        continue;
      } else {
        stack := [FromStartEnd(top.start, currentRange.end, false)] + stack[1..];
      }
    }
    merged := stack;
    MergeCoverage(unavailabilities);
  }

  /**
   * The first loop of findAvailability: the ranges of the events that one of attendees attends, in
   * event order; none exactly when no event has one of attendees among its attendees.
   */
  method CollectUnavailabilities(events: seq<Event>, attendees: set<string>)
    returns (unavailabilities: seq<TimeRange>)
    ensures unavailabilities == Unavailabilities(events, attendees)
    ensures unavailabilities == [] <==> forall e :: e in events ==> !Conflicts(e, attendees)
  {
    unavailabilities := [];
    for k := 0 to |events|
      invariant unavailabilities == Unavailabilities(events[..k], attendees)
    {
      assert events[..k + 1][..k] == events[..k] && events[..k + 1][k] == events[k];
      if Conflicts(events[k], attendees) {
        unavailabilities := unavailabilities + [events[k].when];
      }
    }
    assert events[..|events|] == events;
  }

  /**
   * The second loop of findAvailability: walks the ascending busy ranges with a cursor, emitting each
   * gap of at least duration minutes, and closes with the gap up to the end of the day.
   */
  method FindGaps(mergedUnavailabilities: seq<TimeRange>, duration: nat) returns (availabilities: seq<TimeRange>)
    ensures availabilities == FreeSlots(mergedUnavailabilities, duration)
  {
    availabilities := [];
    var start := START_OF_DAY;
    for k := 0 to |mergedUnavailabilities|
      invariant Walk(availabilities, start) == WalkPrefix(mergedUnavailabilities, k, duration)
    {
      var interval := mergedUnavailabilities[k];
      if interval.start - start >= duration {
        availabilities := availabilities + [FromStartEnd(start, interval.start, false)];
      }
      start := interval.end;
    }
    if END_OF_DAY - start >= duration {
      availabilities := availabilities + [FromStartEnd(start, END_OF_DAY, true)];
    }
  }

  /**
   * findAvailability: collects the ranges of the events attendees attend, merges and re-sorts them,
   * and emits each gap of at least the duration, closing with the gap up to the end of the day.
   */
  method FindAvailability(events: seq<Event>, request: MeetingRequest, attendees: set<string>)
    returns (availabilities: seq<TimeRange>)
    requires AllWellFormed(events)
    ensures availabilities == Availability(events, request.duration, attendees)
  {
    var unavailabilities := CollectUnavailabilities(events, attendees);
    if unavailabilities == [] {
      return [WHOLE_DAY];
    }
    assert AllNonEmpty(unavailabilities) by {
      UnavailabilitiesBusy(events, attendees);
    }
    var mergedUnavailabilities := MergeAllUnavailabilities(unavailabilities);
    mergedUnavailabilities := SortByStart(mergedUnavailabilities);
    availabilities := FindGaps(mergedUnavailabilities, request.duration);
  }

  /**
   * query: the whole day when there are no mandatory attendees, nothing when the duration exceeds
   * 23:59, otherwise the slots for everyone, or for the mandatory attendees alone when there are none
   * for everyone. Every slot returned is free for the mandatory attendees and lies inside the day.
   */
  method Query(events: seq<Event>, request: MeetingRequest) returns (result: seq<TimeRange>)
    requires AllWellFormed(events)
    ensures request.attendees == {} ==> result == [WHOLE_DAY]
    ensures request.attendees != {} && request.duration > GetTimeInMinutes(23, 59) ==> result == []
    ensures request.attendees != {} && request.duration <= GetTimeInMinutes(23, 59) ==>
      var everyone := Availability(events, request.duration, request.attendees + request.optionalAttendees);
      result == if everyone != [] then everyone else Availability(events, request.duration, request.attendees)
    ensures forall s, p :: s in result && s.ContainsPoint(p) ==> !Occupied(p, events, request.attendees)
    ensures forall s :: s in result ==> START_OF_DAY <= s.start <= s.end <= WHOLE_DAY.end
    ensures request.attendees != {} ==> forall s :: s in result ==> Clip(s.end) - s.start >= request.duration
  {
    if request.attendees == {} {
      return [WHOLE_DAY];
    }
    if request.duration > GetTimeInMinutes(23, 59) {
      return [];
    }
    var attendees := request.attendees + request.optionalAttendees;
    var allAttendeesAvailabilities := FindAvailability(events, request, attendees);
    if allAttendeesAvailabilities == [] {
      result := FindAvailability(events, request, request.attendees);
      AvailabilitySound(events, request.duration, request.attendees);
      return;
    }
    AvailabilitySound(events, request.duration, attendees);
    forall s, p | s in allAttendeesAvailabilities && s.ContainsPoint(p)
      ensures !Occupied(p, events, request.attendees)
    {
      if Occupied(p, events, request.attendees) {
        OccupiedGrows(events, request.attendees, attendees, p);
      }
    }
    result := allAttendeesAvailabilities;
  }
}
