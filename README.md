# FindMeetingQuery, modelled in Dafny

This project models the meeting-slot finder of the STEP week-5 walkthrough (`FindMeetingQuery`).
Given the events of one day and a meeting request, it returns the free slots in which the
requested meeting fits. The finder works in three steps:

- `query` answers two edge cases directly: no mandatory attendees, and a duration longer than
  23:59.
- Otherwise `query` asks `findAvailability` for slots free for everyone, mandatory and optional
  attendees together. When there are none, it asks again for the mandatory attendees alone.
- `findAvailability` collects the time ranges of the events that one of the attendees attends.
  `mergeAllUnavailabilities` merges those ranges with a sort-then-stack sweep. The result is
  sorted again by start. A cursor then walks the busy ranges and emits every gap that is long
  enough, and the last gap runs to the end of the day.

The project has five modules:

- `TimeRanges` (`time_range.dfy`): the half-open minute interval `TimeRange` with `overlaps`,
  `contains`, `fromStartEnd` and `getTimeInMinutes`, plus the constants `START_OF_DAY` (0),
  `END_OF_DAY` (23:59 = 1439) and `WHOLE_DAY` ([0, 1440)).
- `Sorting` (`sorting.dfy`): the sort by `ORDER_BY_START`, as a stable insertion sort.
- `Merging` (`merging.dfy`): the stack merge as a fold (`MergePrefix`) and its loop invariant.
- `Gaps` (`gaps.dfy`): the cursor walk as a fold (`WalkPrefix`, `FreeSlots`) and its invariants.
- `FindMeetingQuery` (`find_meeting_query.dfy`): `Event`, `MeetingRequest`, the three methods of
  the class and the properties of the whole finder.

Each loop of the class is a Dafny method with a `while`/`for` loop. Each method is proved equal to
a specification function on sequences. The finder's properties are lemmas about those functions:

- the slots are ordered and apart;
- they lie inside the day and share no minute with an attendee's event;
- they cannot be grown;
- every free window long enough as the code measures it (the final window counted only up to
  23:59) lies inside one of them;
- the merged ranges cover exactly the minutes the events cover;
- the fallback rule of `query` holds.

Stacks are sequences with the top at index 0. A push is `[x] + stack`, and the sequence read from
index 0 is what `ArrayDeque.toArray` returns. The merged list is therefore top-first, in
descending order, as in the source, and re-sorting it is proved to reverse it.

Two behaviours of the code shape the model:

- `END_OF_DAY` is 23:59, not 24:00. The final slot is built with the inclusive flag and so ends at
  24:00. The final-slot test `END_OF_DAY - start >= duration` (`FindMeetingQuery.java:79`)
  measures the last gap only up to 23:59 (`Gaps.Clip`). A final gap of exactly `duration`
  minutes is therefore not returned: after a busy range ending at 23:30, a 30-minute meeting gets
  no slot although [23:30, 24:00) is free (`Gaps.FinalGapOfExactDuration`).
- The early `WHOLE_DAY` answer tests only the mandatory attendees (`FindMeetingQuery.java:29`). A
  request with only optional attendees gets the whole day.

## Model

| member | source | states |
|---|---|---|
| FindMeetingQuery.Query | walkthroughs/week-5-tdd/project/src/main/java/com/google/sps/FindMeetingQuery.java:26-49 | no mandatory attendees gives exactly `[WHOLE_DAY]`; a duration over `getTimeInMinutes(23, 59)` gives nothing; otherwise the availability for mandatory plus optional attendees when it is non-empty, else the availability for the mandatory attendees; every slot returned lies in the day, shares no minute with a mandatory attendee's event, and meets the duration (the final slot counted up to 23:59) |
| FindMeetingQuery.OccupiedGrows | walkthroughs/week-5-tdd/project/src/main/java/com/google/sps/FindMeetingQuery.java:37-45 | a minute taken for the mandatory attendees is taken for any larger attendee set, so the slots free for everyone are free for the mandatory attendees |
| FindMeetingQuery.FindAvailability | walkthroughs/week-5-tdd/project/src/main/java/com/google/sps/FindMeetingQuery.java:52-83 | the slots computed equal `Availability`: the whole day when no event concerns the attendees, else the free slots around the merged, re-sorted busy ranges |
| FindMeetingQuery.CollectUnavailabilities | walkthroughs/week-5-tdd/project/src/main/java/com/google/sps/FindMeetingQuery.java:55-60 | the loop collects `Unavailabilities`, in event order, and collects nothing exactly when no event shares an attendee with the set |
| FindMeetingQuery.UnavailabilitiesExact | walkthroughs/week-5-tdd/project/src/main/java/com/google/sps/FindMeetingQuery.java:55-60 | a range is collected if and only if it is the range of an event that shares an attendee with the set (`Collections.disjoint` is false) |
| FindMeetingQuery.UnavailabilitiesBusy | walkthroughs/week-5-tdd/project/src/main/java/com/google/sps/FindMeetingQuery.java:55-60 | the collected ranges are non-empty and inside the day, and a minute is in a collected range if and only if an event of the attendees takes it |
| FindMeetingQuery.AvailabilityWholeDay | walkthroughs/week-5-tdd/project/src/main/java/com/google/sps/FindMeetingQuery.java:61-64 | the availability is `[WHOLE_DAY]` if and only if no event shares an attendee with the set |
| FindMeetingQuery.SortedMergeOfEvents | walkthroughs/week-5-tdd/project/src/main/java/com/google/sps/FindMeetingQuery.java:65-66 | the merged and re-sorted busy ranges are ascending, non-empty, inside the day, and busy at exactly the minutes the attendees' events take |
| FindMeetingQuery.AvailabilitySound | walkthroughs/week-5-tdd/project/src/main/java/com/google/sps/FindMeetingQuery.java:61-82 | the slots are in ascending order with a gap between any two, lie inside the day, take no minute of an attendee's event, start at 00:00 or right after a taken minute and end at 24:00 or at a taken minute, and (for a duration up to 23:59) meet the duration with the final slot counted up to 23:59 |
| FindMeetingQuery.AvailabilityComplete | walkthroughs/week-5-tdd/project/src/main/java/com/google/sps/FindMeetingQuery.java:61-82 | every window of the day that no attendee's event touches, long enough for the duration as the code measures it, lies inside one returned slot |
| FindMeetingQuery.MergeAllUnavailabilities | walkthroughs/week-5-tdd/project/src/main/java/com/google/sps/FindMeetingQuery.java:89-114 | the sweep returns `Merge` of its input: no more ranges than the input, non-empty, top-first with each range wholly after those below it; every input range inside one merged range; a minute merged if and only if some input range covers it |
| FindMeetingQuery.FindGaps | walkthroughs/week-5-tdd/project/src/main/java/com/google/sps/FindMeetingQuery.java:69-81 | the cursor loop and the final check emit exactly `FreeSlots` of the busy ranges |
| Merging.MergeIntoShaped | walkthroughs/week-5-tdd/project/src/main/java/com/google/sps/FindMeetingQuery.java:97-110 | one iteration of the sweep keeps the stack non-empty, no larger than the input consumed, top-first ordered without overlaps, and with a top starting no later than any range to come |
| Merging.MergeIntoContains | walkthroughs/week-5-tdd/project/src/main/java/com/google/sps/FindMeetingQuery.java:97-110 | one iteration keeps every consumed range inside some stack range (push, skip when contained, or widen the top) |
| Merging.MergeIntoBusy | walkthroughs/week-5-tdd/project/src/main/java/com/google/sps/FindMeetingQuery.java:97-110 | one iteration adds to the stack no minute that the consumed ranges do not cover |
| Merging.MergePrefixInvariant | walkthroughs/week-5-tdd/project/src/main/java/com/google/sps/FindMeetingQuery.java:91-110 | after pushing the first range and after every iteration, the stack is shaped as above, contains every consumed range and covers only consumed minutes |
| Merging.MergeCoverage | walkthroughs/week-5-tdd/project/src/main/java/com/google/sps/FindMeetingQuery.java:89-113 | the merge returns at most as many ranges as its input, non-empty and ordered without overlaps, with every input range contained in a merged one and exactly the input's minutes covered |
| Gaps.WalkShaped | walkthroughs/week-5-tdd/project/src/main/java/com/google/sps/FindMeetingQuery.java:72-77 | along the walk the emitted gaps are in order with a gap between any two, start at or after 00:00, end before the cursor and by 23:59, and are each at least `duration` long |
| Gaps.WalkFree | walkthroughs/week-5-tdd/project/src/main/java/com/google/sps/FindMeetingQuery.java:72-77 | along the walk no emitted gap shares a minute with a busy range |
| Gaps.WalkAtEdges | walkthroughs/week-5-tdd/project/src/main/java/com/google/sps/FindMeetingQuery.java:72-77 | along the walk every emitted gap starts at 00:00 or where a busy range ends, and ends where a busy range starts |
| Gaps.WalkCovers | walkthroughs/week-5-tdd/project/src/main/java/com/google/sps/FindMeetingQuery.java:72-77 | along the walk every free window before the cursor that is at least `duration` long lies inside an emitted gap |
| Gaps.CursorBefore | walkthroughs/week-5-tdd/project/src/main/java/com/google/sps/FindMeetingQuery.java:70-76 | when the walk reaches a busy range, the cursor is 00:00 or the end of the previous busy range, never past the range's start, and the minute before it is busy |
| Gaps.CursorAtEnd | walkthroughs/week-5-tdd/project/src/main/java/com/google/sps/FindMeetingQuery.java:76-79 | after the walk the cursor is inside the day, at the end of the last busy range, and no minute from it on is busy |
| Gaps.CursorNeverDecreases | walkthroughs/week-5-tdd/project/src/main/java/com/google/sps/FindMeetingQuery.java:76 | the cursor never moves back as the walk proceeds |
| Gaps.FreeSlotsShaped | walkthroughs/week-5-tdd/project/src/main/java/com/google/sps/FindMeetingQuery.java:69-81 | the free slots are ascending with a gap between any two, lie within [00:00, 24:00], and meet the duration, the final slot counted only up to `END_OF_DAY` |
| Gaps.FreeSlotsFree | walkthroughs/week-5-tdd/project/src/main/java/com/google/sps/FindMeetingQuery.java:69-81 | no free slot shares a minute with a busy range |
| Gaps.FreeSlotsAtEdges | walkthroughs/week-5-tdd/project/src/main/java/com/google/sps/FindMeetingQuery.java:69-81 | every free slot starts at 00:00 or where a busy range ends, and ends at 24:00 (the inclusive final slot) or where a busy range starts |
| Gaps.FinalGapOfExactDuration | walkthroughs/week-5-tdd/project/src/main/java/com/google/sps/FindMeetingQuery.java:79-80 | after one busy range ending at 23:30, a 30-minute request gets no slot and a 29-minute request gets exactly [23:30, 24:00): the final gap must be longer than the duration |
| Gaps.FreeSlotsComplete | walkthroughs/week-5-tdd/project/src/main/java/com/google/sps/FindMeetingQuery.java:69-81 | every free window of the day long enough for the duration, as the code measures it, lies inside a free slot |
| Gaps.SortedMergeIsAscending | walkthroughs/week-5-tdd/project/src/main/java/com/google/sps/FindMeetingQuery.java:65-66 | re-sorting the merged stack gives ascending, non-empty ranges inside the day that cover exactly the minutes of the input |
| Gaps.SortedStackIsReverse | walkthroughs/week-5-tdd/project/src/main/java/com/google/sps/FindMeetingQuery.java:66 | sorting a top-first stack by start reverses it, giving ascending ranges with the same members |
| Gaps.MergedInDay | walkthroughs/week-5-tdd/project/src/main/java/com/google/sps/FindMeetingQuery.java:89-113 | merging ranges of the day gives non-empty ranges of the day |
| Gaps.ReverseOfDescending | walkthroughs/week-5-tdd/project/src/main/java/com/google/sps/FindMeetingQuery.java:66 | the stack read bottom-to-top is ascending and has the same members |
| Sorting.InsertByStart | walkthroughs/week-5-tdd/project/src/main/java/com/google/sps/FindMeetingQuery.java:91 | inserting into a sequence sorted by start keeps it sorted and adds exactly one occurrence of the range |
| Sorting.SortByStart | walkthroughs/week-5-tdd/project/src/main/java/com/google/sps/FindMeetingQuery.java:91 | the sort by `ORDER_BY_START` returns a sequence sorted by start that is a permutation of its input |
| Sorting.Reverse | walkthroughs/week-5-tdd/project/src/main/java/com/google/sps/FindMeetingQuery.java:66 | the bottom-up reading of the top-first stack that the re-sort produces has the input's length and holds element `n - 1 - i` at index `i` |
| Sorting.SortOfDescendingIsReverse | walkthroughs/week-5-tdd/project/src/main/java/com/google/sps/FindMeetingQuery.java:66 | sorting a sequence whose starts strictly decrease is the same as reversing it |
| Sorting.InsertLatest | walkthroughs/week-5-tdd/project/src/main/java/com/google/sps/FindMeetingQuery.java:66 | a range starting after every range of a sorted sequence is inserted at its end |
| TimeRanges.GetTimeInMinutes | walkthroughs/week-5-tdd/project/src/main/java/com/google/sps/FindMeetingQuery.java:33 | hours and minutes map to a minute of the day whose quotient by 60 is the hour and remainder the minute |
| TimeRanges.FromStartEnd | walkthroughs/week-5-tdd/project/src/main/java/com/google/sps/FindMeetingQuery.java:74 | the range starts at `start` and holds the minutes from `start` up to `end`, with `end` itself only when inclusive |
| TimeRanges.OverlapsIffSharedMinute | walkthroughs/week-5-tdd/project/src/main/java/com/google/sps/FindMeetingQuery.java:102 | for non-empty ranges `overlaps` holds if and only if the ranges share a minute |
| TimeRanges.ContainsIffEveryMinute | walkthroughs/week-5-tdd/project/src/main/java/com/google/sps/FindMeetingQuery.java:104 | for a non-empty range `contains` holds if and only if every one of its minutes lies in the other range |
| Merging.CoveredRangeWithin | walkthroughs/week-5-tdd/project/src/main/java/com/google/sps/FindMeetingQuery.java:108 | a non-empty range whose minutes are all covered by ranges inside [lo, hi) lies inside [lo, hi) |

## Left out

- `TimeRange`, `Event` and `MeetingRequest`: their own source is not part of this model. These
  classes are modelled from their use in `FindMeetingQuery`: a half-open `[start, end)` range,
  `overlaps`, `contains`, `fromStartEnd` (inclusive adds one minute), `ORDER_BY_START`, and the constants
  `START_OF_DAY` = 0, `END_OF_DAY` = 23:59 and `WHOLE_DAY` = [0, 24:00).
- `List.sort` (TimSort) is modelled as a stable insertion sort on sequences that returns a new
  sequence. The in-place sort of the argument list inside `mergeAllUnavailabilities` is invisible
  to callers, because the list is local to `findAvailability`.
- `ArrayDeque` is modelled as a sequence with the top at index 0. `Arrays.asList` and `ArrayList`
  are plain sequences. Aliasing of these Java objects is not modelled.
- The attendee `List` that `query` fills with `addAll` is a set union. Duplicate names change
  nothing that `Collections.disjoint` can see.
- Event ranges are required to be non-empty and inside [00:00, 24:00] (`WellFormed`). The merge
  relies on non-empty ranges. An empty or negative range from an unseen `TimeRange` constructor is
  not modelled.
- Durations are natural numbers. A negative `long` duration is not modelled.
- `int`/`long` overflow is not modelled. All values are minutes of one day.
- `FindMeetingQuery.FindGaps` and `FindMeetingQuery.CollectUnavailabilities`: the two loops of
  `findAvailability` are separate methods that `FindAvailability` calls. This keeps each proof
  small. Their behaviour and order of effects are unchanged.
- `FindMeetingQuery.Query`: its slot-length clause covers the final slot only up to 23:59, because
  the code's own final-slot test measures it that way (`Gaps.Clip`). For a zero duration the code
  may emit empty slots, and `Query` does not exclude them.
- `portfolio/.../DataServlet.java` (Datastore, JSON, HTTP) and `portfolio/.../script.js` (DOM,
  `fetch`, randomness) are I/O and UI code outside the finder.
