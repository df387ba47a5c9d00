# Appointment-Booking availability overlap, in Dafny

This project models the availability-overlap engine of the Appointment-Booking backend, together with the
server's multi-user combiner.

- **Availability.** Each participant stores a weekly availability: a map from a day name to a list of
  half-open `{start, end}` intervals.
- **`getOverlappingTimes`** (middleware/timeUnion.js) intersects any number of such schedules. It has three
  parts:
  - `overlap` crosses two interval lists and keeps, for every pair, the shared window
    `{max(starts), min(ends)}` when it is non-empty.
  - `intersectAvailabilities` keeps the days both schedules have and overlaps their lists.
  - A left fold starts from the first schedule.
- **The `/user-availabilities` handler** (server.js) combines the participants' schedules with a
  `reduce`. Its callback treats days differently:
  - A day the accumulator does not hold yet is copied in as it is.
  - A day it already holds is replaced by the overlap of the two lists, computed through
    `getOverlappingTimes` on two one-day schedules.

So `getOverlappingTimes` keeps only the days every schedule has, while the server keeps every day that any
participant has.

The project has four modules:

- `Schedules` (schedules.dfy): intervals, day names, schedules, and coverage of a time point.
- `TimeUnion` (time_union.dfy): the source's three loops are the methods `Overlap`,
  `IntersectAvailabilities` and `GetOverlappingTimes`. Each is proved equal to a specification function:
  `CrossOverlap`, `IntersectedSchedules` and `OverlappingTimes`. Lemmas state what those functions mean.
- `UserAvailabilities` (user_availabilities.dfy): the reduce callback is `MergeParticipant` and the reduce is
  `CombineAvailabilities`. They are proved equal to `Absorbed` and `Combined`.
- `Reordering` (reordering.dfy): permuting the schedules leaves the set of windows on each day unchanged.

Both combiners are described per day by the same function, `Chain(DayLists(ss, d))`: the left-to-right
overlap of the lists of the schedules that hold day `d`. This is the model's main result:

- For `getOverlappingTimes` over one or more schedules:
  - a day is in the result exactly when every schedule has it;
  - on such a day, a time point is covered exactly when every schedule covers it there.
- For the server's reduce:
  - a day is in the result exactly when some participant has it;
  - on such a day, a time point is covered exactly when every participant holding the day covers it.

`overlap` and `intersectAvailabilities` build fresh `result` and `overlappingAvailability` objects and never
write to their arguments. In the model every operation takes its inputs by value and returns a new value, so
no input is changed.

Dropping a day that one side lacks treats that day as having no availability. `intersectAvailabilities` does
this; the server's reduce keeps such a day. The model follows the code for both; `SoleHolderKept` and
`SoleHolderDropped` state the two behaviours side by side, and `DisjointDaysExample` shows them on a concrete
input.

Supplying the same schedules in another order gives the same days and the same set of windows on each day.
Supplying a schedule twice gives the same days and covered time points, but it can add windows. How the
schedules are grouped does not matter at all: intersecting `a` with `b` and then with `c` gives exactly what
intersecting `a` with the intersection of `b` and `c` gives, windows and their order included.

## Model

| member | source | states |
|---|---|---|
| TimeUnion.Clip | middleware/timeUnion.js:8-9 | the window built from the later start and the earlier end lies inside both intervals |
| TimeUnion.Overlap | middleware/timeUnion.js:4-16 | the nested loops return exactly `CrossOverlap(intervals1, intervals2)`: one window per overlapping pair, rows in the order of `intervals1`, each row in the order of `intervals2` |
| TimeUnion.IntersectAvailabilities | middleware/timeUnion.js:18-26 | the pass over the keys of `avail1`, taken in any order, returns exactly the map from each day both schedules have to the overlap of the two lists |
| TimeUnion.GetOverlappingTimes | middleware/timeUnion.js:1-38 | the counted fold returns `OverlappingTimes(availabilities)`; `{}` for no schedules; the first schedule unchanged for one |
| TimeUnion.PairOverlapIffShared | middleware/timeUnion.js:8-12 | a pair yields a window iff `max(starts) < min(ends)`, iff the two intervals share a time point; the test is symmetric |
| TimeUnion.TouchingIntervalsDoNotOverlap | middleware/timeUnion.js:10-12 | [60,120) and [120,180) yield nothing, as a pair and through `overlap` |
| TimeUnion.TouchingExampleRow | middleware/timeUnion.js:10-12 | [9,10) against [10,11) yields nothing |
| TimeUnion.RowOverlap | middleware/timeUnion.js:7-13 | the inner loop pushes at most one window per interval of `intervals2` |
| TimeUnion.RowOverlapMembers | middleware/timeUnion.js:7-13 | a window is in a row iff some interval of `intervals2` yields it with the row's interval |
| TimeUnion.CrossOverlapMembers | middleware/timeUnion.js:6-14 | a window is in the output of `overlap` iff some pair of `intervals1` × `intervals2` yields it |
| TimeUnion.CrossOverlapSound | middleware/timeUnion.js:8-12 | every emitted window has start < end and lies inside some interval of `intervals1` and some interval of `intervals2` |
| TimeUnion.CrossOverlapLength | middleware/timeUnion.js:5-15 | the output length is at most the product of the lengths of `intervals1` and `intervals2` |
| TimeUnion.CrossOverlapAppend | middleware/timeUnion.js:6 | output order follows the outer loop: overlapping a concatenation of outer lists concatenates the outputs |
| TimeUnion.RowOverlapAppend | middleware/timeUnion.js:7 | within a row, output order follows the inner loop over `intervals2` |
| TimeUnion.OverlapOrderExample | middleware/timeUnion.js:5-15 | [9,12),[14,18) against [11,15) yields [11,12) then [14,15) |
| TimeUnion.PairOverlapOfDegenerate | middleware/timeUnion.js:8-12 | a pair that includes an interval with start >= end yields nothing |
| TimeUnion.RowOverlapDegenerate | middleware/timeUnion.js:7-13 | removing a degenerate interval of `intervals2` leaves a row unchanged |
| TimeUnion.RowOverlapOfDegenerate | middleware/timeUnion.js:7-13 | a degenerate interval of `intervals1` yields an empty row |
| TimeUnion.CrossOverlapDropOuter | middleware/timeUnion.js:6-14 | removing a degenerate interval of `intervals1` leaves the output of `overlap` unchanged |
| TimeUnion.CrossOverlapDropInner | middleware/timeUnion.js:6-14 | removing a degenerate interval of `intervals2` leaves the output of `overlap` unchanged |
| TimeUnion.DegenerateInputIgnored | middleware/timeUnion.js:8-12 | an inverted or empty interval on either side never contributes: removing it changes nothing |
| TimeUnion.CrossOverlapCovers | middleware/timeUnion.js:4-16 | a time point is covered by the output of `overlap` iff both input lists cover it |
| TimeUnion.CoveredOnlyIfBothCover | middleware/timeUnion.js:8-12 | a time point the output covers is covered by both input lists |
| TimeUnion.CoveredIfBothCover | middleware/timeUnion.js:8-12 | a time point both input lists cover is covered by the output |
| TimeUnion.IntersectedDays | middleware/timeUnion.js:20-24 | the days of `intersectAvailabilities(a, b)` are exactly the days of `a` also in `b`; a day on one side only is dropped; a shared day with no overlap maps to the empty list |
| TimeUnion.IntersectedWellFormed | middleware/timeUnion.js:18-26 | every interval of an intersected schedule has start < end |
| TimeUnion.OverlappingTimesOfTwo | middleware/timeUnion.js:28-37 | with two schedules the fold is a single `intersectAvailabilities` |
| TimeUnion.SingleWindowExample | middleware/timeUnion.js:1-38 | Monday [9,17) against Monday [13,20) gives Monday [13,17) |
| TimeUnion.TwoWindowExample | middleware/timeUnion.js:1-38 | Monday [9,12),[14,18) against Monday [11,15) gives Monday [11,12),[14,15) |
| TimeUnion.KeptAndDroppedDayExample | middleware/timeUnion.js:20-24 | a shared day without common time stays with an empty list, and a day one side lacks is dropped |
| TimeUnion.DayLists | middleware/timeUnion.js:20-22 | the lists held for a day number at most the schedules, and are non-empty iff some schedule has the day |
| TimeUnion.DayListsOfAll | middleware/timeUnion.js:28-35 | when every schedule has the day, its lists are exactly the schedules' lists, in order |
| TimeUnion.DayListsCovers | middleware/timeUnion.js:20-22 | every list held for the day covers a point iff every schedule holding the day covers it there |
| TimeUnion.ChainCovers | middleware/timeUnion.js:28-35 | overlapping lists from left to right covers a point iff every list covers it |
| TimeUnion.FoldDays | middleware/timeUnion.js:28-35 | the fold keeps exactly the days every schedule has |
| TimeUnion.FoldDayValue | middleware/timeUnion.js:28-35 | on each day it keeps, the fold holds the left-to-right overlap of the schedules' lists for that day |
| TimeUnion.OverlappingTimesMeaning | middleware/timeUnion.js:28-37 | for one or more schedules, a day is in the result iff every schedule has it, and a time point is covered there iff every schedule covers it on that day |
| TimeUnion.OverlappingTimesWellFormed | middleware/timeUnion.js:28-37 | with two or more schedules, every interval of the result has start < end |
| TimeUnion.OverlappingTimesOrderFree | middleware/timeUnion.js:28-37 | the same set of schedules, in another order or with repeats, gives the same days and the same covered time points |
| Reordering.CrossOverlapCommutes | middleware/timeUnion.js:4-16 | swapping the two arguments of `overlap` gives the same set of windows |
| Reordering.CrossOverlapRespects | middleware/timeUnion.js:4-16 | arguments with the same windows give outputs with the same windows |
| Reordering.CrossOverlapRightCommutes | middleware/timeUnion.js:4-16 | overlapping with one list and then another gives the same windows as the other order |
| Reordering.ChainMoveToEnd | middleware/timeUnion.js:28-35 | any list of a left-to-right overlap can be overlapped last instead, with the same windows |
| Reordering.ChainPermuted | middleware/timeUnion.js:28-35 | overlapping a permutation of the same lists gives the same windows |
| Reordering.DayListsAppend | middleware/timeUnion.js:20-22 | the lists two runs of schedules hold for a day are the lists of the first run followed by those of the second |
| Reordering.DayListsPermuted | middleware/timeUnion.js:20-22 | permuting the schedules permutes the lists they hold for any day |
| Reordering.OverlappingTimesPermuted | middleware/timeUnion.js:1-38 | the same schedules in any order give the same days and, on each day, the same set of windows |
| Reordering.OverlappingTimesSwapped | middleware/timeUnion.js:1-38 | swapping two schedules gives the same days and the same set of windows on each day |
| Reordering.PairOfPair | middleware/timeUnion.js:8-12 | clipping `x` by the window of `y` and `z` yields what clipping the window of `x` and `y` by `z` yields |
| Reordering.RowOfRow | middleware/timeUnion.js:6-14 | overlapping `x` with the row of `y` over `zs` equals overlapping the window of `x` and `y`, if any, with `zs` |
| Reordering.RowOfCross | middleware/timeUnion.js:6-14 | overlapping `x` with `overlap(ys, zs)` equals overlapping `x`'s row over `ys` with `zs` |
| Reordering.CrossOverlapAssociates | middleware/timeUnion.js:4-16 | `overlap(xs, overlap(ys, zs))` and `overlap(overlap(xs, ys), zs)` are the same list, windows and order included |
| Reordering.IntersectedAssociates | middleware/timeUnion.js:18-26 | `intersectAvailabilities` is associative: both groupings of three schedules give the same schedule |
| Reordering.OverlappingTimesAssociates | middleware/timeUnion.js:1-38 | intersecting `a` and `b` first, or `b` and `c` first, gives exactly `getOverlappingTimes(a, b, c)` |
| Reordering.RepeatAddsWindow | middleware/timeUnion.js:1-38 | supplying Monday [0,10),[5,15) twice yields the window [5,10), which the schedule does not hold |
| UserAvailabilities.MergeParticipant | server.js:160-171 | the callback keeps the union of days; leaves a day the participant lacks as it was; copies in a day the accumulator lacks; replaces a shared day by the overlap of the two lists |
| UserAvailabilities.CombineAvailabilities | server.js:160-172 | the reduce returns `Combined(availabilities)`; `{}` for no participants; the single participant's schedule for one |
| UserAvailabilities.CombinedOfOne | server.js:160-172 | a single participant's schedule comes back unchanged |
| UserAvailabilities.CombinedDays | server.js:161-163 | the result's days are exactly the days some participant has: the union of their day keys |
| UserAvailabilities.CombinedDayValue | server.js:161-168 | on each of its days the result holds the left-to-right overlap of the lists of the participants holding that day |
| UserAvailabilities.CombinedMeaning | server.js:160-172 | a day is in the result iff some participant has it, and a time point is covered there iff every participant holding the day covers it |
| UserAvailabilities.CombinedOrderFree | server.js:160-172 | the row order, and repeated rows, change neither the days nor the covered time points |
| UserAvailabilities.CombinedPermuted | server.js:160-172 | the same rows in any order give the same days and, on each day, the same set of windows |
| UserAvailabilities.FirstSeenCopied | server.js:162-163 | the first participant holding a day puts that day's list in unchanged |
| UserAvailabilities.UntouchedDayKept | server.js:161 | a day that no later participant has keeps the list it had |
| UserAvailabilities.SoleHolderKept | server.js:161-163 | a day only one participant has is kept with that participant's list, unchanged |
| UserAvailabilities.SoleHolderDropped | middleware/timeUnion.js:20-24 | by contrast, `getOverlappingTimes` over two or more schedules drops a day only one of them has |
| UserAvailabilities.EmptyDayStaysEmpty | server.js:162-168 | once a day's accumulated list is empty, it stays present and empty for the rest of the reduce |
| UserAvailabilities.AgreesOnSharedDays | server.js:164-168 | on every day all participants have, the reduce and `getOverlappingTimes` give the same list |
| UserAvailabilities.SameDaysAgree | server.js:160-172 | when every participant lists the same days, the reduce equals `getOverlappingTimes` |
| UserAvailabilities.DisjointDaysExample | server.js:160-172 | Monday-only and Tuesday-only participants: the reduce keeps both days, `getOverlappingTimes` returns `{}` |

## Left out

- HTTP routing, request and response handling, status codes and `app.listen` in server.js: I/O plumbing around the combiner.
- The MySQL pool and queries: external persistence. The model starts from the list of participants' schedules the query yields, in whatever order it yields them.
- bcrypt hashing, JWT signing and the token middleware: foreign library calls.
- `JSON.parse` of the stored availability and `res.json` of the result: the model starts from already deserialised, well-typed schedules.
- middleware/generateTemplate.js: an e-mail template built by string substitution, with no logic to prove.
- The validation at server.js:120-126: it belongs to request parsing, not to the engine.
- JavaScript number semantics in `Math.max` and `Math.min` (floating point, NaN, non-numeric bounds): bounds are modelled as unbounded integers.
- Object identity and aliasing: the model works on values. The single-schedule case of `getOverlappingTimes` returns the same object, and `acc[day] = avail[day]` shares the array. In the model both are equal values instead.
- In-place update of the reduce accumulator: `MergeParticipant` returns the new accumulator rather than mutating `acc`. Because the source never reads `acc` through another reference, this is equivalent.
- Object key order: `Object.keys` is modelled as visiting the days in an arbitrary order. The methods' results do not depend on that order, because each day is visited once. Key order in the returned object is not modelled.
- Presence tests: a day counts as present exactly when it is a key of the map. JavaScript truthiness of non-array values, and day names such as "constructor" that an object inherits from its prototype, are not modelled.
