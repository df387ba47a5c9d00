/**
 UserAvailabilities: the combiner inside the `/user-availabilities` handler of server.js.

 The handler reduces the participants' schedules into an accumulator that starts empty.
 For each day of the current participant's schedule, a day the accumulator does not hold
 yet is copied in as it is; a day it already holds is replaced by the overlap of the two
 lists, obtained by calling `getOverlappingTimes` on two one-day schedules. Days the
 participant lacks are left alone. Unlike `intersectAvailabilities`, which drops a day one
 side lacks, this keeps every day that any participant has.

 `MergeParticipant` is the reduce callback and `CombineAvailabilities` the reduce; both are
 proved equal to the specification functions `Absorbed` and `Combined`, whose meaning the
 lemmas below state.
 */
module UserAvailabilities {
  import opened Schedules
  import opened TimeUnion
  import opened Reordering

  // ---------------------------------------------------------------------------
  // Specification functions
  // ---------------------------------------------------------------------------

  /** The accumulator after the reduce callback has processed one participant's schedule. */
  function Absorbed(acc: Schedule, avail: Schedule): Schedule
  {
    map day | day in acc.Keys + avail.Keys ::
      if day !in avail then acc[day]
      else if day !in acc then avail[day]
      else CrossOverlap(acc[day], avail[day])
  }

  /** The value of the reduce over the participants' schedules, starting from `{}`. */
  function Combined(availabilities: seq<Schedule>): Schedule
  {
    if availabilities == [] then map[]
    else Absorbed(Combined(availabilities[..|availabilities| - 1]), availabilities[|availabilities| - 1])
  }

  // ---------------------------------------------------------------------------
  // The source's loops
  // ---------------------------------------------------------------------------

  /** The reduce callback: one pass over `Object.keys(avail)`, inserting or overwriting `acc[day]`. */
  method MergeParticipant(acc: Schedule, avail: Schedule) returns (next: Schedule)
    ensures next.Keys == acc.Keys + avail.Keys
    ensures forall day :: day in acc && day !in avail ==> next[day] == acc[day]
    ensures forall day :: day in avail && day !in acc ==> next[day] == avail[day]
    ensures forall day :: day in acc && day in avail ==> next[day] == CrossOverlap(acc[day], avail[day])
    ensures next == Absorbed(acc, avail)
  {
    next := acc;
    var days := avail.Keys;
    while days != {}
      invariant days <= avail.Keys
      invariant next == Absorbed(acc, avail - days)
      decreases days
    {
      var day :| day in days;
      if day !in next {
        next := next[day := avail[day]];
      } else {
        var one, other := map[day := next[day]], map[day := avail[day]];
        var pair := GetOverlappingTimes([one, other]);
        OverlappingTimesOfTwo(one, other);
        next := next[day := pair[day]];
      }
      AbsorbedOneMoreDay(acc, avail, days, day);
      days := days - {day};
    }
    assert avail - {} == avail;
  }

  /** `availabilities.reduce(callback, {})`. */
  method CombineAvailabilities(availabilities: seq<Schedule>) returns (combined: Schedule)
    ensures combined == Combined(availabilities)
    ensures availabilities == [] ==> combined == map[]
    ensures |availabilities| == 1 ==> combined == availabilities[0]
  {
    combined := map[];
    for i := 0 to |availabilities|
      invariant combined == Combined(availabilities[..i])
    {
      combined := MergeParticipant(combined, availabilities[i]);
      assert availabilities[..i + 1][..i] == availabilities[..i];
    }
    assert availabilities[..|availabilities|] == availabilities;
    if |availabilities| == 1 {
      CombinedOfOne(availabilities[0]);
    }
  }

  /** Visiting one more day of `avail` inserts or overwrites just that day. */
  lemma AbsorbedOneMoreDay(acc: Schedule, avail: Schedule, days: set<Day>, day: Day)
    requires day in days && days <= avail.Keys
    ensures Absorbed(acc, avail - (days - {day}))
         == Absorbed(acc, avail - days)[day := if day in acc then CrossOverlap(acc[day], avail[day]) else avail[day]]
  {
  }

  // ---------------------------------------------------------------------------
  // What the reduce computes
  // ---------------------------------------------------------------------------

  /** A single participant's schedule comes back unchanged. */
  lemma CombinedOfOne(s: Schedule)
    ensures Combined([s]) == s
  {
    assert [s][..0] == [];
  }

  /** The result holds exactly the days some participant has: the union of their days. */
  lemma {:induction false} CombinedDays(ss: seq<Schedule>, d: Day)
    ensures d in Combined(ss) <==> DayLists(ss, d) != []
    ensures d in Combined(ss) <==> exists i :: 0 <= i < |ss| && d in ss[i]
  {
    if ss != [] {
      CombinedDays(ss[..|ss| - 1], d);
    }
  }

  /** On each of its days the result holds the left-to-right overlap of the lists of the
      participants that have that day, in participant order. */
  lemma {:induction false} CombinedDayValue(ss: seq<Schedule>, d: Day)
    requires d in Combined(ss)
    ensures DayLists(ss, d) != [] && Combined(ss)[d] == Chain(DayLists(ss, d))
  {
    var init, last := ss[..|ss| - 1], ss[|ss| - 1];
    CombinedDays(init, d);
    var ls := DayLists(init, d);
    if d !in last {
      assert DayLists(ss, d) == ls;
      CombinedDayValue(init, d);
    } else if d !in Combined(init) {
      assert DayLists(ss, d) == [last[d]];
    } else {
      CombinedDayValue(init, d);
      var grown := ls + [last[d]];
      assert DayLists(ss, d) == grown;
      assert grown[..|grown| - 1] == ls;
    }
  }

  /** The result's days are the days some participant has, and on such a day a time point is
      covered exactly when every participant that has the day covers it; participants without
      the day do not constrain it. */
  lemma CombinedMeaning(ss: seq<Schedule>, d: Day, t: int)
    ensures d in Combined(ss) <==> exists i :: 0 <= i < |ss| && d in ss[i]
    ensures d in Combined(ss) ==>
      (Covers(Combined(ss)[d], t) <==> forall i :: 0 <= i < |ss| && d in ss[i] ==> Covers(ss[i][d], t))
  {
    CombinedDays(ss, d);
    if d in Combined(ss) {
      CombinedDayValue(ss, d);
      ChainCovers(DayLists(ss, d), t);
      DayListsCovers(ss, d, t);
    }
  }

  /** The order of the rows (and repeated rows) does not change which days the reduce returns
      nor which time points it covers on each; the intervals within a day may change. */
  lemma CombinedOrderFree(ss1: seq<Schedule>, ss2: seq<Schedule>, d: Day, t: int)
    requires forall s :: s in ss1 <==> s in ss2
    ensures d in Combined(ss1) <==> d in Combined(ss2)
    ensures d in Combined(ss1) ==> (Covers(Combined(ss1)[d], t) <==> Covers(Combined(ss2)[d], t))
  {
    CombinedMeaning(ss1, d, t);
    CombinedMeaning(ss2, d, t);
    HoldersSame(ss1, ss2, d, t);
    HoldersSame(ss2, ss1, d, t);
  }

  /** The same rows in any order give the same days and, on each day, the same set of windows. */
  lemma CombinedPermuted(ss1: seq<Schedule>, ss2: seq<Schedule>, d: Day)
    requires multiset(ss1) == multiset(ss2)
    ensures d in Combined(ss1) <==> d in Combined(ss2)
    ensures d in Combined(ss1) ==> SameWindows(Combined(ss1)[d], Combined(ss2)[d])
  {
    var lists1, lists2 := DayLists(ss1, d), DayLists(ss2, d);
    DayListsPermuted(ss1, ss2, d);
    assert |lists1| == |multiset(lists1)| == |multiset(lists2)| == |lists2|;
    CombinedDays(ss1, d);
    CombinedDays(ss2, d);
    if d in Combined(ss1) {
      CombinedDayValue(ss1, d);
      CombinedDayValue(ss2, d);
      ChainPermuted(lists1, lists2);
    }
  }

  lemma HoldersSame(ss1: seq<Schedule>, ss2: seq<Schedule>, d: Day, t: int)
    requires forall s :: s in ss1 ==> s in ss2
    ensures (exists i :: 0 <= i < |ss1| && d in ss1[i]) ==> (exists i :: 0 <= i < |ss2| && d in ss2[i])
    ensures (forall i :: 0 <= i < |ss2| && d in ss2[i] ==> Covers(ss2[i][d], t))
        ==> (forall i :: 0 <= i < |ss1| && d in ss1[i] ==> Covers(ss1[i][d], t))
  {
    forall i | 0 <= i < |ss1|
      ensures exists k :: 0 <= k < |ss2| && ss2[k] == ss1[i]
    {
      assert ss1[i] in ss2;
    }
  }

  /** The first participant that has a day puts that day's list in unchanged. */
  lemma FirstSeenCopied(ss: seq<Schedule>, i: nat, d: Day)
    requires i < |ss| && d in ss[i]
    requires forall j :: 0 <= j < i ==> d !in ss[j]
    ensures d in Combined(ss[..i + 1]) && Combined(ss[..i + 1])[d] == ss[i][d]
  {
    var before := ss[..i];
    assert ss[..i + 1][..i] == before;
    CombinedDays(before, d);
  }

  /** A day no later participant has keeps the list it had. */
  lemma {:induction false} UntouchedDayKept(ss: seq<Schedule>, i: nat, d: Day)
    requires i <= |ss| && d in Combined(ss[..i])
    requires forall j :: i <= j < |ss| ==> d !in ss[j]
    ensures d in Combined(ss) && Combined(ss)[d] == Combined(ss[..i])[d]
  {
    if i == |ss| {
      assert ss[..i] == ss;
    } else {
      var init := ss[..|ss| - 1];
      assert init[..i] == ss[..i];
      forall j | i <= j < |init|
        ensures d !in init[j]
      {
        assert init[j] == ss[j];
      }
      UntouchedDayKept(init, i, d);
    }
  }

  /** A day only one participant has is kept with that participant's list, unchanged. */
  lemma SoleHolderKept(ss: seq<Schedule>, i: nat, d: Day)
    requires i < |ss| && d in ss[i]
    requires forall j :: 0 <= j < |ss| && j != i ==> d !in ss[j]
    ensures d in Combined(ss) && Combined(ss)[d] == ss[i][d]
  {
    FirstSeenCopied(ss, i, d);
    UntouchedDayKept(ss, i + 1, d);
  }

  /** `getOverlappingTimes` over two or more schedules drops a day only one of them has. */
  lemma SoleHolderDropped(ss: seq<Schedule>, i: nat, d: Day)
    requires |ss| >= 2 && i < |ss| && d in ss[i]
    requires forall j :: 0 <= j < |ss| && j != i ==> d !in ss[j]
    ensures d !in OverlappingTimes(ss)
  {
    FoldDays(ss, d);
    var other := if i == 0 then 1 else 0;
    assert d !in ss[other];
  }

  /** Once a day's list is empty it stays present and empty for the rest of the reduce. */
  lemma {:induction false} EmptyDayStaysEmpty(ss: seq<Schedule>, i: nat, d: Day)
    requires i <= |ss| && d in Combined(ss[..i]) && Combined(ss[..i])[d] == []
    ensures d in Combined(ss) && Combined(ss)[d] == []
  {
    if i == |ss| {
      assert ss[..i] == ss;
    } else {
      var init := ss[..|ss| - 1];
      assert init[..i] == ss[..i];
      EmptyDayStaysEmpty(init, i, d);
      if d in ss[|ss| - 1] {
        assert CrossOverlap([], ss[|ss| - 1][d]) == [];
      }
    }
  }

  // ---------------------------------------------------------------------------
  // The reduce against getOverlappingTimes
  // ---------------------------------------------------------------------------

  /** On every day all participants share, the reduce and `getOverlappingTimes` agree;
      so `getOverlappingTimes(...ss)` is the reduce restricted to the shared days. */
  lemma AgreesOnSharedDays(ss: seq<Schedule>, d: Day)
    requires d in OverlappingTimes(ss)
    ensures d in Combined(ss) && Combined(ss)[d] == OverlappingTimes(ss)[d]
  {
    FoldDays(ss, d);
    CombinedDays(ss, d);
    FoldDayValue(ss, d);
    CombinedDayValue(ss, d);
  }

  /** When every participant lists the same days, the reduce equals `getOverlappingTimes`. */
  lemma SameDaysAgree(ss: seq<Schedule>)
    requires ss != []
    requires forall i :: 0 <= i < |ss| ==> ss[i].Keys == ss[0].Keys
    ensures Combined(ss) == OverlappingTimes(ss)
  {
    forall d | true
      ensures d in Combined(ss) <==> d in OverlappingTimes(ss)
    {
      FoldDays(ss, d);
      CombinedDays(ss, d);
      if d in Combined(ss) {
        var i :| 0 <= i < |ss| && d in ss[i];
        assert d in ss[0];
      }
    }
    forall d | d in OverlappingTimes(ss)
      ensures Combined(ss)[d] == OverlappingTimes(ss)[d]
    {
      AgreesOnSharedDays(ss, d);
    }
  }

  /** Two participants with different days: the reduce keeps both days as they are, while
      `getOverlappingTimes` returns no day at all. */
  lemma DisjointDaysExample()
    ensures Combined([map["Monday" := [Interval(9, 17)]], map["Tuesday" := [Interval(10, 12)]]])
         == map["Monday" := [Interval(9, 17)], "Tuesday" := [Interval(10, 12)]]
    ensures OverlappingTimes([map["Monday" := [Interval(9, 17)]], map["Tuesday" := [Interval(10, 12)]]])
         == map[]
  {
    var s1, s2 := map["Monday" := [Interval(9, 17)]], map["Tuesday" := [Interval(10, 12)]];
    assert [s1, s2][..1] == [s1];
    CombinedOfOne(s1);
    OverlappingTimesOfTwo(s1, s2);
    assert IntersectedSchedules(s1, s2).Keys == {};
  }
}
