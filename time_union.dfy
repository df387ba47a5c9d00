/**
 TimeUnion: `getOverlappingTimes` of middleware/timeUnion.js.

 The JavaScript function has two inner helpers and a fold:
 - `overlap(intervals1, intervals2)` crosses two interval lists and pushes, for every
   pair, the shared window `{max(starts), min(ends)}` when it is non-empty;
 - `intersectAvailabilities(avail1, avail2)` keeps the days present in both schedules
   and overlaps their lists;
 - the fold starts from the first schedule and intersects the remaining ones into it,
   returning `{}` for no schedules and the first schedule untouched for one.

 Each of the three is a method with the source's loops, proved equal to a specification
 function (`CrossOverlap`, `IntersectedSchedules`, `OverlappingTimes`); the lemmas below
 state what those functions mean.
 */
module TimeUnion {
  import opened Schedules

  // ---------------------------------------------------------------------------
  // Specification functions
  // ---------------------------------------------------------------------------

  /** The window two intervals share: the later start and the earlier end. */
  function Clip(a: Interval, b: Interval): (r: Interval)
    ensures Within(r, a) && Within(r, b)
  {
    Interval(Max(a.start, b.start), Min(a.end, b.end))
  }

  /** What one `(i1, i2)` step of the nested loop pushes: the clipped window if non-empty. */
  function PairOverlap(a: Interval, b: Interval): seq<Interval>
  {
    var c := Clip(a, b);
    if c.start < c.end then [c] else []
  }

  /** What the inner loop pushes for one interval `x` of the first list. */
  function RowOverlap(x: Interval, ys: seq<Interval>): (r: seq<Interval>)
    ensures |r| <= |ys|
  {
    if ys == [] then []
    else RowOverlap(x, ys[..|ys| - 1]) + PairOverlap(x, ys[|ys| - 1])
  }

  /** The list `overlap(xs, ys)` returns: rows in the order of `xs`, each in the order of `ys`. */
  function CrossOverlap(xs: seq<Interval>, ys: seq<Interval>): seq<Interval>
  {
    if xs == [] then [] else CrossOverlap(xs[..|xs| - 1], ys) + RowOverlap(xs[|xs| - 1], ys)
  }

  /** The schedule `intersectAvailabilities(avail1, avail2)` returns. */
  function IntersectedSchedules(avail1: Schedule, avail2: Schedule): Schedule
  {
    map day | day in avail1 && day in avail2 :: CrossOverlap(avail1[day], avail2[day])
  }

  /** The left fold over one or more schedules, starting from the first one. */
  function FoldIntersection(ss: seq<Schedule>): Schedule
    requires ss != []
  {
    if |ss| == 1 then ss[0]
    else IntersectedSchedules(FoldIntersection(ss[..|ss| - 1]), ss[|ss| - 1])
  }

  /** The schedule `getOverlappingTimes(...ss)` returns. */
  function OverlappingTimes(ss: seq<Schedule>): Schedule
  {
    if ss == [] then map[] else FoldIntersection(ss)
  }

  // ---------------------------------------------------------------------------
  // The source's loops
  // ---------------------------------------------------------------------------

  /** `overlap`: the nested `for...of` loops pushing onto `result`. */
  method Overlap(intervals1: seq<Interval>, intervals2: seq<Interval>) returns (result: seq<Interval>)
    ensures result == CrossOverlap(intervals1, intervals2)
  {
    result := [];
    for i := 0 to |intervals1|
      invariant result == CrossOverlap(intervals1[..i], intervals2)
    {
      var i1 := intervals1[i];
      ghost var before := result;
      for j := 0 to |intervals2|
        invariant result == before + RowOverlap(i1, intervals2[..j])
      {
        var i2 := intervals2[j];
        var start := Max(i1.start, i2.start);
        var end := Min(i1.end, i2.end);
        ghost var prev := result;
        if start < end {
          result := result + [Interval(start, end)];
        }
        PushIsPairOverlap(i1, i2, prev, result);
        RowOverlapGrows(i1, intervals2, j);
      }
      assert intervals2[..|intervals2|] == intervals2;
      CrossOverlapGrows(intervals1, intervals2, i);
    }
    assert intervals1[..|intervals1|] == intervals1;
  }

  /** The push guarded by `start < end` appends exactly that pair's window, if any. */
  lemma PushIsPairOverlap(i1: Interval, i2: Interval, prev: seq<Interval>, result: seq<Interval>)
    requires var start, end := Max(i1.start, i2.start), Min(i1.end, i2.end);
      result == if start < end then prev + [Interval(start, end)] else prev
    ensures result == prev + PairOverlap(i1, i2)
  {
  }

  /** One more step of the inner loop appends that pair's window, if any, to the row. */
  lemma RowOverlapGrows(x: Interval, ys: seq<Interval>, j: nat)
    requires j < |ys|
    ensures RowOverlap(x, ys[..j + 1]) == RowOverlap(x, ys[..j]) + PairOverlap(x, ys[j])
  {
    assert ys[..j + 1][..j] == ys[..j];
  }

  /** One more step of the outer loop appends a full row. */
  lemma CrossOverlapGrows(xs: seq<Interval>, ys: seq<Interval>, i: nat)
    requires i < |xs|
    ensures CrossOverlap(xs[..i + 1], ys) == CrossOverlap(xs[..i], ys) + RowOverlap(xs[i], ys)
  {
    assert xs[..i + 1][..i] == xs[..i];
  }

  /** `intersectAvailabilities`: one pass over `Object.keys(avail1)`, filling a fresh object. */
  method IntersectAvailabilities(avail1: Schedule, avail2: Schedule) returns (overlapping: Schedule)
    ensures overlapping == IntersectedSchedules(avail1, avail2)
  {
    overlapping := map[];
    var days := avail1.Keys;
    while days != {}
      invariant days <= avail1.Keys
      invariant overlapping == IntersectedSchedules(avail1 - days, avail2)
      decreases days
    {
      var day :| day in days;
      if day in avail2 {
        var o := Overlap(avail1[day], avail2[day]);
        overlapping := overlapping[day := o];
      }
      IntersectedOneMoreDay(avail1, avail2, days, day);
      days := days - {day};
    }
    assert avail1 - {} == avail1;
  }

  /** `getOverlappingTimes(...availabilities)`. */
  method GetOverlappingTimes(availabilities: seq<Schedule>) returns (combined: Schedule)
    ensures combined == OverlappingTimes(availabilities)
    ensures availabilities == [] ==> combined == map[]
    ensures |availabilities| == 1 ==> combined == availabilities[0]
  {
    if |availabilities| == 0 {
      return map[];
    }
    combined := availabilities[0];
    for i := 1 to |availabilities|
      invariant combined == FoldIntersection(availabilities[..i])
    {
      combined := IntersectAvailabilities(combined, availabilities[i]);
      assert availabilities[..i + 1][..i] == availabilities[..i];
    }
    assert availabilities[..|availabilities|] == availabilities;
  }

  /** Visiting one more day of `avail1` adds that day exactly when `avail2` has it. */
  lemma IntersectedOneMoreDay(avail1: Schedule, avail2: Schedule, days: set<Day>, day: Day)
    requires day in days && days <= avail1.Keys
    ensures IntersectedSchedules(avail1 - (days - {day}), avail2)
         == if day in avail2
            then IntersectedSchedules(avail1 - days, avail2)[day := CrossOverlap(avail1[day], avail2[day])]
            else IntersectedSchedules(avail1 - days, avail2)
  {
  }

  // ---------------------------------------------------------------------------
  // One pair of intervals
  // ---------------------------------------------------------------------------

  /** A pair yields a window exactly when the two intervals share a time point;
      the test is symmetric in its two arguments. */
  lemma PairOverlapIffShared(a: Interval, b: Interval)
    ensures PairOverlap(a, b) == [] <==> Max(a.start, b.start) >= Min(a.end, b.end)
    ensures PairOverlap(a, b) != [] <==> exists t :: Contains(a, t) && Contains(b, t)
    ensures PairOverlap(a, b) == PairOverlap(b, a)
  {
    var c := Clip(a, b);
    if c.start < c.end {
      assert Contains(a, c.start) && Contains(b, c.start);
    }
  }

  /** Touching intervals, one ending where the other starts, share nothing. */
  lemma TouchingIntervalsDoNotOverlap()
    ensures PairOverlap(Interval(60, 120), Interval(120, 180)) == []
    ensures CrossOverlap([Interval(60, 120)], [Interval(120, 180)]) == []
  {
    assert [Interval(120, 180)][..0] == [];
  }

  // ---------------------------------------------------------------------------
  // overlap: membership, soundness, order
  // ---------------------------------------------------------------------------

  /** An interval is in a row exactly when some interval of `ys` yields it with `x`. */
  lemma {:induction false} RowOverlapMembers(x: Interval, ys: seq<Interval>, iv: Interval)
    ensures iv in RowOverlap(x, ys) <==> exists j :: 0 <= j < |ys| && iv in PairOverlap(x, ys[j])
  {
    if ys != [] {
      var init, last := ys[..|ys| - 1], ys[|ys| - 1];
      RowOverlapMembers(x, init, iv);
      assert RowOverlap(x, ys) == RowOverlap(x, init) + PairOverlap(x, last);
      RowWitnessSplit(x, ys, init, iv);
    }
  }

  lemma RowWitnessSplit(x: Interval, ys: seq<Interval>, init: seq<Interval>, iv: Interval)
    requires ys != [] && init == ys[..|ys| - 1]
    ensures (exists j :: 0 <= j < |ys| && iv in PairOverlap(x, ys[j]))
        <==> (exists j :: 0 <= j < |init| && iv in PairOverlap(x, init[j]))
             || iv in PairOverlap(x, ys[|ys| - 1])
  {
    if exists j :: 0 <= j < |ys| && iv in PairOverlap(x, ys[j]) {
      var j :| 0 <= j < |ys| && iv in PairOverlap(x, ys[j]);
      if j < |init| {
        assert init[j] == ys[j];
      }
    }
  }

  /** An interval is in `overlap(xs, ys)` exactly when some pair of `xs` x `ys` yields it. */
  lemma {:induction false} CrossOverlapMembers(xs: seq<Interval>, ys: seq<Interval>, iv: Interval)
    ensures iv in CrossOverlap(xs, ys) <==>
      exists i, j :: 0 <= i < |xs| && 0 <= j < |ys| && iv in PairOverlap(xs[i], ys[j])
  {
    if xs != [] {
      var init, last := xs[..|xs| - 1], xs[|xs| - 1];
      CrossOverlapMembers(init, ys, iv);
      RowOverlapMembers(last, ys, iv);
      assert CrossOverlap(xs, ys) == CrossOverlap(init, ys) + RowOverlap(last, ys);
      CrossWitnessSplit(xs, ys, init, iv);
    }
  }

  lemma CrossWitnessSplit(xs: seq<Interval>, ys: seq<Interval>, init: seq<Interval>, iv: Interval)
    requires xs != [] && init == xs[..|xs| - 1]
    ensures (exists i, j :: 0 <= i < |xs| && 0 <= j < |ys| && iv in PairOverlap(xs[i], ys[j]))
        <==> (exists i, j :: 0 <= i < |init| && 0 <= j < |ys| && iv in PairOverlap(init[i], ys[j]))
             || (exists j :: 0 <= j < |ys| && iv in PairOverlap(xs[|xs| - 1], ys[j]))
  {
    if exists i, j :: 0 <= i < |xs| && 0 <= j < |ys| && iv in PairOverlap(xs[i], ys[j]) {
      var i, j :| 0 <= i < |xs| && 0 <= j < |ys| && iv in PairOverlap(xs[i], ys[j]);
      if i < |init| {
        assert init[i] == xs[i];
      }
    }
  }

  /** Every emitted window is non-empty and lies inside an interval of each input list. */
  lemma CrossOverlapSound(xs: seq<Interval>, ys: seq<Interval>)
    ensures forall k :: 0 <= k < |CrossOverlap(xs, ys)| ==>
      var iv := CrossOverlap(xs, ys)[k];
      IsProper(iv) &&
      (exists i :: 0 <= i < |xs| && Within(iv, xs[i])) &&
      (exists j :: 0 <= j < |ys| && Within(iv, ys[j]))
  {
    var r := CrossOverlap(xs, ys);
    forall k | 0 <= k < |r|
      ensures IsProper(r[k])
      ensures exists i :: 0 <= i < |xs| && Within(r[k], xs[i])
      ensures exists j :: 0 <= j < |ys| && Within(r[k], ys[j])
    {
      CrossOverlapMembers(xs, ys, r[k]);
      var i, j :| 0 <= i < |xs| && 0 <= j < |ys| && r[k] in PairOverlap(xs[i], ys[j]);
      assert Within(r[k], xs[i]) && Within(r[k], ys[j]);
    }
  }

  /** `overlap` pushes at most one window per pair. */
  lemma {:induction false} CrossOverlapLength(xs: seq<Interval>, ys: seq<Interval>)
    ensures |CrossOverlap(xs, ys)| <= |xs| * |ys|
  {
    if xs != [] {
      CrossOverlapLength(xs[..|xs| - 1], ys);
      assert (|xs| - 1) * |ys| + |ys| == |xs| * |ys|;
    }
  }

  /** Output order follows the outer list: overlapping a concatenation concatenates the results. */
  lemma {:induction false} CrossOverlapAppend(xs1: seq<Interval>, xs2: seq<Interval>, ys: seq<Interval>)
    ensures CrossOverlap(xs1 + xs2, ys) == CrossOverlap(xs1, ys) + CrossOverlap(xs2, ys)
  {
    if xs2 == [] {
      assert xs1 + xs2 == xs1;
    } else {
      var init, last := xs2[..|xs2| - 1], xs2[|xs2| - 1];
      var whole := xs1 + xs2;
      assert whole == (xs1 + init) + [last];
      assert whole[..|whole| - 1] == xs1 + init;
      var front, middle, row := CrossOverlap(xs1, ys), CrossOverlap(init, ys), RowOverlap(last, ys);
      calc {
        CrossOverlap(whole, ys);
        CrossOverlap(xs1 + init, ys) + row;
        { CrossOverlapAppend(xs1, init, ys); }
        (front + middle) + row;
        front + (middle + row);
      }
    }
  }

  /** Within one row, order follows the inner list. */
  lemma {:induction false} RowOverlapAppend(x: Interval, ys1: seq<Interval>, ys2: seq<Interval>)
    ensures RowOverlap(x, ys1 + ys2) == RowOverlap(x, ys1) + RowOverlap(x, ys2)
  {
    if ys2 == [] {
      assert ys1 + ys2 == ys1;
    } else {
      var init, last := ys2[..|ys2| - 1], ys2[|ys2| - 1];
      var whole := ys1 + ys2;
      assert whole == (ys1 + init) + [last];
      assert whole[..|whole| - 1] == ys1 + init;
      var front, middle, pair := RowOverlap(x, ys1), RowOverlap(x, init), PairOverlap(x, last);
      calc {
        RowOverlap(x, whole);
        RowOverlap(x, ys1 + init) + pair;
        { RowOverlapAppend(x, ys1, init); }
        (front + middle) + pair;
        front + (middle + pair);
      }
    }
  }

  /** The ordering example: [9,12),[14,18) against [11,15) gives [11,12) then [14,15). */
  lemma OverlapOrderExample()
    ensures CrossOverlap([Interval(9, 12), Interval(14, 18)], [Interval(11, 15)])
         == [Interval(11, 12), Interval(14, 15)]
  {
    var xs := [Interval(9, 12), Interval(14, 18)];
    var ys := [Interval(11, 15)];
    assert ys[..0] == [];
    assert xs[..1][..0] == [];
    assert RowOverlap(Interval(9, 12), ys) == [Interval(11, 12)];
    assert RowOverlap(Interval(14, 18), ys) == [Interval(14, 15)];
  }

  /** A pair containing an interval that covers nothing yields nothing. */
  lemma PairOverlapOfDegenerate(a: Interval, b: Interval)
    requires !IsProper(a) || !IsProper(b)
    ensures PairOverlap(a, b) == []
  {
    var c := Clip(a, b);
    assert Within(c, a) && Within(c, b);
  }

  /** An interval of the second list that covers nothing yields nothing with any `x`. */
  lemma {:induction false} RowOverlapDegenerate(x: Interval, ys: seq<Interval>, j: nat)
    requires j < |ys| && !IsProper(ys[j])
    ensures RowOverlap(x, ys) == RowOverlap(x, ys[..j] + ys[j + 1..])
  {
    var init, last := ys[..|ys| - 1], ys[|ys| - 1];
    if j == |ys| - 1 {
      assert ys[..j] + ys[j + 1..] == init;
      PairOverlapOfDegenerate(x, last);
    } else {
      RowOverlapDegenerate(x, init, j);
      DropBeforeLast(ys, j);
    }
  }

  /** An interval of the first list that covers nothing yields an empty row. */
  lemma {:induction false} RowOverlapOfDegenerate(x: Interval, ys: seq<Interval>)
    requires !IsProper(x)
    ensures RowOverlap(x, ys) == []
  {
    if ys != [] {
      RowOverlapOfDegenerate(x, ys[..|ys| - 1]);
      PairOverlapOfDegenerate(x, ys[|ys| - 1]);
    }
  }

  /** An inverted or empty input interval never contributes: removing it changes nothing. */
  lemma DegenerateInputIgnored(xs: seq<Interval>, ys: seq<Interval>, i: nat, j: nat)
    requires i < |xs| && j < |ys|
    ensures !IsProper(xs[i]) ==> CrossOverlap(xs, ys) == CrossOverlap(xs[..i] + xs[i + 1..], ys)
    ensures !IsProper(ys[j]) ==> CrossOverlap(xs, ys) == CrossOverlap(xs, ys[..j] + ys[j + 1..])
  {
    if !IsProper(xs[i]) {
      CrossOverlapDropOuter(xs, ys, i);
    }
    if !IsProper(ys[j]) {
      CrossOverlapDropInner(xs, ys, j);
    }
  }

  lemma {:induction false} CrossOverlapDropOuter(xs: seq<Interval>, ys: seq<Interval>, i: nat)
    requires i < |xs| && !IsProper(xs[i])
    ensures CrossOverlap(xs, ys) == CrossOverlap(xs[..i] + xs[i + 1..], ys)
  {
    var init, last := xs[..|xs| - 1], xs[|xs| - 1];
    if i == |xs| - 1 {
      assert xs[..i] + xs[i + 1..] == init;
      RowOverlapOfDegenerate(last, ys);
    } else {
      CrossOverlapDropOuter(init, ys, i);
      DropBeforeLast(xs, i);
    }
  }

  /** Removing an element other than the last keeps the last element last. */
  lemma DropBeforeLast(s: seq<Interval>, i: nat)
    requires i < |s| - 1
    ensures var dropped := s[..i] + s[i + 1..];
      dropped != [] &&
      dropped[..|dropped| - 1] == s[..|s| - 1][..i] + s[..|s| - 1][i + 1..] &&
      dropped[|dropped| - 1] == s[|s| - 1]
  {
    var dropped := s[..i] + s[i + 1..];
    var init := s[..|s| - 1];
    assert dropped == (init[..i] + init[i + 1..]) + [s[|s| - 1]];
  }

  lemma {:induction false} CrossOverlapDropInner(xs: seq<Interval>, ys: seq<Interval>, j: nat)
    requires j < |ys| && !IsProper(ys[j])
    ensures CrossOverlap(xs, ys) == CrossOverlap(xs, ys[..j] + ys[j + 1..])
  {
    if xs != [] {
      CrossOverlapDropInner(xs[..|xs| - 1], ys, j);
      RowOverlapDegenerate(xs[|xs| - 1], ys, j);
    }
  }

  // ---------------------------------------------------------------------------
  // overlap: time points covered
  // ---------------------------------------------------------------------------

  /** A time point is covered by `overlap(xs, ys)` exactly when both lists cover it. */
  lemma CrossOverlapCovers(xs: seq<Interval>, ys: seq<Interval>, t: int)
    ensures Covers(CrossOverlap(xs, ys), t) <==> Covers(xs, t) && Covers(ys, t)
  {
    if Covers(CrossOverlap(xs, ys), t) {
      CoveredOnlyIfBothCover(xs, ys, t);
    }
    if Covers(xs, t) && Covers(ys, t) {
      CoveredIfBothCover(xs, ys, t);
    }
  }

  lemma CoveredOnlyIfBothCover(xs: seq<Interval>, ys: seq<Interval>, t: int)
    requires Covers(CrossOverlap(xs, ys), t)
    ensures Covers(xs, t) && Covers(ys, t)
  {
    var r := CrossOverlap(xs, ys);
    var k :| 0 <= k < |r| && Contains(r[k], t);
    CrossOverlapMembers(xs, ys, r[k]);
    var i, j :| 0 <= i < |xs| && 0 <= j < |ys| && r[k] in PairOverlap(xs[i], ys[j]);
    assert r[k] == Clip(xs[i], ys[j]);
    assert Contains(xs[i], t) && Contains(ys[j], t);
  }

  lemma CoveredIfBothCover(xs: seq<Interval>, ys: seq<Interval>, t: int)
    requires Covers(xs, t) && Covers(ys, t)
    ensures Covers(CrossOverlap(xs, ys), t)
  {
    var i :| 0 <= i < |xs| && Contains(xs[i], t);
    var j :| 0 <= j < |ys| && Contains(ys[j], t);
    var c := Clip(xs[i], ys[j]);
    assert Contains(c, t);
    assert PairOverlap(xs[i], ys[j]) == [c];
    CrossOverlapMembers(xs, ys, c);
    var r := CrossOverlap(xs, ys);
    var k :| 0 <= k < |r| && r[k] == c;
    assert Contains(r[k], t);
  }

  // ---------------------------------------------------------------------------
  // intersectAvailabilities: days kept
  // ---------------------------------------------------------------------------

  /** The days of `intersectAvailabilities(a, b)` are exactly the days of `a` also in `b`:
      a day on one side only is dropped, and a day on both sides stays even with no overlap. */
  lemma IntersectedDays(a: Schedule, b: Schedule)
    ensures IntersectedSchedules(a, b).Keys == a.Keys * b.Keys
    ensures forall d :: d in a && d !in b ==> d !in IntersectedSchedules(a, b)
    ensures forall d :: d in a && d in b && CrossOverlap(a[d], b[d]) == [] ==> IntersectedSchedules(a, b)[d] == []
  {
  }

  /** Every interval of an intersection of two schedules covers some time point. */
  lemma IntersectedWellFormed(a: Schedule, b: Schedule)
    ensures WellFormed(IntersectedSchedules(a, b))
  {
    var r := IntersectedSchedules(a, b);
    forall d, k | d in r && 0 <= k < |r[d]|
      ensures IsProper(r[d][k])
    {
      CrossOverlapSound(a[d], b[d]);
    }
  }

  /** With two schedules the fold is a single `intersectAvailabilities`. */
  lemma OverlappingTimesOfTwo(a: Schedule, b: Schedule)
    ensures OverlappingTimes([a, b]) == IntersectedSchedules(a, b)
  {
    assert [a, b][..1] == [a];
    assert FoldIntersection([a]) == a;
  }

  /** Monday [9,17) against Monday [13,20) leaves Monday [13,17). */
  lemma SingleWindowExample()
    ensures OverlappingTimes([map["Monday" := [Interval(9, 17)]], map["Monday" := [Interval(13, 20)]]])
         == map["Monday" := [Interval(13, 17)]]
  {
    var s1 := map["Monday" := [Interval(9, 17)]];
    var s2 := map["Monday" := [Interval(13, 20)]];
    OverlappingTimesOfTwo(s1, s2);
    assert [Interval(13, 20)][..0] == [];
    assert [Interval(9, 17)][..0] == [];
    assert CrossOverlap(s1["Monday"], s2["Monday"]) == [Interval(13, 17)];
    assert IntersectedSchedules(s1, s2).Keys == {"Monday"};
  }

  /** Monday [9,12),[14,18) against Monday [11,15) leaves Monday [11,12),[14,15). */
  lemma TwoWindowExample()
    ensures OverlappingTimes([map["Monday" := [Interval(9, 12), Interval(14, 18)]], map["Monday" := [Interval(11, 15)]]])
         == map["Monday" := [Interval(11, 12), Interval(14, 15)]]
  {
    var s1 := map["Monday" := [Interval(9, 12), Interval(14, 18)]];
    var s2 := map["Monday" := [Interval(11, 15)]];
    OverlappingTimesOfTwo(s1, s2);
    OverlapOrderExample();
    assert IntersectedSchedules(s1, s2).Keys == {"Monday"};
  }

  /** A day both schedules have but with no common window stays, with an empty list;
      a day only the first schedule has is dropped. */
  lemma KeptAndDroppedDayExample()
    ensures OverlappingTimes([map["Monday" := [Interval(9, 10)], "Tuesday" := [Interval(9, 17)]],
                              map["Monday" := [Interval(10, 11)]]])
         == map["Monday" := []]
  {
    var s1 := map["Monday" := [Interval(9, 10)], "Tuesday" := [Interval(9, 17)]];
    var s2 := map["Monday" := [Interval(10, 11)]];
    OverlappingTimesOfTwo(s1, s2);
    TouchingExampleRow();
    assert CrossOverlap(s1["Monday"], s2["Monday"]) == [];
    assert IntersectedSchedules(s1, s2).Keys == {"Monday"};
  }

  lemma TouchingExampleRow()
    ensures CrossOverlap([Interval(9, 10)], [Interval(10, 11)]) == []
  {
    assert [Interval(10, 11)][..0] == [];
    assert [Interval(9, 10)][..0] == [];
  }

  // ---------------------------------------------------------------------------
  // The fold, day by day
  // ---------------------------------------------------------------------------

  /** Overlapping a non-empty list of interval lists from left to right. */
  function Chain(ls: seq<seq<Interval>>): seq<Interval>
    requires ls != []
  {
    if |ls| == 1 then ls[0] else CrossOverlap(Chain(ls[..|ls| - 1]), ls[|ls| - 1])
  }

  /** The lists the given schedules hold for day `d`, in schedule order, skipping schedules without `d`. */
  function DayLists(ss: seq<Schedule>, d: Day): (r: seq<seq<Interval>>)
    ensures |r| <= |ss|
    ensures r != [] <==> exists i :: 0 <= i < |ss| && d in ss[i]
  {
    if ss == [] then []
    else
      var init := ss[..|ss| - 1];
      var r := DayLists(init, d) + (if d in ss[|ss| - 1] then [ss[|ss| - 1][d]] else []);
      assert forall i :: 0 <= i < |init| ==> init[i] == ss[i];
      r
  }

  /** When every schedule has day `d`, its lists are exactly those of the schedules, in order. */
  lemma {:induction false} DayListsOfAll(ss: seq<Schedule>, d: Day)
    requires forall i :: 0 <= i < |ss| ==> d in ss[i]
    ensures |DayLists(ss, d)| == |ss|
    ensures forall i :: 0 <= i < |ss| ==> DayLists(ss, d)[i] == ss[i][d]
  {
    if ss != [] {
      DayListsOfAll(ss[..|ss| - 1], d);
    }
  }

  /** A time point is covered by every one of `d`'s lists exactly when it is covered on `d`
      in every schedule that has `d`. */
  lemma {:induction false} DayListsCovers(ss: seq<Schedule>, d: Day, t: int)
    ensures (forall k :: 0 <= k < |DayLists(ss, d)| ==> Covers(DayLists(ss, d)[k], t))
        <==> (forall i :: 0 <= i < |ss| && d in ss[i] ==> Covers(ss[i][d], t))
  {
    if ss != [] {
      var init, last := ss[..|ss| - 1], ss[|ss| - 1];
      DayListsCovers(init, d, t);
      HoldersCoverSplit(ss, init, d, t);
      var ls := DayLists(init, d);
      if d in last {
        var grown := ls + [last[d]];
        assert DayLists(ss, d) == grown;
        assert grown[..|grown| - 1] == ls;
        AllCoverSplit(grown, ls, t);
      } else {
        assert DayLists(ss, d) == ls;
      }
    }
  }

  lemma HoldersCoverSplit(ss: seq<Schedule>, init: seq<Schedule>, d: Day, t: int)
    requires ss != [] && init == ss[..|ss| - 1]
    ensures (forall i :: 0 <= i < |ss| && d in ss[i] ==> Covers(ss[i][d], t))
        <==> (forall i :: 0 <= i < |init| && d in init[i] ==> Covers(init[i][d], t))
             && (d in ss[|ss| - 1] ==> Covers(ss[|ss| - 1][d], t))
  {
    assert forall i :: 0 <= i < |init| ==> init[i] == ss[i];
  }

  /** A time point is covered by the left-to-right overlap exactly when every list covers it. */
  lemma {:induction false} ChainCovers(ls: seq<seq<Interval>>, t: int)
    requires ls != []
    ensures Covers(Chain(ls), t) <==> forall k :: 0 <= k < |ls| ==> Covers(ls[k], t)
  {
    if |ls| > 1 {
      var init, last := ls[..|ls| - 1], ls[|ls| - 1];
      ChainCovers(init, t);
      CrossOverlapCovers(Chain(init), last, t);
      assert Chain(ls) == CrossOverlap(Chain(init), last);
      AllCoverSplit(ls, init, t);
    }
  }

  lemma AllCoverSplit(ls: seq<seq<Interval>>, init: seq<seq<Interval>>, t: int)
    requires ls != [] && init == ls[..|ls| - 1]
    ensures (forall k :: 0 <= k < |ls| ==> Covers(ls[k], t))
        <==> (forall k :: 0 <= k < |init| ==> Covers(init[k], t)) && Covers(ls[|ls| - 1], t)
  {
    assert forall k :: 0 <= k < |init| ==> init[k] == ls[k];
  }

  /** The fold keeps exactly the days every schedule has. */
  lemma {:induction false} FoldDays(ss: seq<Schedule>, d: Day)
    requires ss != []
    ensures d in FoldIntersection(ss) <==> forall i :: 0 <= i < |ss| ==> d in ss[i]
  {
    if |ss| > 1 {
      var init, last := ss[..|ss| - 1], ss[|ss| - 1];
      FoldDays(init, d);
      assert d in FoldIntersection(ss) <==> d in FoldIntersection(init) && d in last;
      AllHaveDaySplit(ss, init, d);
    }
  }

  lemma AllHaveDaySplit(ss: seq<Schedule>, init: seq<Schedule>, d: Day)
    requires ss != [] && init == ss[..|ss| - 1]
    ensures (forall i :: 0 <= i < |ss| ==> d in ss[i])
        <==> (forall i :: 0 <= i < |init| ==> d in init[i]) && d in ss[|ss| - 1]
  {
    assert forall i :: 0 <= i < |init| ==> init[i] == ss[i];
  }

  /** On each day it keeps, the fold holds the left-to-right overlap of the schedules' lists. */
  lemma {:induction false} FoldDayValue(ss: seq<Schedule>, d: Day)
    requires ss != [] && d in FoldIntersection(ss)
    ensures DayLists(ss, d) != [] && FoldIntersection(ss)[d] == Chain(DayLists(ss, d))
  {
    var init := ss[..|ss| - 1];
    if |ss| == 1 {
      assert DayLists(init, d) == [];
    } else {
      FoldDayValue(init, d);
      var ls := DayLists(init, d);
      assert DayLists(ss, d) == ls + [ss[|ss| - 1][d]];
      assert (ls + [ss[|ss| - 1][d]])[..|ls|] == ls;
    }
  }

  /** `getOverlappingTimes` over one or more schedules: its days are the days all of them
      share, and on such a day a time point is covered exactly when every schedule covers it. */
  lemma OverlappingTimesMeaning(ss: seq<Schedule>, d: Day, t: int)
    requires ss != []
    ensures d in OverlappingTimes(ss) <==> forall i :: 0 <= i < |ss| ==> d in ss[i]
    ensures d in OverlappingTimes(ss) ==>
      (Covers(OverlappingTimes(ss)[d], t) <==> forall i :: 0 <= i < |ss| ==> Covers(ss[i][d], t))
  {
    FoldDays(ss, d);
    if d in OverlappingTimes(ss) {
      FoldDayValue(ss, d);
      ChainCovers(DayLists(ss, d), t);
      DayListsCovers(ss, d, t);
    }
  }

  /** With two or more schedules every interval of the result covers some time point,
      whatever the inputs held; with one the schedule comes back as it was. */
  lemma OverlappingTimesWellFormed(ss: seq<Schedule>)
    requires |ss| >= 2
    ensures WellFormed(OverlappingTimes(ss))
  {
    IntersectedWellFormed(FoldIntersection(ss[..|ss| - 1]), ss[|ss| - 1]);
  }

  /** Supplying the same schedules in another order, or with repeats, keeps the same days and
      the same covered time points on each; the intervals within a day may change. */
  lemma OverlappingTimesOrderFree(ss1: seq<Schedule>, ss2: seq<Schedule>, d: Day, t: int)
    requires ss1 != [] && ss2 != []
    requires forall s :: s in ss1 <==> s in ss2
    ensures d in OverlappingTimes(ss1) <==> d in OverlappingTimes(ss2)
    ensures d in OverlappingTimes(ss1) ==>
      (Covers(OverlappingTimes(ss1)[d], t) <==> Covers(OverlappingTimes(ss2)[d], t))
  {
    OverlappingTimesMeaning(ss1, d, t);
    OverlappingTimesMeaning(ss2, d, t);
    EveryScheduleSame(ss1, ss2, d, t);
    EveryScheduleSame(ss2, ss1, d, t);
  }

  lemma EveryScheduleSame(ss1: seq<Schedule>, ss2: seq<Schedule>, d: Day, t: int)
    requires forall s :: s in ss1 ==> s in ss2
    ensures (forall i :: 0 <= i < |ss2| ==> d in ss2[i]) ==> (forall i :: 0 <= i < |ss1| ==> d in ss1[i])
    ensures (forall i :: 0 <= i < |ss2| ==> d in ss2[i] && Covers(ss2[i][d], t))
        ==> (forall i :: 0 <= i < |ss1| ==> d in ss1[i] && Covers(ss1[i][d], t))
  {
    forall i | 0 <= i < |ss1|
      ensures exists k :: 0 <= k < |ss2| && ss2[k] == ss1[i]
    {
      assert ss1[i] in ss2;
    }
  }
}
