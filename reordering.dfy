/**
 Reordering: neither the order nor the grouping in which schedules are intersected changes
 which windows come out.

 `overlap` emits its windows in loop order, so reordering the schedules may change the list
 of intervals of a day, but not the set of windows on it. The argument works on the
 left-to-right overlap `Chain` of a day's lists:
 - `overlap` is commutative and right-commutative up to membership, and respects membership;
 - so the last list can be moved anywhere (`ChainMoveToEnd`);
 - so any permutation of the lists gives the same windows (`ChainPermuted`).
 Grouping changes nothing at all: `overlap` is associative as a function on lists
 (`CrossOverlapAssociates`), so both groupings of three schedules give the same result.
 Repeating a schedule is different: it can add windows (`RepeatAddsWindow`), though never
 covered time points.
 */
module Reordering {
  import opened Schedules
  import opened TimeUnion

  /** Two interval lists hold the same windows, possibly in another order or with other repeats. */
  ghost predicate SameWindows(a: seq<Interval>, b: seq<Interval>)
  {
    forall iv :: iv in a <==> iv in b
  }

  lemma SameWindowsTransitive(a: seq<Interval>, b: seq<Interval>, c: seq<Interval>)
    requires SameWindows(a, b) && SameWindows(b, c)
    ensures SameWindows(a, c)
  {
  }

  /** A window one pair yields is in the output of `overlap`. */
  lemma PairInCrossOverlap(xs: seq<Interval>, ys: seq<Interval>, i: nat, j: nat, iv: Interval)
    requires i < |xs| && j < |ys| && iv in PairOverlap(xs[i], ys[j])
    ensures iv in CrossOverlap(xs, ys)
  {
    CrossOverlapMembers(xs, ys, iv);
  }

  /** A window in the output of `overlap` comes from some pair. */
  lemma CrossOverlapWitness(xs: seq<Interval>, ys: seq<Interval>, iv: Interval) returns (i: nat, j: nat)
    requires iv in CrossOverlap(xs, ys)
    ensures i < |xs| && j < |ys| && iv in PairOverlap(xs[i], ys[j])
  {
    CrossOverlapMembers(xs, ys, iv);
    i, j :| 0 <= i < |xs| && 0 <= j < |ys| && iv in PairOverlap(xs[i], ys[j]);
  }

  /** Clipping `x` by `y` and then by `w` gives the window clipping `x` by `w` and then by `y` gives. */
  lemma PairsRegroup(x: Interval, y: Interval, w: Interval, v: Interval, iv: Interval)
    requires v in PairOverlap(x, y) && iv in PairOverlap(v, w)
    ensures Clip(x, w) in PairOverlap(x, w) && iv in PairOverlap(Clip(x, w), y)
  {
  }

  // ---------------------------------------------------------------------------
  // overlap, up to membership
  // ---------------------------------------------------------------------------

  /** Swapping the two arguments of `overlap` keeps the same windows. */
  lemma CrossOverlapCommutes(xs: seq<Interval>, ys: seq<Interval>)
    ensures SameWindows(CrossOverlap(xs, ys), CrossOverlap(ys, xs))
  {
    forall iv
      ensures iv in CrossOverlap(xs, ys) <==> iv in CrossOverlap(ys, xs)
    {
      CrossOverlapMembers(xs, ys, iv);
      CrossOverlapMembers(ys, xs, iv);
      if iv in CrossOverlap(xs, ys) {
        var i, j :| 0 <= i < |xs| && 0 <= j < |ys| && iv in PairOverlap(xs[i], ys[j]);
        PairOverlapIffShared(xs[i], ys[j]);
      }
      if iv in CrossOverlap(ys, xs) {
        var j, i :| 0 <= j < |ys| && 0 <= i < |xs| && iv in PairOverlap(ys[j], xs[i]);
        PairOverlapIffShared(ys[j], xs[i]);
      }
    }
  }

  /** Replacing either argument of `overlap` by a list with the same windows keeps the same windows. */
  lemma CrossOverlapRespects(xs1: seq<Interval>, xs2: seq<Interval>, ys1: seq<Interval>, ys2: seq<Interval>)
    requires SameWindows(xs1, xs2) && SameWindows(ys1, ys2)
    ensures SameWindows(CrossOverlap(xs1, ys1), CrossOverlap(xs2, ys2))
  {
    forall iv
      ensures iv in CrossOverlap(xs1, ys1) <==> iv in CrossOverlap(xs2, ys2)
    {
      RespectsOneWay(xs1, xs2, ys1, ys2, iv);
      RespectsOneWay(xs2, xs1, ys2, ys1, iv);
    }
  }

  lemma RespectsOneWay(xs1: seq<Interval>, xs2: seq<Interval>, ys1: seq<Interval>, ys2: seq<Interval>, iv: Interval)
    requires SameWindows(xs1, xs2) && SameWindows(ys1, ys2)
    ensures iv in CrossOverlap(xs1, ys1) ==> iv in CrossOverlap(xs2, ys2)
  {
    if iv in CrossOverlap(xs1, ys1) {
      var i, j := CrossOverlapWitness(xs1, ys1, iv);
      assert xs1[i] in xs2 && ys1[j] in ys2;
      var k :| 0 <= k < |xs2| && xs2[k] == xs1[i];
      var m :| 0 <= m < |ys2| && ys2[m] == ys1[j];
      PairInCrossOverlap(xs2, ys2, k, m, iv);
    }
  }

  /** Overlapping with `a` and then `z` keeps the same windows as with `z` and then `a`. */
  lemma CrossOverlapRightCommutes(xs: seq<Interval>, a: seq<Interval>, z: seq<Interval>)
    ensures SameWindows(CrossOverlap(CrossOverlap(xs, a), z), CrossOverlap(CrossOverlap(xs, z), a))
  {
    forall iv
      ensures iv in CrossOverlap(CrossOverlap(xs, a), z) <==> iv in CrossOverlap(CrossOverlap(xs, z), a)
    {
      RightCommutesOneWay(xs, a, z, iv);
      RightCommutesOneWay(xs, z, a, iv);
    }
  }

  /** The window of `x`, `y` and `w` clipped in turn does not depend on which of `y` and `w` comes first. */
  lemma RightCommutesOneWay(xs: seq<Interval>, a: seq<Interval>, z: seq<Interval>, iv: Interval)
    ensures iv in CrossOverlap(CrossOverlap(xs, a), z) ==> iv in CrossOverlap(CrossOverlap(xs, z), a)
  {
    var first := CrossOverlap(xs, a);
    if iv in CrossOverlap(first, z) {
      var k, m := CrossOverlapWitness(first, z, iv);
      var i, j := CrossOverlapWitness(xs, a, first[k]);
      PairsRegroup(xs[i], a[j], z[m], first[k], iv);
      var u, second := Clip(xs[i], z[m]), CrossOverlap(xs, z);
      PairInCrossOverlap(xs, z, i, m, u);
      var n :| 0 <= n < |second| && second[n] == u;
      PairInCrossOverlap(second, a, n, j, iv);
    }
  }

  lemma MultisetCancel<T>(m1: multiset<T>, m2: multiset<T>, a: T)
    requires m1 + multiset{a} == m2 + multiset{a}
    ensures m1 == m2
  {
    assert m1 == (m1 + multiset{a}) - multiset{a};
    assert m2 == (m2 + multiset{a}) - multiset{a};
  }

  /** A permutation of `s1` holds the last element of `s1` somewhere, with a permutation of
      the rest of `s1` around it. */
  lemma SplitAtLast<T>(s1: seq<T>, s2: seq<T>) returns (p: seq<T>, q: seq<T>)
    requires s1 != [] && multiset(s1) == multiset(s2)
    ensures s2 == p + [s1[|s1| - 1]] + q
    ensures multiset(s1[..|s1| - 1]) == multiset(p + q)
  {
    var init, a := s1[..|s1| - 1], s1[|s1| - 1];
    assert s1 == init + [a];
    assert a in multiset(s2);
    var j :| 0 <= j < |s2| && s2[j] == a;
    p, q := s2[..j], s2[j + 1..];
    assert s2 == p + [a] + q;
    calc {
      multiset(init) + multiset{a};
      multiset(s1);
      multiset(s2);
      multiset(p) + multiset{a} + multiset(q);
      multiset(p + q) + multiset{a};
    }
    MultisetCancel(multiset(init), multiset(p + q), a);
  }

  // ---------------------------------------------------------------------------
  // Chain, up to membership
  // ---------------------------------------------------------------------------

  /** Overlapping one more list onto a chain. */
  lemma ChainSnoc(ls: seq<seq<Interval>>, l: seq<Interval>)
    requires ls != []
    ensures Chain(ls + [l]) == CrossOverlap(Chain(ls), l)
  {
    assert (ls + [l])[..|ls|] == ls;
  }

  /** Any list of a chain can be taken out and overlapped last instead. */
  lemma {:induction false} ChainMoveToEnd(p: seq<seq<Interval>>, a: seq<Interval>, q: seq<seq<Interval>>)
    requires p + q != []
    ensures SameWindows(Chain(p + [a] + q), CrossOverlap(Chain(p + q), a))
    decreases |q|
  {
    if q == [] {
      assert p + [a] + q == p + [a] && p + q == p;
      ChainSnoc(p, a);
    } else {
      var q', z := q[..|q| - 1], q[|q| - 1];
      assert p + [a] + q == (p + [a] + q') + [z];
      assert p + q == (p + q') + [z];
      ChainSnoc(p + [a] + q', z);
      if p + q' == [] {
        assert p + [a] + q' == [a] && p + q == [z];
        CrossOverlapCommutes(a, z);
      } else {
        var before, others := Chain(p + [a] + q'), Chain(p + q');
        ChainSnoc(p + q', z);
        ChainMoveToEnd(p, a, q');
        CrossOverlapRespects(before, CrossOverlap(others, a), z, z);
        CrossOverlapRightCommutes(others, a, z);
        SameWindowsTransitive(CrossOverlap(before, z), CrossOverlap(CrossOverlap(others, a), z),
                              CrossOverlap(CrossOverlap(others, z), a));
      }
    }
  }

  /** Overlapping the same lists in any order gives the same windows. */
  lemma {:induction false} ChainPermuted(ls1: seq<seq<Interval>>, ls2: seq<seq<Interval>>)
    requires ls1 != [] && multiset(ls1) == multiset(ls2)
    ensures ls2 != [] && SameWindows(Chain(ls1), Chain(ls2))
    decreases |ls1|
  {
    var init, a := ls1[..|ls1| - 1], ls1[|ls1| - 1];
    var p, q := SplitAtLast(ls1, ls2);
    if init == [] {
      assert |p + q| == |multiset(p + q)| == 0;
      assert ls2 == ls1;
    } else {
      ChainPermuted(init, p + q);
      CrossOverlapRespects(Chain(init), Chain(p + q), a, a);
      ChainMoveToEnd(p, a, q);
      SameWindowsTransitive(Chain(ls1), CrossOverlap(Chain(p + q), a), Chain(ls2));
    }
  }

  // ---------------------------------------------------------------------------
  // Grouping: overlap is associative, exactly
  // ---------------------------------------------------------------------------

  /** Overlapping a one-interval list is a single row. */
  lemma CrossOverlapOfOne(c: Interval, ys: seq<Interval>)
    ensures CrossOverlap([c], ys) == RowOverlap(c, ys)
  {
    assert [c][..0] == [];
  }

  /** Clipping `x` by the window of `y` and `z` gives what clipping the window of `x` and `y` by `z` gives. */
  lemma PairOfPair(x: Interval, y: Interval, z: Interval)
    ensures RowOverlap(x, PairOverlap(y, z)) == CrossOverlap(PairOverlap(x, y), [z])
  {
    assert [z][..0] == [];
    var w := Clip(y, z);
    if w.start < w.end {
      assert [w][..0] == [];
    }
    if Clip(x, y).start < Clip(x, y).end {
      CrossOverlapOfOne(Clip(x, y), [z]);
    }
  }

  /** Overlapping `x` with a row of `y` is overlapping the window of `x` and `y`, if any, with the row's list. */
  lemma RowOfRow(x: Interval, y: Interval, zs: seq<Interval>)
    ensures RowOverlap(x, RowOverlap(y, zs)) == CrossOverlap(PairOverlap(x, y), zs)
  {
    var p := PairOverlap(x, y);
    if p == [] {
      RowOfRowNoWindow(x, y, zs);
    } else {
      RowOfRowWindow(x, y, zs);
      CrossOverlapOfOne(p[0], zs);
    }
  }

  lemma {:induction false} RowOfRowNoWindow(x: Interval, y: Interval, zs: seq<Interval>)
    requires PairOverlap(x, y) == []
    ensures RowOverlap(x, RowOverlap(y, zs)) == []
    decreases |zs|
  {
    if zs != [] {
      var init, z := zs[..|zs| - 1], zs[|zs| - 1];
      calc {
        RowOverlap(x, RowOverlap(y, zs));
        RowOverlap(x, RowOverlap(y, init) + PairOverlap(y, z));
        { RowOverlapAppend(x, RowOverlap(y, init), PairOverlap(y, z)); }
        RowOverlap(x, RowOverlap(y, init)) + RowOverlap(x, PairOverlap(y, z));
        { RowOfRowNoWindow(x, y, init); PairOfPair(x, y, z); }
        [] + CrossOverlap([], [z]);
        [];
      }
    }
  }

  lemma {:induction false} RowOfRowWindow(x: Interval, y: Interval, zs: seq<Interval>)
    requires PairOverlap(x, y) != []
    ensures RowOverlap(x, RowOverlap(y, zs)) == RowOverlap(Clip(x, y), zs)
    decreases |zs|
  {
    if zs != [] {
      var init, z, c := zs[..|zs| - 1], zs[|zs| - 1], Clip(x, y);
      assert PairOverlap(x, y) == [c];
      calc {
        RowOverlap(x, RowOverlap(y, zs));
        RowOverlap(x, RowOverlap(y, init) + PairOverlap(y, z));
        { RowOverlapAppend(x, RowOverlap(y, init), PairOverlap(y, z)); }
        RowOverlap(x, RowOverlap(y, init)) + RowOverlap(x, PairOverlap(y, z));
        { RowOfRowWindow(x, y, init); PairOfPair(x, y, z); }
        RowOverlap(c, init) + CrossOverlap([c], [z]);
        { CrossOverlapOfOne(c, [z]); assert [z][..0] == []; }
        RowOverlap(c, init) + PairOverlap(c, z);
        RowOverlap(c, zs);
      }
    }
  }

  /** Overlapping `x` with the output of `overlap(ys, zs)` is overlapping `x`'s row over `ys` with `zs`. */
  lemma {:induction false} RowOfCross(x: Interval, ys: seq<Interval>, zs: seq<Interval>)
    ensures RowOverlap(x, CrossOverlap(ys, zs)) == CrossOverlap(RowOverlap(x, ys), zs)
    decreases |ys|
  {
    if ys != [] {
      var init, y := ys[..|ys| - 1], ys[|ys| - 1];
      calc {
        RowOverlap(x, CrossOverlap(ys, zs));
        RowOverlap(x, CrossOverlap(init, zs) + RowOverlap(y, zs));
        { RowOverlapAppend(x, CrossOverlap(init, zs), RowOverlap(y, zs)); }
        RowOverlap(x, CrossOverlap(init, zs)) + RowOverlap(x, RowOverlap(y, zs));
        { RowOfCross(x, init, zs); RowOfRow(x, y, zs); }
        CrossOverlap(RowOverlap(x, init), zs) + CrossOverlap(PairOverlap(x, y), zs);
        { CrossOverlapAppend(RowOverlap(x, init), PairOverlap(x, y), zs); }
        CrossOverlap(RowOverlap(x, init) + PairOverlap(x, y), zs);
        CrossOverlap(RowOverlap(x, ys), zs);
      }
    }
  }

  /** `overlap` is associative: both groupings emit the same windows in the same order. */
  lemma {:induction false} CrossOverlapAssociates(xs: seq<Interval>, ys: seq<Interval>, zs: seq<Interval>)
    ensures CrossOverlap(xs, CrossOverlap(ys, zs)) == CrossOverlap(CrossOverlap(xs, ys), zs)
    decreases |xs|
  {
    if xs != [] {
      var init, x := xs[..|xs| - 1], xs[|xs| - 1];
      var inner := CrossOverlap(ys, zs);
      calc {
        CrossOverlap(xs, inner);
        CrossOverlap(init, inner) + RowOverlap(x, inner);
        { CrossOverlapAssociates(init, ys, zs); RowOfCross(x, ys, zs); }
        CrossOverlap(CrossOverlap(init, ys), zs) + CrossOverlap(RowOverlap(x, ys), zs);
        { CrossOverlapAppend(CrossOverlap(init, ys), RowOverlap(x, ys), zs); }
        CrossOverlap(CrossOverlap(init, ys) + RowOverlap(x, ys), zs);
        CrossOverlap(CrossOverlap(xs, ys), zs);
      }
    }
  }

  /** `intersectAvailabilities` is associative. */
  lemma IntersectedAssociates(a: Schedule, b: Schedule, c: Schedule)
    ensures IntersectedSchedules(IntersectedSchedules(a, b), c) == IntersectedSchedules(a, IntersectedSchedules(b, c))
  {
    var left, right := IntersectedSchedules(IntersectedSchedules(a, b), c), IntersectedSchedules(a, IntersectedSchedules(b, c));
    forall d | d in left
      ensures d in right && left[d] == right[d]
    {
      CrossOverlapAssociates(a[d], b[d], c[d]);
    }
    assert left.Keys == right.Keys;
  }

  /** Three schedules may be intersected in either grouping through `getOverlappingTimes`, and both
      equal the three-argument call. */
  lemma OverlappingTimesAssociates(a: Schedule, b: Schedule, c: Schedule)
    ensures OverlappingTimes([OverlappingTimes([a, b]), c]) == OverlappingTimes([a, b, c])
    ensures OverlappingTimes([a, OverlappingTimes([b, c])]) == OverlappingTimes([a, b, c])
  {
    OverlappingTimesOfTwo(a, b);
    OverlappingTimesOfTwo(b, c);
    OverlappingTimesOfTwo(IntersectedSchedules(a, b), c);
    OverlappingTimesOfTwo(a, IntersectedSchedules(b, c));
    assert [a, b, c][..2] == [a, b];
    IntersectedAssociates(a, b, c);
  }

  // ---------------------------------------------------------------------------
  // A day's lists under a permutation of the schedules
  // ---------------------------------------------------------------------------

  /** The lists held for a day by two runs of schedules, one after the other. */
  lemma {:induction false} DayListsAppend(ss1: seq<Schedule>, ss2: seq<Schedule>, d: Day)
    ensures DayLists(ss1 + ss2, d) == DayLists(ss1, d) + DayLists(ss2, d)
    decreases |ss2|
  {
    var whole := ss1 + ss2;
    if ss2 == [] {
      assert whole == ss1;
    } else {
      var init, last := ss2[..|ss2| - 1], ss2[|ss2| - 1];
      var tail := if d in last then [last[d]] else [];
      assert whole[..|whole| - 1] == ss1 + init && whole[|whole| - 1] == last;
      calc {
        DayLists(whole, d);
        DayLists(ss1 + init, d) + tail;
        { DayListsAppend(ss1, init, d); }
        (DayLists(ss1, d) + DayLists(init, d)) + tail;
        DayLists(ss1, d) + (DayLists(init, d) + tail);
      }
    }
  }

  /** The lists held for a day by `p`, then one schedule `a`, then `q`. */
  lemma DayListsAround(p: seq<Schedule>, a: Schedule, q: seq<Schedule>, d: Day)
    ensures DayLists(p + [a] + q, d) == DayLists(p, d) + DayLists([a], d) + DayLists(q, d)
    ensures DayLists(p + [a], d) == DayLists(p, d) + DayLists([a], d)
  {
    DayListsAppend(p + [a], q, d);
    DayListsAppend(p, [a], d);
  }

  lemma MultisetOfMiddle<T>(x: seq<T>, y: seq<T>, z: seq<T>)
    ensures multiset(x + y + z) == multiset(x + z) + multiset(y)
  {
    assert multiset(x + y + z) == multiset(x) + multiset(y) + multiset(z);
    assert multiset(x + z) == multiset(x) + multiset(z);
  }

  /** Permuting the schedules permutes the lists they hold for any day. */
  lemma {:induction false} DayListsPermuted(ss1: seq<Schedule>, ss2: seq<Schedule>, d: Day)
    requires multiset(ss1) == multiset(ss2)
    ensures multiset(DayLists(ss1, d)) == multiset(DayLists(ss2, d))
    decreases |ss1|
  {
    if ss1 == [] {
      assert |ss2| == |multiset(ss2)| == 0;
    } else {
      var init, a := ss1[..|ss1| - 1], ss1[|ss1| - 1];
      var p, q := SplitAtLast(ss1, ss2);
      assert ss1 == init + [a];
      var lp, la, lq, li := DayLists(p, d), DayLists([a], d), DayLists(q, d), DayLists(init, d);
      DayListsAround(p, a, q, d);
      DayListsAround(init, a, [], d);
      assert init + [a] + [] == ss1;
      DayListsAppend(p, q, d);
      DayListsPermuted(init, p + q, d);
      MultisetOfMiddle(lp, la, lq);
      assert multiset(DayLists(ss1, d)) == multiset(li) + multiset(la);
    }
  }

  // ---------------------------------------------------------------------------
  // getOverlappingTimes under a permutation of its arguments
  // ---------------------------------------------------------------------------

  /** `getOverlappingTimes` over the same schedules in any order returns the same days and, on
      each day, the same set of windows. */
  lemma OverlappingTimesPermuted(ss1: seq<Schedule>, ss2: seq<Schedule>, d: Day)
    requires multiset(ss1) == multiset(ss2)
    ensures d in OverlappingTimes(ss1) <==> d in OverlappingTimes(ss2)
    ensures d in OverlappingTimes(ss1) ==> SameWindows(OverlappingTimes(ss1)[d], OverlappingTimes(ss2)[d])
  {
    assert |ss2| == |multiset(ss2)| == |multiset(ss1)| == |ss1|;
    if ss1 != [] {
      forall s
        ensures s in ss1 <==> s in ss2
      {
        assert s in ss1 <==> s in multiset(ss1);
        assert s in ss2 <==> s in multiset(ss2);
      }
      OverlappingTimesOrderFree(ss1, ss2, d, 0);
      if d in OverlappingTimes(ss1) {
        FoldDayValue(ss1, d);
        FoldDayValue(ss2, d);
        DayListsPermuted(ss1, ss2, d);
        ChainPermuted(DayLists(ss1, d), DayLists(ss2, d));
      }
    }
  }

  /** Swapping two schedules is one such permutation. */
  lemma OverlappingTimesSwapped(a: Schedule, b: Schedule, d: Day)
    ensures d in OverlappingTimes([a, b]) <==> d in OverlappingTimes([b, a])
    ensures d in OverlappingTimes([a, b]) ==> SameWindows(OverlappingTimes([a, b])[d], OverlappingTimes([b, a])[d])
  {
    assert multiset([a, b]) == multiset([b, a]);
    OverlappingTimesPermuted([a, b], [b, a], d);
  }

  /** Supplying a schedule twice can add windows: a list overlapped with itself yields the pairwise
      overlaps of its own intervals. */
  lemma RepeatAddsWindow()
    ensures var s := map["Monday" := [Interval(0, 10), Interval(5, 15)]];
      "Monday" in OverlappingTimes([s, s]) &&
      Interval(5, 10) in OverlappingTimes([s, s])["Monday"] && Interval(5, 10) !in s["Monday"]
  {
    var s := map["Monday" := [Interval(0, 10), Interval(5, 15)]];
    OverlappingTimesOfTwo(s, s);
    var l := s["Monday"];
    CrossOverlapMembers(l, l, Interval(5, 10));
    assert Interval(5, 10) in PairOverlap(l[0], l[1]);
  }
}
