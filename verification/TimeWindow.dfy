/** Windows as sets of instants, and the sweep that merges them. Times are reals. */
module WindowModel {
  datatype TimeWindow = TimeWindow(startsAt: real, endsAt: real, startInclusive: bool, endInclusive: bool)

  predicate Ordered(w: TimeWindow) {
    w.startsAt <= w.endsAt
  }

  predicate AfterStart(t: real, w: TimeWindow) {
    if w.startInclusive then t >= w.startsAt else t > w.startsAt
  }

  predicate BeforeEnd(t: real, w: TimeWindow) {
    if w.endInclusive then t <= w.endsAt else t < w.endsAt
  }

  predicate Contains(w: TimeWindow, t: real) {
    AfterStart(t, w) && BeforeEnd(t, w)
  }

  /** A window contains what lies between its ends, nothing beyond them, and each end if that is inclusive. */
  lemma EdgeInstants(w: TimeWindow, t: real)
    ensures w.startsAt < t < w.endsAt ==> Contains(w, t)
    ensures t < w.startsAt || t > w.endsAt ==> !Contains(w, t)
    ensures w.startsAt < w.endsAt ==> (Contains(w, w.startsAt) <==> w.startInclusive)
    ensures w.startsAt < w.endsAt ==> (Contains(w, w.endsAt) <==> w.endInclusive)
    ensures w.startsAt == w.endsAt ==> (Contains(w, w.startsAt) <==> w.startInclusive && w.endInclusive)
  {
  }

  predicate NonEmpty(w: TimeWindow) {
    w.startsAt < w.endsAt || (w.startsAt == w.endsAt && w.startInclusive && w.endInclusive)
  }

  ghost predicate Within(ws: seq<TimeWindow>, t: real) {
    exists i :: 0 <= i < |ws| && Contains(ws[i], t)
  }

  lemma WithinAppend(ws: seq<TimeWindow>, w: TimeWindow, t: real)
    ensures Within(ws + [w], t) <==> Within(ws, t) || Contains(w, t)
  {
    assert (ws + [w])[|ws|] == w;
    if Within(ws, t) {
      var i :| 0 <= i < |ws| && Contains(ws[i], t);
      assert (ws + [w])[i] == ws[i];
    }
  }

  // --- the order of the sweep ---

  /** The comparator of the sort: by start, then by end. */
  predicate NoLater(a: TimeWindow, b: TimeWindow) {
    a.startsAt < b.startsAt || (a.startsAt == b.startsAt && a.endsAt <= b.endsAt)
  }

  ghost predicate Sorted(ws: seq<TimeWindow>) {
    forall i, j | 0 <= i < j < |ws| :: NoLater(ws[i], ws[j])
  }

  function Insert(s: seq<TimeWindow>, w: TimeWindow): (r: seq<TimeWindow>)
    ensures |r| == |s| + 1 && multiset(r) == multiset(s) + multiset{w}
  {
    if s == [] || NoLater(s[|s| - 1], w) then s + [w]
    else
      assert s == s[..|s| - 1] + [s[|s| - 1]];
      Insert(s[..|s| - 1], w) + [s[|s| - 1]]
  }

  /** The stable sort of the library: equal keys keep their order. */
  function StableSort(ws: seq<TimeWindow>): (r: seq<TimeWindow>)
    ensures multiset(r) == multiset(ws)
  {
    if ws == [] then []
    else
      assert ws == ws[..|ws| - 1] + [ws[|ws| - 1]];
      Insert(StableSort(ws[..|ws| - 1]), ws[|ws| - 1])
  }

  lemma {:induction false} InsertSorts(s: seq<TimeWindow>, w: TimeWindow)
    requires Sorted(s)
    ensures Sorted(Insert(s, w))
  {
    if s != [] && !NoLater(s[|s| - 1], w) {
      var front, last := s[..|s| - 1], s[|s| - 1];
      InsertSorts(front, w);
      var r := Insert(front, w);
      forall i | 0 <= i < |r| ensures NoLater(r[i], last) {
        assert r[i] in multiset(r);
        assert r[i] in multiset(front) + multiset{w};
      }
    }
  }

  lemma {:induction false} StableSortSorts(ws: seq<TimeWindow>)
    ensures Sorted(StableSort(ws))
  {
    if ws != [] {
      StableSortSorts(ws[..|ws| - 1]);
      InsertSorts(StableSort(ws[..|ws| - 1]), ws[|ws| - 1]);
    }
  }

  /** The windows with one given start and end, in order. */
  function Keyed(ws: seq<TimeWindow>, start: real, end: real): seq<TimeWindow> {
    if ws == [] then []
    else
      var front, last := Keyed(ws[..|ws| - 1], start, end), ws[|ws| - 1];
      if last.startsAt == start && last.endsAt == end then front + [last] else front
  }

  lemma {:induction false} InsertKeepsKeyed(s: seq<TimeWindow>, w: TimeWindow, start: real, end: real)
    requires Sorted(s)
    ensures Keyed(Insert(s, w), start, end) == Keyed(s + [w], start, end)
  {
    assert (s + [w])[..|s|] == s;
    if s != [] && !NoLater(s[|s| - 1], w) {
      var front, last := s[..|s| - 1], s[|s| - 1];
      InsertKeepsKeyed(front, w, start, end);
      assert (front + [w])[..|front|] == front;
      assert Insert(s, w)[..|s|] == Insert(front, w);
      if w.startsAt == start && w.endsAt == end {
        assert !(last.startsAt == start && last.endsAt == end);
      }
    }
  }

  lemma {:induction false} StableSortKeepsKeyed(ws: seq<TimeWindow>, start: real, end: real)
    ensures Keyed(StableSort(ws), start, end) == Keyed(ws, start, end)
  {
    if ws != [] {
      var front, last := ws[..|ws| - 1], ws[|ws| - 1];
      StableSortKeepsKeyed(front, start, end);
      StableSortSorts(front);
      InsertKeepsKeyed(StableSort(front), last, start, end);
      assert (StableSort(front) + [last])[..|StableSort(front)|] == StableSort(front);
    }
  }

  // --- the sweep ---

  predicate OverlapsOrTouch(a: TimeWindow, b: TimeWindow) {
    b.startsAt < a.endsAt || (b.startsAt == a.endsAt && (a.endInclusive || b.startInclusive))
  }

  /** What the sweep makes of `last` when `w` overlaps or touches it. */
  function Absorb(last: TimeWindow, w: TimeWindow): TimeWindow {
    var ended := if w.endsAt > last.endsAt then last.(endsAt := w.endsAt, endInclusive := w.endInclusive)
                 else if w.endsAt == last.endsAt then last.(endInclusive := last.endInclusive || w.endInclusive)
                 else last;
    if w.startsAt == last.startsAt then ended.(startInclusive := ended.startInclusive || w.startInclusive) else ended
  }

  function Last<T>(s: seq<T>): T
    requires s != []
  {
    s[|s| - 1]
  }

  function Sweep(merged: seq<TimeWindow>, w: TimeWindow): (r: seq<TimeWindow>)
    ensures r != []
  {
    if merged != [] && OverlapsOrTouch(Last(merged), w)
    then merged[..|merged| - 1] + [Absorb(Last(merged), w)]
    else merged + [w]
  }

  function MergeSorted(ws: seq<TimeWindow>): seq<TimeWindow> {
    if ws == [] then [] else Sweep(MergeSorted(ws[..|ws| - 1]), ws[|ws| - 1])
  }

  lemma SweepNext(ws: seq<TimeWindow>, i: nat)
    requires i < |ws|
    ensures MergeSorted(ws[..i + 1]) == Sweep(MergeSorted(ws[..i]), ws[i])
  {
    hide Sweep;
    assert ws[..i + 1][..i] == ws[..i];
  }

  function Merge(ws: seq<TimeWindow>): seq<TimeWindow> {
    MergeSorted(StableSort(ws))
  }
}

/** Which instants the merged windows cover. */
module WindowUnion {
  import opened WindowModel

  predicate OpenClosedAt(w: TimeWindow, t: real) {
    w == TimeWindow(t, t, false, true)
  }

  predicate ClosedOpenAt(w: TimeWindow, t: real) {
    w == TimeWindow(t, t, true, false)
  }

  /** Two empty windows at one instant, the one closed at its end given first. */
  ghost predicate Clash(ws: seq<TimeWindow>, t: real) {
    exists i, j :: 0 <= i < j < |ws| && OpenClosedAt(ws[i], t) && ClosedOpenAt(ws[j], t)
  }

  /** Absorbing joins two windows exactly, but for one pair of empty ones. */
  lemma AbsorbExact(last: TimeWindow, w: TimeWindow, t: real)
    requires Ordered(last) && Ordered(w) && last.startsAt <= w.startsAt && OverlapsOrTouch(last, w)
    requires last.startsAt == w.startsAt ==> last.endsAt <= w.endsAt
    ensures Contains(Absorb(last, w), t) <==>
            Contains(last, t) || Contains(w, t) || (OpenClosedAt(last, t) && ClosedOpenAt(w, t))
  {
  }

  predicate ZeroAt(w: TimeWindow, t: real) {
    w.startsAt == t == w.endsAt
  }

  /** What the sweep knows of the window it may still extend. */
  ghost predicate LastFits(ws: seq<TimeWindow>, last: TimeWindow)
    requires ws != []
  {
    && Ordered(last)
    && last.startsAt <= Last(ws).startsAt
    && (exists i :: 0 <= i < |ws| && ws[i].endsAt == last.endsAt && ws[i].startsAt >= last.startsAt)
    && (last.startsAt == last.endsAt && last.endInclusive ==> CloserIn(ws, last.startsAt))
  }

  ghost predicate CloserIn(ws: seq<TimeWindow>, t: real) {
    exists i :: 0 <= i < |ws| && ZeroAt(ws[i], t) && ws[i].endInclusive
  }

  /** Either the instant is covered or a zero-length window closed at its end is still last. */
  ghost predicate CloserSeen(merged: seq<TimeWindow>, t: real)
    requires merged != []
  {
    Within(merged, t) || (ZeroAt(Last(merged), t) && Last(merged).endInclusive)
  }

  ghost predicate PointsExact(ws: seq<TimeWindow>, merged: seq<TimeWindow>) {
    forall t :: Within(merged, t) <==> Within(ws, t) || Clash(ws, t)
  }

  ghost predicate SweepInv(ws: seq<TimeWindow>, merged: seq<TimeWindow>)
    requires ws != []
  {
    && merged != []
    && LastFits(ws, Last(merged))
    && PointsExact(ws, merged)
    && forall t | CloserIn(ws, t) && ZeroAt(Last(ws), t) :: CloserSeen(merged, t)
  }

  lemma ClashAppend(ws: seq<TimeWindow>, w: TimeWindow, t: real)
    ensures Clash(ws + [w], t) <==>
            Clash(ws, t) || (ClosedOpenAt(w, t) && exists i :: 0 <= i < |ws| && OpenClosedAt(ws[i], t))
  {
    var all := ws + [w];
    if i, j :| 0 <= i < j < |ws| && OpenClosedAt(ws[i], t) && ClosedOpenAt(ws[j], t) {
      assert OpenClosedAt(all[i], t) && ClosedOpenAt(all[j], t);
    }
    if i :| 0 <= i < |ws| && OpenClosedAt(ws[i], t) {
      assert OpenClosedAt(all[i], t) && all[|ws|] == w;
    }
  }

  lemma SweepPoints(merged: seq<TimeWindow>, w: TimeWindow, t: real)
    requires merged != [] && OverlapsOrTouch(Last(merged), w)
    requires Contains(Absorb(Last(merged), w), t) <==>
             Contains(Last(merged), t) || Contains(w, t) || (OpenClosedAt(Last(merged), t) && ClosedOpenAt(w, t))
    ensures Within(Sweep(merged, w), t) <==>
            Within(merged, t) || Contains(w, t) || (OpenClosedAt(Last(merged), t) && ClosedOpenAt(w, t))
  {
    var front := merged[..|merged| - 1];
    assert merged == front + [Last(merged)];
    WithinAppend(front, Last(merged), t);
    WithinAppend(front, Absorb(Last(merged), w), t);
  }

  ghost predicate AllOrdered(ws: seq<TimeWindow>) {
    forall i | 0 <= i < |ws| :: Ordered(ws[i])
  }

  /** A window that overlaps or touches comes late enough for absorbing to be exact. */
  lemma AbsorbsLater(ws: seq<TimeWindow>, last: TimeWindow, w: TimeWindow)
    requires ws != [] && LastFits(ws, last) && Sorted(ws + [w])
    ensures last.startsAt <= w.startsAt
    ensures last.startsAt == w.startsAt ==> last.endsAt <= w.endsAt
  {
    var i :| 0 <= i < |ws| && ws[i].endsAt == last.endsAt && ws[i].startsAt >= last.startsAt;
    var all := ws + [w];
    assert NoLater(all[i], all[|ws|]) && NoLater(all[|ws| - 1], all[|ws|]);
  }

  /** Between two windows of no length at one instant, all are of no length. */
  lemma ZeroBetween(ws: seq<TimeWindow>, w: TimeWindow, t: real)
    requires ws != [] && Sorted(ws + [w]) && ZeroAt(w, t)
    requires exists i :: 0 <= i < |ws| && ZeroAt(ws[i], t)
    ensures ZeroAt(Last(ws), t)
  {
    var i :| 0 <= i < |ws| && ZeroAt(ws[i], t);
    var all := ws + [w];
    assert NoLater(all[|ws| - 1], all[|ws|]);
    if i < |ws| - 1 { assert NoLater(all[i], all[|ws| - 1]); }
  }

  lemma CloserAppend(ws: seq<TimeWindow>, w: TimeWindow, t: real)
    ensures CloserIn(ws + [w], t) <==> CloserIn(ws, t) || (ZeroAt(w, t) && w.endInclusive)
  {
    var all := ws + [w];
    assert all[|ws|] == w;
    if i :| 0 <= i < |ws| && ZeroAt(ws[i], t) && ws[i].endInclusive {
      assert ZeroAt(all[i], t);
    }
  }

  lemma PointsKept(ws: seq<TimeWindow>, merged: seq<TimeWindow>, w: TimeWindow, t: real)
    requires ws != [] && SweepInv(ws, merged) && Ordered(w) && Sorted(ws + [w])
    ensures Within(Sweep(merged, w), t) <==> Within(ws + [w], t) || Clash(ws + [w], t)
    ensures Within(merged, t) ==> Within(Sweep(merged, w), t)
  {
    hide Within, Clash, Absorb;
    var last := Last(merged);
    WithinAppend(ws, w, t);
    ClashAppend(ws, w, t);
    if ClosedOpenAt(w, t) && exists i :: 0 <= i < |ws| && OpenClosedAt(ws[i], t) {
      ZeroBetween(ws, w, t);
      assert CloserSeen(merged, t);
    }
    if OverlapsOrTouch(last, w) {
      AbsorbsLater(ws, last, w);
      AbsorbExact(last, w, t);
      SweepPoints(merged, w, t);
      LastIsWithin(merged, t);
      if OpenClosedAt(last, t) && ClosedOpenAt(w, t) {
        CloserIsPoint(ws, t);
      }
    } else {
      WithinAppend(merged, w, t);
    }
  }

  lemma LastIsWithin(ws: seq<TimeWindow>, t: real)
    requires ws != []
    ensures Contains(Last(ws), t) ==> Within(ws, t)
  {
  }

  lemma CloserIsPoint(ws: seq<TimeWindow>, t: real)
    requires CloserIn(ws, t)
    ensures Within(ws, t) || exists i :: 0 <= i < |ws| && OpenClosedAt(ws[i], t)
  {
    var i :| 0 <= i < |ws| && ZeroAt(ws[i], t) && ws[i].endInclusive;
    assert Contains(ws[i], t) || OpenClosedAt(ws[i], t);
  }

  lemma LastFitsKept(ws: seq<TimeWindow>, merged: seq<TimeWindow>, w: TimeWindow)
    requires ws != [] && merged != [] && LastFits(ws, Last(merged)) && Ordered(w) && Sorted(ws + [w])
    ensures LastFits(ws + [w], Last(Sweep(merged, w)))
  {
    var last, all := Last(merged), ws + [w];
    CloserAppend(ws, w, last.startsAt);
    CloserAppend(ws, w, w.startsAt);
    AbsorbsLater(ws, last, w);
    assert all[|ws|] == w;
    if OverlapsOrTouch(last, w) && w.endsAt < last.endsAt {
      var i :| 0 <= i < |ws| && ws[i].endsAt == last.endsAt && ws[i].startsAt >= last.startsAt;
      assert all[i] == ws[i];
    }
  }

  lemma CloserKept(ws: seq<TimeWindow>, merged: seq<TimeWindow>, w: TimeWindow, t: real)
    requires ws != [] && SweepInv(ws, merged) && Ordered(w) && Sorted(ws + [w])
    requires CloserIn(ws + [w], t) && ZeroAt(w, t)
    ensures CloserSeen(Sweep(merged, w), t)
  {
    hide Within, Clash;
    var last := Last(merged);
    CloserAppend(ws, w, t);
    PointsKept(ws, merged, w, t);
    AbsorbsLater(ws, last, w);
    LastIsWithin(merged, t);
    LastIsWithin(Sweep(merged, w), t);
    if CloserIn(ws, t) {
      ZeroBetween(ws, w, t);
      assert CloserSeen(merged, t);
    }
  }

  lemma SweepKeeps(ws: seq<TimeWindow>, merged: seq<TimeWindow>, w: TimeWindow)
    requires ws != [] && SweepInv(ws, merged) && Ordered(w) && Sorted(ws + [w])
    ensures SweepInv(ws + [w], Sweep(merged, w))
  {
    hide Within, Clash, Sweep, CloserSeen, CloserIn;
    LastFitsKept(ws, merged, w);
    forall t ensures Within(Sweep(merged, w), t) <==> Within(ws + [w], t) || Clash(ws + [w], t) {
      PointsKept(ws, merged, w, t);
    }
    forall t | CloserIn(ws + [w], t) && ZeroAt(w, t) ensures CloserSeen(Sweep(merged, w), t) {
      CloserKept(ws, merged, w, t);
    }
  }

  lemma OneWindow(w: TimeWindow)
    requires Ordered(w)
    ensures SweepInv([w], [w])
  {
    hide Within;
    assert forall t :: !Clash([w], t);
  }

  lemma {:induction false} MergeSortedExact(ws: seq<TimeWindow>)
    requires Sorted(ws) && AllOrdered(ws)
    ensures PointsExact(ws, MergeSorted(ws))
    ensures ws != [] ==> SweepInv(ws, MergeSorted(ws))
  {
    if |ws| == 1 {
      assert MergeSorted(ws[..0]) == [];
      OneWindow(ws[0]);
      assert ws == [ws[0]] && MergeSorted(ws) == [ws[0]];
    } else if |ws| > 1 {
      hide SweepInv, Within, Clash;
      var front, w := ws[..|ws| - 1], ws[|ws| - 1];
      assert ws == front + [w];
      MergeSortedExact(front);
      SweepKeeps(front, MergeSorted(front), w);
    }
  }

  // --- from the sorted list back to the list as given ---

  lemma {:induction false} ClashIsKeyed(ws: seq<TimeWindow>, t: real)
    ensures Clash(ws, t) <==> Clash(Keyed(ws, t, t), t)
    ensures (exists i :: 0 <= i < |ws| && OpenClosedAt(ws[i], t)) <==>
            (exists i :: 0 <= i < |Keyed(ws, t, t)| && OpenClosedAt(Keyed(ws, t, t)[i], t))
  {
    if ws != [] {
      var front, last := ws[..|ws| - 1], ws[|ws| - 1];
      var keyed := Keyed(front, t, t);
      assert ws == front + [last];
      ClashIsKeyed(front, t);
      ClashAppend(front, last, t);
      ClashAppend(keyed, last, t);
      OpenClosedAppend(front, last, t);
      OpenClosedAppend(keyed, last, t);
    }
  }

  lemma OpenClosedAppend(ws: seq<TimeWindow>, w: TimeWindow, t: real)
    ensures (exists i :: 0 <= i < |ws + [w]| && OpenClosedAt((ws + [w])[i], t)) <==>
            OpenClosedAt(w, t) || exists i :: 0 <= i < |ws| && OpenClosedAt(ws[i], t)
  {
    var all := ws + [w];
    assert all[|ws|] == w;
    if i :| 0 <= i < |ws| && OpenClosedAt(ws[i], t) { assert OpenClosedAt(all[i], t); }
  }

  lemma SameWindowsSamePoints(ws: seq<TimeWindow>, vs: seq<TimeWindow>, t: real)
    requires multiset(ws) == multiset(vs)
    ensures Within(ws, t) ==> Within(vs, t)
  {
    if i :| 0 <= i < |ws| && Contains(ws[i], t) {
      assert ws[i] in multiset(vs);
      var j :| 0 <= j < |vs| && vs[j] == ws[i];
    }
  }

  /** Merging covers what was covered, and besides only the instants of a clash. */
  lemma MergeExact(ws: seq<TimeWindow>, t: real)
    requires AllOrdered(ws)
    ensures Within(Merge(ws), t) <==> Within(ws, t) || Clash(ws, t)
  {
    var sorted := StableSort(ws);
    StableSortSorts(ws);
    SortedAllOrdered(ws);
    MergeSortedExact(sorted);
    SameWindowsSamePoints(ws, sorted, t);
    SameWindowsSamePoints(sorted, ws, t);
    ClashIsKeyed(ws, t);
    ClashIsKeyed(sorted, t);
    StableSortKeepsKeyed(ws, t, t);
  }

  lemma SortedAllOrdered(ws: seq<TimeWindow>)
    requires AllOrdered(ws)
    ensures AllOrdered(StableSort(ws))
  {
    var sorted := StableSort(ws);
    forall i | 0 <= i < |sorted| ensures Ordered(sorted[i]) {
      assert sorted[i] in multiset(ws);
    }
  }

  ghost predicate SameInstants(ws: seq<TimeWindow>, vs: seq<TimeWindow>) {
    forall t :: Within(ws, t) <==> Within(vs, t)
  }

  /** The union is kept exactly when every clash lies inside some window. */
  lemma UnionKeptIff(ws: seq<TimeWindow>)
    requires AllOrdered(ws)
    ensures SameInstants(Merge(ws), ws) <==> forall t | Clash(ws, t) :: Within(ws, t)
  {
    forall t ensures Within(Merge(ws), t) <==> Within(ws, t) || Clash(ws, t) {
      MergeExact(ws, t);
    }
  }

  ghost predicate AllNonEmpty(ws: seq<TimeWindow>) {
    forall i | 0 <= i < |ws| :: NonEmpty(ws[i])
  }

  lemma UnionKept(ws: seq<TimeWindow>)
    requires AllNonEmpty(ws)
    ensures SameInstants(Merge(ws), ws)
  {
    UnionKeptIff(ws);
  }

  /** `(3,3]` and then `[3,3)` contain nothing, and merge to `[3,3]`; the other way round they stay empty. */
  lemma ClashWidens()
    ensures var ws := [TimeWindow(3.0, 3.0, false, true), TimeWindow(3.0, 3.0, true, false)];
            AllOrdered(ws) && !Within(ws, 3.0) && Within(Merge(ws), 3.0) && !Within(Merge([ws[1], ws[0]]), 3.0)
  {
    var a, b := TimeWindow(3.0, 3.0, false, true), TimeWindow(3.0, 3.0, true, false);
    var ws, vs := [a, b], [b, a];
    hide Merge;
    assert OpenClosedAt(ws[0], 3.0) && ClosedOpenAt(ws[1], 3.0);
    assert !Clash(vs, 3.0);
    MergeExact(ws, 3.0);
    MergeExact(vs, 3.0);
  }
}

/** The shape of the merged list. */
module WindowShape {
  import opened WindowModel
  import opened WindowUnion

  /** `a` ends before `b` starts, or where it does without reaching it. */
  predicate Apart(a: TimeWindow, b: TimeWindow) {
    a.endsAt < b.startsAt || (a.endsAt == b.startsAt && !a.endInclusive)
  }

  ghost predicate Separated(m: seq<TimeWindow>) {
    && AllOrdered(m)
    && forall i, j | 0 <= i < j < |m| :: Apart(m[i], m[j])
  }

  lemma ApartIsDisjoint(a: TimeWindow, b: TimeWindow, t: real)
    requires Apart(a, b)
    ensures !(Contains(a, t) && Contains(b, t))
  {
  }

  lemma SweepSeparates(ws: seq<TimeWindow>, merged: seq<TimeWindow>, w: TimeWindow)
    requires ws != [] && merged != [] && LastFits(ws, Last(merged)) && Ordered(w) && Sorted(ws + [w])
    requires Separated(merged)
    ensures Separated(Sweep(merged, w))
  {
    hide LastFits;
    var k := |merged| - 1;
    AbsorbsLater(ws, Last(merged), w);
    if OverlapsOrTouch(Last(merged), w) {
      forall i | 0 <= i < k ensures Apart(merged[i], Absorb(Last(merged), w)) {
        assert Apart(merged[i], merged[k]);
      }
    } else {
      forall i | 0 <= i <= k ensures Apart(merged[i], w) {
        assert i < k ==> Apart(merged[i], merged[k]);
      }
    }
  }

  lemma {:induction false} MergeSortedSeparated(ws: seq<TimeWindow>)
    requires Sorted(ws) && AllOrdered(ws)
    ensures Separated(MergeSorted(ws))
  {
    if |ws| == 1 {
      assert MergeSorted(ws[..0]) == [];
    } else if |ws| > 1 {
      var front, w := ws[..|ws| - 1], ws[|ws| - 1];
      assert ws == front + [w];
      MergeSortedSeparated(front);
      MergeSortedExact(front);
      SweepSeparates(front, MergeSorted(front), w);
    }
  }

  /** Every instant lies in one merged window at most, and the list goes up. */
  lemma MergeSeparated(ws: seq<TimeWindow>)
    requires AllOrdered(ws)
    ensures Separated(Merge(ws))
    ensures forall i, j, t | 0 <= i < j < |Merge(ws)| && Contains(Merge(ws)[i], t) :: !Contains(Merge(ws)[j], t)
  {
    StableSortSorts(ws);
    SortedAllOrdered(ws);
    MergeSortedSeparated(StableSort(ws));
    var m := Merge(ws);
    forall i, j, t | 0 <= i < j < |m| && Contains(m[i], t) ensures !Contains(m[j], t) {
      ApartIsDisjoint(m[i], m[j], t);
    }
  }

  // --- maximality ---

  /** At least one instant lies between `a` and `b`. */
  predicate Gap(a: TimeWindow, b: TimeWindow) {
    Apart(a, b) && (a.endsAt == b.startsAt ==> !b.startInclusive)
  }

  /** Upward, and none could be joined with another. */
  ghost predicate Unjoinable(m: seq<TimeWindow>) {
    forall i, j | 0 <= i < j < |m| :: Gap(m[i], m[j])
  }

  ghost predicate Maximal(m: seq<TimeWindow>) {
    AllNonEmpty(m) && Unjoinable(m)
  }

  /** All end by `s`, one of them there, and none of them closes there. */
  ghost predicate ShortOf(ws: seq<TimeWindow>, s: real) {
    && (forall i | 0 <= i < |ws| :: ws[i].endsAt < s || (ws[i].endsAt == s && !ws[i].endInclusive))
    && exists i :: 0 <= i < |ws| && ws[i].endsAt == s
  }

  /** The sweep cuts before this window: it starts open where everything before stops short. */
  ghost predicate Cuts(sorted: seq<TimeWindow>, f: nat)
    requires f < |sorted|
  {
    !sorted[f].startInclusive && ShortOf(sorted[..f], sorted[f].startsAt)
  }

  /** No later window opens where the sweep cut. */
  ghost predicate CutsStayOpen(sorted: seq<TimeWindow>) {
    forall f, i | 0 <= f <= i < |sorted| && Cuts(sorted, f) && sorted[i].startsAt == sorted[f].startsAt ::
      !sorted[i].startInclusive
  }

  ghost predicate CutFrom(ws: seq<TimeWindow>, s: real) {
    exists f :: 0 <= f < |ws| && Cuts(ws, f) && ws[f].startsAt == s
  }

  ghost predicate ClosesAt(ws: seq<TimeWindow>, t: real) {
    exists i :: 0 <= i < |ws| && ws[i].endsAt == t && ws[i].endInclusive
  }

  /** The last window starts where the one before it ends. */
  predicate LastMeets(m: seq<TimeWindow>) {
    |m| >= 2 && m[|m| - 2].endsAt == m[|m| - 1].startsAt
  }

  /** What the sweep knows of the window it may still extend, and of the cut before it. */
  ghost predicate TailFits(ws: seq<TimeWindow>, last: TimeWindow)
    requires ws != []
  {
    && last.startsAt <= Last(ws).startsAt
    && (forall i | 0 <= i < |ws| :: ws[i].endsAt <= last.endsAt)
    && (exists i :: 0 <= i < |ws| && ws[i].endsAt == last.endsAt)
    && (last.endInclusive <==> ClosesAt(ws, last.endsAt))
  }

  ghost predicate JoinInv(ws: seq<TimeWindow>, merged: seq<TimeWindow>)
    requires ws != []
  {
    && merged != [] && TailFits(ws, Last(merged))
    && (forall f | 0 <= f < |ws| && Cuts(ws, f) :: ws[f].startsAt <= Last(merged).startsAt)
    && (CutFrom(ws, Last(merged).startsAt) <==> LastMeets(merged))
    && (Unjoinable(merged) <==> CutsStayOpen(ws))
  }

  lemma CutsAppend(ws: seq<TimeWindow>, w: TimeWindow)
    ensures forall f | 0 <= f < |ws| :: Cuts(ws + [w], f) <==> Cuts(ws, f)
    ensures Cuts(ws + [w], |ws|) <==> !w.startInclusive && ShortOf(ws, w.startsAt)
  {
    hide ShortOf;
    var all := ws + [w];
    assert all[..|ws|] == ws;
    forall f | 0 <= f < |ws| ensures Cuts(all, f) <==> Cuts(ws, f) { assert all[..f] == ws[..f]; }
  }

  lemma CutFromAppend(ws: seq<TimeWindow>, w: TimeWindow, s: real)
    ensures CutFrom(ws + [w], s) <==> CutFrom(ws, s) || (w.startsAt == s && !w.startInclusive && ShortOf(ws, s))
  {
    hide ShortOf, Cuts;
    CutsAppend(ws, w);
    var all := ws + [w];
    assert all[|ws|] == w;
    if f :| 0 <= f < |ws| && Cuts(ws, f) && ws[f].startsAt == s { assert Cuts(all, f) && all[f] == ws[f]; }
    if w.startsAt == s && !w.startInclusive && ShortOf(ws, s) { assert Cuts(all, |ws|); }
  }

  lemma CutsOpen(ws: seq<TimeWindow>)
    ensures forall f | 0 <= f < |ws| && Cuts(ws, f) :: !ws[f].startInclusive
  {
  }

  /** An appended window spoils the cuts only by opening at one that is there already. */
  lemma StayOpenAppend(ws: seq<TimeWindow>, w: TimeWindow)
    ensures CutsStayOpen(ws + [w]) <==> CutsStayOpen(ws) && !(w.startInclusive && CutFrom(ws, w.startsAt))
  {
    hide ShortOf, Cuts;
    var all := ws + [w];
    CutsAppend(ws, w);
    CutsOpen(all);
    assert all[|ws|] == w;
    if CutsStayOpen(all) {
      forall f, i | 0 <= f <= i < |ws| && Cuts(ws, f) && ws[i].startsAt == ws[f].startsAt
        ensures !ws[i].startInclusive
      {
        assert all[i] == ws[i] && all[f] == ws[f] && Cuts(all, f);
      }
      if f :| 0 <= f < |ws| && Cuts(ws, f) && ws[f].startsAt == w.startsAt { assert Cuts(all, f) && all[f] == ws[f]; }
    }
  }

  lemma ClosesAppend(ws: seq<TimeWindow>, w: TimeWindow, t: real)
    ensures ClosesAt(ws + [w], t) <==> ClosesAt(ws, t) || (w.endsAt == t && w.endInclusive)
  {
    var all := ws + [w];
    assert all[|ws|] == w;
    if i :| 0 <= i < |ws| && ws[i].endsAt == t && ws[i].endInclusive { assert all[i] == ws[i]; }
  }

  lemma TailFitsKept(ws: seq<TimeWindow>, merged: seq<TimeWindow>, w: TimeWindow)
    requires ws != [] && merged != [] && TailFits(ws, Last(merged)) && Ordered(w) && Sorted(ws + [w])
    ensures TailFits(ws + [w], Last(Sweep(merged, w)))
  {
    hide ClosesAt;
    var all, last := ws + [w], Last(merged);
    assert all[|ws|] == w && NoLater(all[|ws| - 1], all[|ws|]);
    ClosesAppend(ws, w, last.endsAt);
    ClosesAppend(ws, w, w.endsAt);
    NotClosedBeyond(ws, last, w.endsAt);
    var i :| 0 <= i < |ws| && ws[i].endsAt == last.endsAt;
    assert all[i] == ws[i];
  }

  lemma NotClosedBeyond(ws: seq<TimeWindow>, last: TimeWindow, t: real)
    requires ws != [] && TailFits(ws, last)
    ensures t > last.endsAt ==> !ClosesAt(ws, t)
  {
  }

  /** Everything so far stops short of `s` exactly when the last window does. */
  lemma ShortOfLast(ws: seq<TimeWindow>, last: TimeWindow, s: real)
    requires ws != [] && TailFits(ws, last)
    ensures ShortOf(ws, s) <==> last.endsAt == s && !last.endInclusive
  {
  }

  lemma AbsorbJoins(merged: seq<TimeWindow>, x: TimeWindow)
    requires Separated(merged) && merged != [] && x.startsAt == Last(merged).startsAt
    requires Last(merged).startInclusive ==> x.startInclusive
    ensures LastMeets(merged[..|merged| - 1] + [x]) <==> LastMeets(merged)
    ensures Unjoinable(merged[..|merged| - 1] + [x]) <==>
            Unjoinable(merged) && (LastMeets(merged) ==> !x.startInclusive)
  {
    var k := |merged| - 1;
    var m := merged[..k] + [x];
    forall i | 0 <= i < k ensures Apart(merged[i], merged[k]) && Apart(m[i], x) && m[i] == merged[i] {}
    forall i | 0 <= i < k && merged[i].endsAt == merged[k].startsAt ensures LastMeets(merged) {
      if i < k - 1 { assert Apart(merged[i], merged[k - 1]); }
    }
    if Unjoinable(m) {
      forall i, j | 0 <= i < j < |merged| ensures Gap(merged[i], merged[j]) { assert Gap(m[i], m[j]); }
      if LastMeets(merged) { assert Gap(m[k - 1], m[k]); }
    }
    if Unjoinable(merged) && (LastMeets(merged) ==> !x.startInclusive) {
      forall i, j | 0 <= i < j < |m| ensures Gap(m[i], m[j]) { assert Gap(merged[i], merged[j]); }
    }
  }

  lemma PushJoins(merged: seq<TimeWindow>, w: TimeWindow)
    requires merged != [] && Separated(merged + [w]) && (LastMeets(merged + [w]) ==> !w.startInclusive)
    ensures Unjoinable(merged + [w]) <==> Unjoinable(merged)
  {
    var m := merged + [w];
    var k := |merged|;
    forall i | 0 <= i < k ensures Gap(m[i], m[k]) {
      assert Apart(m[i], m[k]);
      if i < k - 1 { assert Apart(m[i], m[k - 1]); }
    }
    if Unjoinable(m) {
      forall i, j | 0 <= i < j < k ensures Gap(merged[i], merged[j]) { assert Gap(m[i], m[j]); }
    }
    if Unjoinable(merged) {
      forall i, j | 0 <= i < j < |m| ensures Gap(m[i], m[j]) { if j < k { assert Gap(merged[i], merged[j]); } }
    }
  }

  lemma SweepJoins(ws: seq<TimeWindow>, merged: seq<TimeWindow>, w: TimeWindow)
    requires ws != [] && Ordered(w) && Sorted(ws + [w]) && JoinInv(ws, merged) && Separated(merged)
    requires Separated(Sweep(merged, w))
    ensures JoinInv(ws + [w], Sweep(merged, w))
  {
    TailFitsKept(ws, merged, w);
    StartsNoEarlier(ws, Last(merged), w);
    ShortOfLast(ws, Last(merged), w.startsAt);
    CutsNoLater(ws, merged, w.startsAt);
    if OverlapsOrTouch(Last(merged), w) { SweepAbsorbs(ws, merged, w); } else { SweepPushes(ws, merged, w); }
  }

  lemma SweepAbsorbs(ws: seq<TimeWindow>, merged: seq<TimeWindow>, w: TimeWindow)
    requires ws != [] && JoinInv(ws, merged) && Separated(merged) && OverlapsOrTouch(Last(merged), w)
    requires TailFits(ws + [w], Last(Sweep(merged, w))) && Last(merged).startsAt <= w.startsAt
    requires ShortOf(ws, w.startsAt) <==> Last(merged).endsAt == w.startsAt && !Last(merged).endInclusive
    requires w.startsAt > Last(merged).startsAt ==> !CutFrom(ws, w.startsAt)
    ensures JoinInv(ws + [w], Sweep(merged, w))
  {
    hide Cuts, CutFrom, CutsStayOpen, TailFits, Unjoinable, ShortOf, Separated;
    var x := Absorb(Last(merged), w);
    StayOpenAppend(ws, w);
    CutsAppend(ws, w);
    CutFromAppend(ws, w, x.startsAt);
    AbsorbJoins(merged, x);
    if LastMeets(merged) && Unjoinable(merged) { CutOpens(merged); }
  }

  /** A last window that meets the one before it starts open as long as the list cannot be joined. */
  lemma CutOpens(merged: seq<TimeWindow>)
    requires merged != [] && LastMeets(merged) && Unjoinable(merged)
    ensures !Last(merged).startInclusive
  {
    assert Gap(merged[|merged| - 2], merged[|merged| - 1]);
  }

  lemma SweepPushes(ws: seq<TimeWindow>, merged: seq<TimeWindow>, w: TimeWindow)
    requires ws != [] && JoinInv(ws, merged) && Separated(merged) && !OverlapsOrTouch(Last(merged), w)
    requires Separated(merged + [w]) && TailFits(ws + [w], w) && Last(merged).startsAt <= w.startsAt
    requires ShortOf(ws, w.startsAt) <==> Last(merged).endsAt == w.startsAt && !Last(merged).endInclusive
    requires w.startsAt > Last(merged).startsAt ==> !CutFrom(ws, w.startsAt)
    ensures JoinInv(ws + [w], merged + [w])
  {
    assert Ordered(Last(merged));
    CutsStartBy(ws, merged, w);
    assert Unjoinable(merged) <==> CutsStayOpen(ws);
    hide Cuts, CutFrom, CutsStayOpen, TailFits, Unjoinable, ShortOf, Separated, JoinInv;
    PushMeets(merged, w);
    StayOpenAppend(ws, w);
    CutFromAppend(ws, w, w.startsAt);
    PushJoins(merged, w);
    JoinInvPushed(ws, merged, w);
  }

  /** A window that is pushed meets the last one only where it starts open and that one stops short. */
  lemma PushMeets(merged: seq<TimeWindow>, w: TimeWindow)
    requires merged != [] && Ordered(Last(merged)) && Last(merged).startsAt <= w.startsAt
    requires !OverlapsOrTouch(Last(merged), w)
    ensures LastMeets(merged + [w]) <==> Last(merged).endsAt == w.startsAt
    ensures LastMeets(merged + [w]) ==> !w.startInclusive && !Last(merged).endInclusive
    ensures !LastMeets(merged + [w]) ==> w.startsAt > Last(merged).startsAt
  {
    var m := merged + [w];
    assert m[|m| - 2] == Last(merged) && m[|m| - 1] == w;
  }

  lemma JoinInvPushed(ws: seq<TimeWindow>, merged: seq<TimeWindow>, w: TimeWindow)
    requires TailFits(ws + [w], w)
    requires forall f | 0 <= f <= |ws| && Cuts(ws + [w], f) :: (ws + [w])[f].startsAt <= w.startsAt
    requires CutFrom(ws + [w], w.startsAt) <==> LastMeets(merged + [w])
    requires Unjoinable(merged + [w]) <==> CutsStayOpen(ws + [w])
    ensures JoinInv(ws + [w], merged + [w])
  {
    hide Cuts, CutFrom, CutsStayOpen, TailFits, Unjoinable, LastMeets;
    assert Last(merged + [w]) == w;
  }

  lemma CutsStartBy(ws: seq<TimeWindow>, merged: seq<TimeWindow>, w: TimeWindow)
    requires ws != [] && JoinInv(ws, merged) && Last(merged).startsAt <= w.startsAt
    ensures forall f | 0 <= f <= |ws| && Cuts(ws + [w], f) :: (ws + [w])[f].startsAt <= w.startsAt
  {
    hide Cuts, CutFrom, CutsStayOpen, TailFits, Unjoinable;
    CutsAppend(ws, w);
  }

  lemma StartsNoEarlier(ws: seq<TimeWindow>, last: TimeWindow, w: TimeWindow)
    requires ws != [] && Sorted(ws + [w]) && TailFits(ws, last)
    ensures last.startsAt <= w.startsAt
  {
    var all := ws + [w];
    assert NoLater(all[|ws| - 1], all[|ws|]);
  }

  lemma CutsNoLater(ws: seq<TimeWindow>, merged: seq<TimeWindow>, s: real)
    requires ws != [] && JoinInv(ws, merged)
    ensures s > Last(merged).startsAt ==> !CutFrom(ws, s)
  {
  }

  /** Windows that start together open alike. */
  ghost predicate OpenAlike(ws: seq<TimeWindow>) {
    forall i, j | 0 <= i < |ws| && 0 <= j < |ws| && ws[i].startsAt == ws[j].startsAt ::
      ws[i].startInclusive == ws[j].startInclusive
  }

  ghost predicate OpensAt(ws: seq<TimeWindow>, s: real) {
    exists i :: 0 <= i < |ws| && ws[i].startsAt == s && ws[i].startInclusive
  }

  ghost predicate EndsWhereNextStarts(m: seq<TimeWindow>, k: nat, s: real) {
    k + 1 < |m| && m[k].endsAt == s && m[k + 1].startsAt == s
  }

  ghost predicate MeetAt(m: seq<TimeWindow>, s: real) {
    exists k: nat :: EndsWhereNextStarts(m, k, s)
  }

  ghost predicate CutInv(ws: seq<TimeWindow>, merged: seq<TimeWindow>)
    requires ws != []
  {
    && merged != [] && Separated(merged) && AllNonEmpty(merged) && TailFits(ws, Last(merged))
    && (forall k | 0 <= k < |merged| :: merged[k].startInclusive <==> OpensAt(ws, merged[k].startsAt))
    && forall s :: MeetAt(merged, s) <==> CutFrom(ws, s)
  }

  lemma OpensAppend(ws: seq<TimeWindow>, w: TimeWindow, s: real)
    ensures OpensAt(ws + [w], s) <==> OpensAt(ws, s) || (w.startsAt == s && w.startInclusive)
  {
    var all := ws + [w];
    assert all[|ws|] == w;
    if i :| 0 <= i < |ws| && ws[i].startsAt == s && ws[i].startInclusive { assert all[i] == ws[i]; }
  }

  lemma MeetPush(m: seq<TimeWindow>, w: TimeWindow, s: real)
    requires m != []
    ensures MeetAt(m + [w], s) <==> MeetAt(m, s) || (Last(m).endsAt == s == w.startsAt)
  {
    var all := m + [w];
    if k: nat :| EndsWhereNextStarts(m, k, s) { assert EndsWhereNextStarts(all, k, s); }
    if Last(m).endsAt == s == w.startsAt { assert EndsWhereNextStarts(all, |m| - 1, s); }
    if k: nat :| EndsWhereNextStarts(all, k, s) { assert k + 1 < |m| ==> EndsWhereNextStarts(m, k, s); }
  }

  lemma MeetReplace(m: seq<TimeWindow>, x: TimeWindow, s: real)
    requires m != [] && x.startsAt == Last(m).startsAt
    ensures MeetAt(m[..|m| - 1] + [x], s) <==> MeetAt(m, s)
  {
    var all := m[..|m| - 1] + [x];
    if k: nat :| EndsWhereNextStarts(m, k, s) { assert EndsWhereNextStarts(all, k, s); }
    if k: nat :| EndsWhereNextStarts(all, k, s) { assert EndsWhereNextStarts(m, k, s); }
  }

  /** What starts where the sweep goes on without touching has not opened there before. */
  lemma NotOpenedBefore(ws: seq<TimeWindow>, last: TimeWindow, w: TimeWindow)
    requires ws != [] && AllNonEmpty(ws) && TailFits(ws, last) && !OverlapsOrTouch(last, w)
    ensures !OpensAt(ws, w.startsAt)
  {
    forall i | 0 <= i < |ws| ensures ws[i].startsAt != w.startsAt {
      assert NonEmpty(ws[i]);
      assert ws[i].endInclusive ==> ClosesAt(ws, ws[i].endsAt);
    }
  }

  lemma SweepCuts(ws: seq<TimeWindow>, merged: seq<TimeWindow>, w: TimeWindow)
    requires ws != [] && AllNonEmpty(ws) && NonEmpty(w) && Sorted(ws + [w]) && CutInv(ws, merged)
    requires Separated(Sweep(merged, w))
    ensures CutInv(ws + [w], Sweep(merged, w))
  {
    var last := Last(merged);
    StartsAscend(merged);
    TailFitsKept(ws, merged, w);
    StartsNoEarlier(ws, last, w);
    ShortOfLast(ws, last, w.startsAt);
    hide Separated, Sorted, TailFits, ShortOf, MeetAt, CutFrom, OpensAt;
    forall s ensures CutFrom(ws + [w], s) <==>
                     CutFrom(ws, s) || (w.startsAt == s && !OverlapsOrTouch(last, w) && last.endsAt == s) {
      CutFromAppend(ws, w, s);
    }
    if OverlapsOrTouch(last, w) {
      CutsAbsorb(ws, merged, w);
    } else {
      NotOpenedBefore(ws, last, w);
      CutsPush(ws, merged, w);
    }
  }

  lemma CutsAbsorb(ws: seq<TimeWindow>, merged: seq<TimeWindow>, w: TimeWindow)
    requires ws != [] && NonEmpty(w) && CutInv(ws, merged) && OverlapsOrTouch(Last(merged), w)
    requires Separated(Sweep(merged, w)) && TailFits(ws + [w], Last(Sweep(merged, w)))
    requires Last(merged).startsAt <= w.startsAt
    requires forall s :: CutFrom(ws + [w], s) <==> CutFrom(ws, s)
    ensures CutInv(ws + [w], Sweep(merged, w))
  {
    StartsAscend(merged);
    hide Separated, TailFits, MeetAt, CutFrom, OpensAt, OverlapsOrTouch;
    forall s ensures OpensAt(ws + [w], s) <==> OpensAt(ws, s) || (w.startsAt == s && w.startInclusive) {
      OpensAppend(ws, w, s);
    }
    forall s ensures MeetAt(Sweep(merged, w), s) <==> MeetAt(merged, s) {
      MeetReplace(merged, Absorb(Last(merged), w), s);
    }
  }

  lemma CutsPush(ws: seq<TimeWindow>, merged: seq<TimeWindow>, w: TimeWindow)
    requires ws != [] && NonEmpty(w) && CutInv(ws, merged) && !OpensAt(ws, w.startsAt)
    requires Separated(merged + [w]) && TailFits(ws + [w], w) && !OverlapsOrTouch(Last(merged), w)
    requires forall s :: CutFrom(ws + [w], s) <==> CutFrom(ws, s) || (Last(merged).endsAt == s == w.startsAt)
    ensures CutInv(ws + [w], merged + [w])
  {
    StartsAscend(merged + [w]);
    assert forall k | 0 <= k < |merged| :: (merged + [w])[k] == merged[k] && merged[k].startsAt < w.startsAt;
    hide Separated, TailFits, MeetAt, CutFrom, OpensAt;
    forall s ensures OpensAt(ws + [w], s) <==> OpensAt(ws, s) || (w.startsAt == s && w.startInclusive) {
      OpensAppend(ws, w, s);
    }
    forall s ensures MeetAt(merged + [w], s) <==> MeetAt(merged, s) || (Last(merged).endsAt == s == w.startsAt) {
      MeetPush(merged, w, s);
    }
  }

  lemma StartsAscend(m: seq<TimeWindow>)
    requires Separated(m) && AllNonEmpty(m)
    ensures forall i, j | 0 <= i < j < |m| :: m[i].startsAt < m[j].startsAt
  {
    forall i, j | 0 <= i < j < |m| ensures m[i].startsAt < m[j].startsAt {
      assert Apart(m[i], m[j]);
    }
  }

  lemma {:induction false} MergeSortedCuts(ws: seq<TimeWindow>)
    requires Sorted(ws) && AllNonEmpty(ws) && ws != []
    ensures CutInv(ws, MergeSorted(ws))
  {
    var front, w := ws[..|ws| - 1], ws[|ws| - 1];
    assert ws == front + [w];
    if |ws| == 1 {
      OneCut(w);
    } else {
      hide CutInv;
      assert forall i | 0 <= i < |front| :: front[i] == ws[i];
      MergeSortedCuts(front);
      MergeSortedSeparated(ws);
      SweepCuts(front, MergeSorted(front), w);
    }
  }

  lemma OneCut(w: TimeWindow)
    requires NonEmpty(w)
    ensures CutInv([w], [w])
  {
    assert !Cuts([w], 0) by { assert [w][..0] == []; }
    assert forall s :: !CutFrom([w], s) && !MeetAt([w], s);
    assert w.endInclusive ==> ClosesAt([w], w.endsAt) by { assert [w][0] == w; }
  }

  lemma OneJoin(w: TimeWindow)
    ensures JoinInv([w], [w])
  {
    assert !Cuts([w], 0) by { assert [w][..0] == []; }
    assert ClosesAt([w], w.endsAt) <==> w.endInclusive by {
      if w.endInclusive { assert [w][0].endsAt == w.endsAt; }
    }
  }

  lemma {:induction false} MergeSortedJoins(ws: seq<TimeWindow>)
    requires Sorted(ws) && AllOrdered(ws) && ws != []
    ensures JoinInv(ws, MergeSorted(ws))
  {
    var front, w := ws[..|ws| - 1], ws[|ws| - 1];
    assert ws == front + [w];
    if |ws| == 1 {
      assert MergeSorted(front) == [];
      OneJoin(w);
    } else {
      MergeSortedSeparated(front);
      MergeSortedSeparated(ws);
      assert Sorted(front) && AllOrdered(front);
      hide JoinInv, Separated, Sorted;
      MergeSortedJoins(front);
      SweepJoins(front, MergeSorted(front), w);
    }
  }

  /** Two merged windows could be joined only where the sweep cut and a later window opened at the cut. */
  lemma MaximalIff(ws: seq<TimeWindow>)
    requires AllOrdered(ws)
    ensures Unjoinable(Merge(ws)) <==> CutsStayOpen(StableSort(ws))
  {
    hide Cuts, StableSort, MergeSorted, Sorted, AllOrdered, TailFits;
    var sorted := StableSort(ws);
    StableSortSorts(ws);
    SortedAllOrdered(ws);
    if sorted == [] {
      NothingToMerge();
    } else {
      MergeSortedJoins(sorted);
    }
  }

  lemma SortedAllNonEmpty(ws: seq<TimeWindow>)
    requires AllNonEmpty(ws)
    ensures AllNonEmpty(StableSort(ws))
  {
    var sorted := StableSort(ws);
    forall i | 0 <= i < |sorted| ensures NonEmpty(sorted[i]) {
      assert sorted[i] in multiset(ws);
      var j :| 0 <= j < |ws| && ws[j] == sorted[i];
    }
  }

  lemma NothingToMerge()
    ensures MergeSorted([]) == []
  {
  }

  lemma MergeMaximal(ws: seq<TimeWindow>)
    requires AllNonEmpty(ws) && OpenAlike(ws)
    ensures Maximal(Merge(ws))
  {
    hide ShortOf, StableSort, MergeSorted;
    var sorted := StableSort(ws);
    MaximalIff(ws);
    MergeNonEmpty(ws);
    forall f, i | 0 <= f <= i < |sorted| && Cuts(sorted, f) && sorted[i].startsAt == sorted[f].startsAt
      ensures !sorted[i].startInclusive
    {
      assert sorted[f] in multiset(ws) && sorted[i] in multiset(ws);
    }
  }

  lemma MergeNonEmpty(ws: seq<TimeWindow>)
    requires AllNonEmpty(ws)
    ensures AllNonEmpty(Merge(ws))
  {
    hide StableSort, Sorted, CutFrom, MeetAt, TailFits;
    StableSortSorts(ws);
    SortedAllNonEmpty(ws);
    if StableSort(ws) == [] { NothingToMerge(); } else { MergeSortedCuts(StableSort(ws)); }
  }

  lemma SortedNext(ws: seq<TimeWindow>, k: nat)
    requires Sorted(ws) && k < |ws|
    ensures StableSort(ws[..k]) == ws[..k] ==> StableSort(ws[..k + 1]) == ws[..k + 1]
  {
    var front, last := ws[..k], ws[k];
    assert ws[..k + 1][..k] == front && ws[..k + 1] == front + [last];
    assert k > 0 ==> NoLater(ws[k - 1], last);
  }

  lemma SortedStays(ws: seq<TimeWindow>)
    requires Sorted(ws)
    ensures StableSort(ws) == ws
  {
    hide *;
    var k := 0;
    assert StableSort(ws[..0]) == ws[..0] by { NothingSorted(); }
    while k < |ws|
      invariant k <= |ws| && StableSort(ws[..k]) == ws[..k]
    {
      SortedNext(ws, k);
      k := k + 1;
    }
    assert ws[..k] == ws;
  }

  lemma NothingSorted()
    ensures StableSort([]) == []
  {
  }

  /** `(-3,0)`, `(0,5)` and `[0,7]` merge to two windows that meet at zero. */
  lemma MixedStartsMeet()
    ensures var ws := [TimeWindow(-3.0, 0.0, false, false), TimeWindow(0.0, 5.0, false, false),
                       TimeWindow(0.0, 7.0, true, true)];
            AllNonEmpty(ws) && !Maximal(Merge(ws))
  {
    hide Unjoinable, Merge, StableSort;
    var ws := [TimeWindow(-3.0, 0.0, false, false), TimeWindow(0.0, 5.0, false, false),
               TimeWindow(0.0, 7.0, true, true)];
    SortedStays(ws);
    MaximalIff(ws);
    CutThenOpened(ws, 0.0);
  }

  lemma CutThenOpened(ws: seq<TimeWindow>, s: real)
    requires |ws| == 3 && ws[0].startsAt < s == ws[0].endsAt && !ws[0].endInclusive
    requires ws[1].startsAt == s && !ws[1].startInclusive && ws[2].startsAt == s && ws[2].startInclusive
    ensures !CutsStayOpen(ws)
  {
    assert ws[..1] == [ws[0]];
    assert ShortOf(ws[..1], s) by { assert ws[..1][0].endsAt == s; }
    assert Cuts(ws, 1);
  }
}

/** What the merged list depends on: the covered instants and the places where the sweep cuts, not the input order. */
module WindowOrder {
  import opened WindowModel
  import opened WindowUnion
  import opened WindowShape

  // --- a list is determined by its instants and its joints ---

  ghost predicate Proper(m: seq<TimeWindow>) {
    Separated(m) && AllNonEmpty(m)
  }

  /** Two windows meet at `s` with no instant between them. */
  ghost predicate JointAt(m: seq<TimeWindow>, s: real) {
    MeetAt(m, s) && Within(m, s)
  }

  ghost predicate SameJoints(a: seq<TimeWindow>, b: seq<TimeWindow>) {
    forall s :: JointAt(a, s) <==> JointAt(b, s)
  }

  lemma NothingBefore(m: seq<TimeWindow>, t: real)
    requires Proper(m) && m != []
    requires t < m[0].startsAt || (t == m[0].startsAt && !m[0].startInclusive)
    ensures !Within(m, t)
  {
    forall j | 0 <= j < |m| ensures !Contains(m[j], t) {
      if j > 0 { assert Apart(m[0], m[j]); }
    }
  }

  lemma StartsAgree(a: seq<TimeWindow>, b: seq<TimeWindow>)
    requires Proper(a) && Proper(b) && a != [] && b != [] && SameInstants(a, b)
    ensures a[0].startsAt >= b[0].startsAt
    ensures a[0].startsAt == b[0].startsAt && a[0].startInclusive ==> b[0].startInclusive
  {
    if a[0].startsAt < b[0].startsAt {
      var e := if a[0].endsAt < b[0].startsAt then a[0].endsAt else b[0].startsAt;
      var t := (a[0].startsAt + e) / 2.0;
      assert Within(a, t);
      NothingBefore(b, t);
    } else if a[0].startsAt == b[0].startsAt && a[0].startInclusive && !b[0].startInclusive {
      assert Within(a, a[0].startsAt);
      NothingBefore(b, a[0].startsAt);
    }
  }

  /** Just after the first window, and before the second, nothing is covered. */
  lemma NothingJustAfter(m: seq<TimeWindow>, t: real)
    requires Proper(m) && m != [] && m[0].endsAt < t && (|m| > 1 ==> t < m[1].startsAt)
    ensures !Within(m, t)
  {
    forall j | 0 <= j < |m| ensures !Contains(m[j], t) {
      if j > 1 { assert Apart(m[1], m[j]); }
    }
  }

  /** Up to its end the first window meets no other. */
  lemma NotMetWithin(m: seq<TimeWindow>, s: real)
    requires Proper(m) && m != []
    requires s < m[0].endsAt || (s == m[0].endsAt && m[0].endInclusive)
    ensures !MeetAt(m, s)
  {
    forall k: nat | k + 1 < |m| ensures !EndsWhereNextStarts(m, k, s) {
      assert Apart(m[k], m[k + 1]) && NonEmpty(m[k]);
      if k > 0 { assert Apart(m[0], m[k]); }
    }
  }

  /** Where two windows meet, only the later one can cover. */
  lemma OnlyNextCovers(m: seq<TimeWindow>, k: nat, s: real)
    requires Proper(m) && EndsWhereNextStarts(m, k, s)
    ensures forall j | 0 <= j < |m| && j != k + 1 :: !Contains(m[j], s)
  {
    forall j | 0 <= j < |m| && j != k + 1 ensures !Contains(m[j], s) {
      if j <= k {
        assert Apart(m[j], m[k + 1]);
      } else {
        assert Apart(m[k + 1], m[j]) && NonEmpty(m[k + 1]);
      }
    }
  }

  /** Where the second window starts at the end of the first, that is a joint or an instant left out. */
  lemma SecondStarts(m: seq<TimeWindow>, s: real)
    requires |m| > 1 && m[0].endsAt == s == m[1].startsAt
    ensures Within(m, s) ==> JointAt(m, s)
  {
    assert EndsWhereNextStarts(m, 0, s);
  }

  lemma EndsAgree(a: seq<TimeWindow>, b: seq<TimeWindow>)
    requires Proper(a) && Proper(b) && a != [] && b != [] && SameInstants(a, b) && SameJoints(a, b)
    requires a[0].startsAt == b[0].startsAt && a[0].startInclusive == b[0].startInclusive
    ensures a[0].endsAt >= b[0].endsAt
  {
    if a[0].endsAt < b[0].endsAt {
      var s := a[0].endsAt;
      assert |a| > 1 ==> Apart(a[0], a[1]);
      if |a| > 1 && a[1].startsAt == s {
        SecondStarts(a, s);
        NotMetWithin(b, s);
        assert NonEmpty(a[0]) && NonEmpty(b[0]);
        assert Contains(b[0], s);
        assert Within(b, s);
      } else {
        var e := if |a| > 1 && a[1].startsAt < b[0].endsAt then a[1].startsAt else b[0].endsAt;
        var t := (s + e) / 2.0;
        NothingJustAfter(a, t);
        assert Within(b, t);
      }
    }
  }

  lemma EndFlagsAgree(a: seq<TimeWindow>, b: seq<TimeWindow>)
    requires Proper(a) && Proper(b) && a != [] && b != [] && SameInstants(a, b) && SameJoints(a, b)
    requires a[0].startsAt == b[0].startsAt && a[0].startInclusive == b[0].startInclusive && a[0].endsAt == b[0].endsAt
    ensures b[0].endInclusive ==> a[0].endInclusive
  {
    var e := b[0].endsAt;
    assert forall j | 1 < j < |a| :: Apart(a[1], a[j]) && NonEmpty(a[1]);
    if b[0].endInclusive && !a[0].endInclusive {
      assert Contains(b[0], e) && Within(b, e);
      var j :| 0 <= j < |a| && Contains(a[j], e);
      assert Apart(a[0], a[1]);
      SecondStarts(a, e);
      NotMetWithin(b, e);
    }
  }

  lemma TailInstants(m: seq<TimeWindow>, t: real)
    requires Proper(m) && m != []
    ensures Within(m[1..], t) <==> Within(m, t) && !Contains(m[0], t)
  {
    if i :| 0 <= i < |m[1..]| && Contains(m[1..][i], t) {
      assert Apart(m[0], m[i + 1]);
      assert Contains(m[i + 1], t);
      ApartIsDisjoint(m[0], m[i + 1], t);
    }
    if i :| 0 <= i < |m| && Contains(m[i], t) && !Contains(m[0], t) {
      assert m[1..][i - 1] == m[i];
    }
  }

  lemma TailProper(m: seq<TimeWindow>)
    requires Proper(m) && m != []
    ensures Proper(m[1..])
  {
    forall i, j | 0 <= i < j < |m[1..]| ensures Apart(m[1..][i], m[1..][j]) {
      assert Apart(m[i + 1], m[j + 1]);
    }
  }

  /** The tail has the joints of the list but for one at the end of the first window. */
  lemma TailJoints(m: seq<TimeWindow>, s: real)
    requires Proper(m) && m != []
    ensures JointAt(m[1..], s) <==> JointAt(m, s) && !Contains(m[0], s) && !EndsWhereNextStarts(m, 0, s)
  {
    TailInstants(m, s);
    if k: nat :| EndsWhereNextStarts(m[1..], k, s) {
      assert EndsWhereNextStarts(m, k + 1, s);
      assert Apart(m[0], m[k + 1]) && Apart(m[k + 1], m[k + 2]) && NonEmpty(m[k + 1]);
    }
    if k: nat :| EndsWhereNextStarts(m, k, s) {
      assert k > 0 ==> EndsWhereNextStarts(m[1..], k - 1, s);
    }
  }

  /** A joint at the end of the first window shows in the joints and in that window alone. */
  lemma FirstJoint(m: seq<TimeWindow>, s: real)
    requires Proper(m) && m != [] && JointAt(m, s)
    ensures EndsWhereNextStarts(m, 0, s) <==> s == m[0].endsAt
  {
    var k: nat :| EndsWhereNextStarts(m, k, s);
    if k > 0 && s == m[0].endsAt {
      assert Apart(m[0], m[k]) && Apart(m[k], m[k + 1]) && NonEmpty(m[k]);
    }
  }

  lemma TailsAgree(a: seq<TimeWindow>, b: seq<TimeWindow>)
    requires Proper(a) && Proper(b) && a != [] && b != [] && a[0] == b[0]
    requires SameInstants(a, b) && SameJoints(a, b)
    ensures SameInstants(a[1..], b[1..]) && SameJoints(a[1..], b[1..])
  {
    hide Proper, Within, JointAt;
    forall t ensures Within(a[1..], t) <==> Within(b[1..], t) {
      TailInstants(a, t);
      TailInstants(b, t);
    }
    forall s ensures JointAt(a[1..], s) <==> JointAt(b[1..], s) {
      TailJoints(a, s);
      TailJoints(b, s);
      if JointAt(a, s) {
        FirstJoint(a, s);
        FirstJoint(b, s);
      }
    }
  }

  lemma Symmetric(a: seq<TimeWindow>, b: seq<TimeWindow>)
    requires SameInstants(a, b) && SameJoints(a, b)
    ensures SameInstants(b, a) && SameJoints(b, a)
  {
  }

  lemma EmptyTogether(a: seq<TimeWindow>, b: seq<TimeWindow>)
    requires Proper(a) && SameInstants(a, b) && b == []
    ensures a == []
  {
    if a != [] {
      var t := (a[0].startsAt + a[0].endsAt) / 2.0;
      assert NonEmpty(a[0]);
      assert Contains(a[0], t);
      assert Within(a, t) && !Within(b, t);
    }
  }

  /** Two separated lists with the same instants and the same joints are the same list. */
  lemma {:induction false} ProperIsUnique(a: seq<TimeWindow>, b: seq<TimeWindow>)
    requires Proper(a) && Proper(b) && SameInstants(a, b) && SameJoints(a, b)
    ensures a == b
  {
    hide Proper, SameInstants, SameJoints;
    Symmetric(a, b);
    if a == [] {
      EmptyTogether(b, a);
    } else if b == [] {
      EmptyTogether(a, b);
    } else {
      StartsAgree(a, b);
      StartsAgree(b, a);
      EndsAgree(a, b);
      EndsAgree(b, a);
      EndFlagsAgree(a, b);
      EndFlagsAgree(b, a);
      TailProper(a);
      TailProper(b);
      TailsAgree(a, b);
      ProperIsUnique(a[1..], b[1..]);
      assert a == [a[0]] + a[1..] && b == [b[0]] + b[1..];
    }
  }

  /** A maximal list has no joints. */
  lemma MaximalHasNoJoints(m: seq<TimeWindow>)
    requires Proper(m)
    ensures Maximal(m) <==> forall s :: !JointAt(m, s)
  {
    StartsAscend(m);
    forall s | Maximal(m) && MeetAt(m, s) ensures !Within(m, s) {
      var k: nat :| EndsWhereNextStarts(m, k, s);
      OnlyNextCovers(m, k, s);
      assert Gap(m[k], m[k + 1]);
    }
    if forall s :: !JointAt(m, s) {
      forall i, j | 0 <= i < j < |m| ensures Gap(m[i], m[j]) {
        assert Apart(m[i], m[j]);
        if m[i].endsAt == m[j].startsAt && m[j].startInclusive { JointFound(m, i, j); }
      }
    }
  }

  lemma JointFound(m: seq<TimeWindow>, i: nat, j: nat)
    requires Proper(m) && i < j < |m| && m[i].endsAt == m[j].startsAt && m[j].startInclusive
    ensures JointAt(m, m[j].startsAt)
  {
    StartsAscend(m);
    assert Apart(m[i], m[i + 1]);
    assert EndsWhereNextStarts(m, i, m[j].startsAt);
    assert NonEmpty(m[j]) && Contains(m[j], m[j].startsAt);
  }

  lemma MaximalIsProper(m: seq<TimeWindow>)
    requires Maximal(m)
    ensures Proper(m)
  {
    forall i, j | 0 <= i < j < |m| ensures Apart(m[i], m[j]) {
      assert Gap(m[i], m[j]);
    }
  }

  /** Two maximal lists that cover the same instants are the same list. */
  lemma MaximalIsUnique(a: seq<TimeWindow>, b: seq<TimeWindow>)
    requires Maximal(a) && Maximal(b) && SameInstants(a, b)
    ensures a == b
  {
    hide Maximal, JointAt, SameInstants;
    MaximalIsProper(a);
    MaximalIsProper(b);
    MaximalHasNoJoints(a);
    MaximalHasNoJoints(b);
    ProperIsUnique(a, b);
  }

  // --- where merging leaves a joint ---

  /** Something before `s` ends there, and nothing before `s` covers it. */
  ghost predicate ShortBefore(ws: seq<TimeWindow>, s: real) {
    && (forall i | 0 <= i < |ws| && ws[i].startsAt < s :: !Contains(ws[i], s))
    && exists i :: 0 <= i < |ws| && ws[i].startsAt < s && ws[i].endsAt == s
  }

  /** No window from the same start ends earlier. */
  ghost predicate EndsFirst(ws: seq<TimeWindow>, w: TimeWindow) {
    forall i | 0 <= i < |ws| && ws[i].startsAt == w.startsAt :: w.endsAt <= ws[i].endsAt
  }

  /** The window the sweep takes first among those from `s`: the earliest end, then the input order. */
  ghost predicate FirstFrom(ws: seq<TimeWindow>, s: real, w: TimeWindow) {
    w.startsAt == s && EndsFirst(ws, w) && Keyed(ws, s, w.endsAt) != [] && Keyed(ws, s, w.endsAt)[0] == w
  }

  lemma {:induction false} FirstKeyed(ws: seq<TimeWindow>, start: real, end: real) returns (f: nat)
    requires Keyed(ws, start, end) != []
    ensures f < |ws| && ws[f] == Keyed(ws, start, end)[0] && ws[f].startsAt == start && ws[f].endsAt == end
    ensures forall i | 0 <= i < f :: ws[i].startsAt != start || ws[i].endsAt != end
    decreases |ws|
  {
    var front := ws[..|ws| - 1];
    if Keyed(front, start, end) == [] {
      f := |ws| - 1;
      NotKeyed(front, start, end);
    } else {
      f := FirstKeyed(front, start, end);
    }
  }

  lemma {:induction false} NotKeyed(ws: seq<TimeWindow>, start: real, end: real)
    ensures Keyed(ws, start, end) == [] <==> forall i | 0 <= i < |ws| :: ws[i].startsAt != start || ws[i].endsAt != end
  {
    if ws != [] {
      NotKeyed(ws[..|ws| - 1], start, end);
      assert ws == ws[..|ws| - 1] + [ws[|ws| - 1]];
    }
  }

  lemma SameMembers(ws: seq<TimeWindow>, vs: seq<TimeWindow>, i: nat) returns (j: nat)
    requires multiset(ws) == multiset(vs) && i < |ws|
    ensures j < |vs| && vs[j] == ws[i]
  {
    assert ws[i] in multiset(vs);
    j :| 0 <= j < |vs| && vs[j] == ws[i];
  }

  lemma OrderFree(ws: seq<TimeWindow>, vs: seq<TimeWindow>)
    requires multiset(ws) == multiset(vs)
    ensures AllNonEmpty(ws) ==> AllNonEmpty(vs)
    ensures SameInstants(ws, vs)
    ensures forall s | ShortBefore(ws, s) :: ShortBefore(vs, s)
    ensures forall s | OpensAt(ws, s) :: OpensAt(vs, s)
    ensures forall w | EndsFirst(ws, w) :: EndsFirst(vs, w)
  {
    forall i: nat | i < |vs| ensures exists j :: 0 <= j < |ws| && ws[j] == vs[i] { var j := SameMembers(vs, ws, i); }
    forall i: nat | i < |ws| ensures exists j :: 0 <= j < |vs| && vs[j] == ws[i] { var j := SameMembers(ws, vs, i); }
    hide Contains;
    forall t ensures Within(ws, t) <==> Within(vs, t) { }
  }

  /** The sweep cuts at `s` exactly when everything before stops short and the first window from there is open. */
  lemma CutIffFirst(ws: seq<TimeWindow>, s: real, w: TimeWindow)
    requires AllNonEmpty(ws) && FirstFrom(ws, s, w)
    ensures CutFrom(StableSort(ws), s) <==> ShortBefore(ws, s) && !w.startInclusive
  {
    var sorted := StableSort(ws);
    StableSortSorts(ws);
    StableSortKeepsKeyed(ws, s, w.endsAt);
    OrderFree(ws, sorted);
    OrderFree(sorted, ws);
    var f := FirstKeyed(sorted, s, w.endsAt);
    SortedSplits(sorted, s, f);
  }

  lemma SortedSplits(sorted: seq<TimeWindow>, s: real, f: nat)
    requires Sorted(sorted) && f < |sorted| && sorted[f].startsAt == s && EndsFirst(sorted, sorted[f])
    requires NonEmpty(sorted[f])
    requires forall i | 0 <= i < f :: sorted[i].startsAt != s || sorted[i].endsAt != sorted[f].endsAt
    ensures CutFrom(sorted, s) <==> ShortBefore(sorted, s) && !sorted[f].startInclusive
  {
    forall i | 0 <= i < f ensures sorted[i].startsAt < s { assert NoLater(sorted[i], sorted[f]); }
    forall i | f <= i < |sorted| ensures sorted[i].startsAt >= s { assert i > f ==> NoLater(sorted[f], sorted[i]); }
    assert forall i | 0 <= i < f :: sorted[..f][i] == sorted[i];
    hide NoLater;
    assert ShortOf(sorted[..f], s) <==> ShortBefore(sorted, s);
    assert forall g | f < g < |sorted| :: sorted[..g][f] == sorted[f];
    if g :| 0 <= g < |sorted| && Cuts(sorted, g) && sorted[g].startsAt == s {
      assert g == f;
    }
  }

  /** Among the windows from one start there is a first. */
  lemma FirstExists(ws: seq<TimeWindow>, s: real) returns (w: TimeWindow)
    requires exists i :: 0 <= i < |ws| && ws[i].startsAt == s
    ensures FirstFrom(ws, s, w) && w in ws
  {
    var i: nat :| i < |ws| && ws[i].startsAt == s;
    var e := LeastEnd(ws, s, i);
    NotKeyed(ws, s, e);
    var f := FirstKeyed(ws, s, e);
    w := ws[f];
  }

  lemma LeastEnd(ws: seq<TimeWindow>, s: real, i: nat) returns (e: real)
    requires i < |ws| && ws[i].startsAt == s
    ensures exists j :: 0 <= j < |ws| && ws[j].startsAt == s && ws[j].endsAt == e
    ensures forall j | 0 <= j < |ws| && ws[j].startsAt == s :: e <= ws[j].endsAt
  {
    var best: nat, k: nat := i, 0;
    while k < |ws|
      invariant k <= |ws| && best < |ws| && ws[best].startsAt == s
      invariant forall j | 0 <= j < k && ws[j].startsAt == s :: ws[best].endsAt <= ws[j].endsAt
    {
      if ws[k].startsAt == s && ws[k].endsAt < ws[best].endsAt { best := k; }
      k := k + 1;
    }
    e := ws[best].endsAt;
  }

  /** Merging leaves a joint exactly where it cut and some window from there includes its start. */
  ghost predicate SplitAt(ws: seq<TimeWindow>, s: real) {
    CutFrom(StableSort(ws), s) && OpensAt(ws, s)
  }

  lemma MergeJoints(ws: seq<TimeWindow>)
    requires AllNonEmpty(ws)
    ensures Proper(Merge(ws)) && forall s :: JointAt(Merge(ws), s) <==> SplitAt(ws, s)
  {
    hide Separated, CutFrom, OpensAt, MergeSorted, Sorted, StableSort;
    var sorted, m := StableSort(ws), Merge(ws);
    StableSortSorts(ws);
    SortedAllNonEmpty(ws);
    OrderFree(ws, sorted);
    OrderFree(sorted, ws);
    if sorted == [] {
      NoSplits();
    } else {
      MergeSortedCuts(sorted);
      forall s ensures JointAt(m, s) <==> SplitAt(ws, s) { JointIffSplit(sorted, m, s); }
    }
  }

  lemma NoSplits()
    ensures MergeSorted([]) == [] && Proper([]) && forall s :: !JointAt([], s) && !CutFrom([], s)
  {
  }

  lemma JointIffSplit(ws: seq<TimeWindow>, m: seq<TimeWindow>, s: real)
    requires ws != [] && CutInv(ws, m)
    ensures JointAt(m, s) <==> CutFrom(ws, s) && OpensAt(ws, s)
  {
    hide CutFrom, OpensAt;
    if k: nat :| EndsWhereNextStarts(m, k, s) {
      StartsAscend(m);
      if OpensAt(ws, s) {
        assert NonEmpty(m[k + 1]) && Contains(m[k + 1], s);
      }
      OnlyNextCovers(m, k, s);
    }
  }

  // --- what the result depends on ---

  /** Two inputs merge alike exactly when they cover the same instants and are split at the same places. */
  lemma MergeAlikeIff(ws: seq<TimeWindow>, vs: seq<TimeWindow>)
    requires AllNonEmpty(ws) && AllNonEmpty(vs)
    ensures Merge(ws) == Merge(vs) <==> SameInstants(ws, vs) && forall s :: SplitAt(ws, s) <==> SplitAt(vs, s)
  {
    hide Proper, JointAt, SplitAt, Merge, Within;
    MergeJoints(ws);
    MergeJoints(vs);
    UnionKept(ws);
    UnionKept(vs);
    if SameInstants(ws, vs) && forall s :: SplitAt(ws, s) <==> SplitAt(vs, s) {
      ProperIsUnique(Merge(ws), Merge(vs));
    }
  }

  ghost predicate OrderIrrelevant(ws: seq<TimeWindow>) {
    forall vs | multiset(vs) == multiset(ws) :: Merge(vs) == Merge(ws)
  }

  /** Where everything before stops short, the windows that end first among those from there open alike. */
  ghost predicate TiesOpenAlike(ws: seq<TimeWindow>) {
    forall u, w | Tied(ws, u, w) && ShortBefore(ws, u.startsAt) :: u.startInclusive == w.startInclusive
  }

  ghost predicate Tied(ws: seq<TimeWindow>, u: TimeWindow, w: TimeWindow) {
    u in ws && w in ws && u.startsAt == w.startsAt && u.endsAt == w.endsAt && EndsFirst(ws, u)
  }

  /** For windows that contain an instant: the input order is irrelevant exactly when ties at a cut open alike. */
  lemma InputOrderIsIrrelevantIff(ws: seq<TimeWindow>)
    requires AllNonEmpty(ws)
    ensures OrderIrrelevant(ws) <==> TiesOpenAlike(ws)
  {
    if TiesOpenAlike(ws) {
      forall vs | multiset(vs) == multiset(ws) ensures Merge(vs) == Merge(ws) { AlikeTiesMergeAlike(ws, vs); }
    } else {
      var u, w :| Tied(ws, u, w) && ShortBefore(ws, u.startsAt) && u.startInclusive != w.startInclusive;
      var (open, closed) := if u.startInclusive then (w, u) else (u, w);
      PutFirstDecides(ws, open);
      PutFirstDecides(ws, closed);
      var vs, xs := PutFirst(ws, open), PutFirst(ws, closed);
      assert OpensAt(ws, u.startsAt) by {
        var i :| 0 <= i < |ws| && ws[i] == closed;
      }
      OrderFree(ws, vs);
      OrderFree(ws, xs);
      assert SplitAt(vs, u.startsAt) && !SplitAt(xs, u.startsAt);
      MergeAlikeIff(vs, xs);
    }
  }

  lemma AlikeTiesMergeAlike(ws: seq<TimeWindow>, vs: seq<TimeWindow>)
    requires AllNonEmpty(ws) && TiesOpenAlike(ws) && multiset(vs) == multiset(ws)
    ensures Merge(vs) == Merge(ws)
  {
    hide AllNonEmpty, TiesOpenAlike, SplitAt, Merge, SameInstants;
    OrderFree(ws, vs);
    forall s ensures SplitAt(ws, s) <==> SplitAt(vs, s) { AlikeTiesSplitAlike(ws, vs, s); }
    MergeAlikeIff(ws, vs);
  }

  lemma AlikeTiesSplitAlike(ws: seq<TimeWindow>, vs: seq<TimeWindow>, s: real)
    requires AllNonEmpty(ws) && TiesOpenAlike(ws) && multiset(vs) == multiset(ws)
    ensures SplitAt(ws, s) <==> SplitAt(vs, s)
  {
    hide ShortBefore, EndsFirst, CutFrom, StableSort, Keyed;
    OrderFree(ws, vs);
    OrderFree(vs, ws);
    if OpensAt(ws, s) {
      var u := FirstExists(ws, s);
      var w := FirstExists(vs, s);
      CutIffFirst(ws, s, u);
      CutIffFirst(vs, s, w);
      assert w in multiset(ws);
      FirstsTie(ws, vs, s, u, w);
    }
  }

  lemma FirstsTie(ws: seq<TimeWindow>, vs: seq<TimeWindow>, s: real, u: TimeWindow, w: TimeWindow)
    requires multiset(vs) == multiset(ws) && FirstFrom(ws, s, u) && FirstFrom(vs, s, w) && u in ws && w in vs
    ensures Tied(ws, u, w)
  {
    hide Keyed;
    OrderFree(vs, ws);
    assert w in multiset(ws);
    var i :| 0 <= i < |ws| && ws[i] == u;
    var j :| 0 <= j < |ws| && ws[j] == w;
  }

  /** The input with one window moved to the front. */
  ghost function PutFirst(ws: seq<TimeWindow>, w: TimeWindow): (r: seq<TimeWindow>)
    requires w in ws
    ensures multiset(r) == multiset(ws) && r != [] && r[0] == w
  {
    var i :| 0 <= i < |ws| && ws[i] == w;
    assert ws == ws[..i] + [w] + ws[i + 1..];
    [w] + ws[..i] + ws[i + 1..]
  }

  lemma PutFirstDecides(ws: seq<TimeWindow>, w: TimeWindow)
    requires AllNonEmpty(ws) && w in ws && EndsFirst(ws, w) && ShortBefore(ws, w.startsAt)
    ensures CutFrom(StableSort(PutFirst(ws, w)), w.startsAt) <==> !w.startInclusive
  {
    var vs := PutFirst(ws, w);
    OrderFree(ws, vs);
    KeyedHead(vs);
    CutIffFirst(vs, w.startsAt, w);
  }

  lemma {:induction false} KeyedHead(ws: seq<TimeWindow>)
    requires ws != []
    ensures var k := Keyed(ws, ws[0].startsAt, ws[0].endsAt); k != [] && k[0] == ws[0]
    decreases |ws|
  {
    if |ws| > 1 {
      KeyedHead(ws[..|ws| - 1]);
    } else {
      assert ws[..0] == [];
    }
  }

  /** `(-3,0)`, `(0,5)` and `[0,5)`: the order of the last two decides between two windows and one. */
  lemma InputOrderMayMatter()
    ensures var a, b, c := TimeWindow(-3.0, 0.0, false, false), TimeWindow(0.0, 5.0, false, false),
                           TimeWindow(0.0, 5.0, true, false);
            AllNonEmpty([a, b, c]) && Merge([a, b, c]) != Merge([a, c, b])
  {
    hide StableSort, Merge, CutFrom, Within;
    var a, b := TimeWindow(-3.0, 0.0, false, false), TimeWindow(0.0, 5.0, false, false);
    var c := TimeWindow(0.0, 5.0, true, false);
    var ws, vs := [a, b, c], [a, c, b];
    assert ShortBefore(ws, 0.0) by { assert ws[0].startsAt < 0.0 && ws[0].endsAt == 0.0; }
    assert ShortBefore(vs, 0.0) by { assert vs[0].startsAt < 0.0 && vs[0].endsAt == 0.0; }
    assert Keyed(ws[..1], 0.0, 5.0) == [] by { NotKeyed(ws[..1], 0.0, 5.0); }
    assert Keyed(vs[..1], 0.0, 5.0) == [] by { NotKeyed(vs[..1], 0.0, 5.0); }
    assert ws[..2][..1] == ws[..1] && vs[..2][..1] == vs[..1];
    assert Keyed(ws[..2], 0.0, 5.0) == [b] && Keyed(vs[..2], 0.0, 5.0) == [c];
    CutIffFirst(ws, 0.0, b);
    CutIffFirst(vs, 0.0, c);
    assert OpensAt(ws, 0.0) by { assert ws[2].startInclusive; }
    assert SplitAt(ws, 0.0) && !SplitAt(vs, 0.0);
    MergeAlikeIff(ws, vs);
  }

  /** What is merged depends on the covered instants alone when equal starts open alike. */
  lemma SameInstantsSameMerge(ws: seq<TimeWindow>, vs: seq<TimeWindow>)
    requires AllNonEmpty(ws) && OpenAlike(ws) && AllNonEmpty(vs) && OpenAlike(vs) && SameInstants(ws, vs)
    ensures Merge(ws) == Merge(vs)
  {
    hide Maximal, Within, Merge;
    MergeMaximal(ws);
    MergeMaximal(vs);
    UnionKept(ws);
    UnionKept(vs);
    MaximalIsUnique(Merge(ws), Merge(vs));
  }

  // --- merging again ---

  /** No window overlaps or touches the one before it. */
  ghost predicate NoneTouch(m: seq<TimeWindow>) {
    forall j | 0 < j < |m| :: !OverlapsOrTouch(m[j - 1], m[j])
  }

  lemma NoneTouchAppend(front: seq<TimeWindow>, w: TimeWindow)
    ensures NoneTouch(front + [w]) <==> NoneTouch(front) && (front != [] ==> !OverlapsOrTouch(Last(front), w))
  {
    hide OverlapsOrTouch;
    var m := front + [w];
    assert forall j | 0 <= j < |front| :: m[j] == front[j];
    if NoneTouch(m) && front != [] { assert !OverlapsOrTouch(m[|front| - 1], m[|front|]); }
  }

  /** The sweep joins windows or leaves the list alone. */
  lemma {:induction false} SweptUnchangedIff(m: seq<TimeWindow>)
    ensures |MergeSorted(m)| <= |m|
    ensures MergeSorted(m) == m <==> NoneTouch(m)
  {
    hide MergeSorted, NoneTouch, OverlapsOrTouch, Absorb;
    if m == [] {
      NothingToMerge();
      NothingTouches();
    } else {
      var k := |m| - 1;
      var front, w := m[..k], m[k];
      assert m == front + [w] && m[..k + 1] == m;
      SweptUnchangedIff(front);
      SweepNext(m, k);
      NoneTouchAppend(front, w);
      SweptLast(MergeSorted(front), front, w);
    }
  }

  lemma NothingTouches()
    ensures NoneTouch([])
  {
  }

  lemma SweptLast(merged: seq<TimeWindow>, front: seq<TimeWindow>, w: TimeWindow)
    requires |merged| <= |front|
    ensures |Sweep(merged, w)| <= |front| + 1
    ensures Sweep(merged, w) == front + [w] <==>
            merged == front && (front != [] ==> !OverlapsOrTouch(Last(front), w))
  {
    hide OverlapsOrTouch, Absorb;
    assert (merged + [w])[..|merged|] == merged && (front + [w])[..|front|] == front;
  }

  lemma UnjoinableIff(m: seq<TimeWindow>)
    requires Separated(m)
    ensures Sorted(m) && (Unjoinable(m) <==> NoneTouch(m))
  {
    forall i, j | 0 <= i < j < |m| ensures NoLater(m[i], m[j]) && Ordered(m[i]) && Ordered(m[j]) {
      assert Apart(m[i], m[j]);
    }
    if Unjoinable(m) {
      forall j | 0 < j < |m| ensures !OverlapsOrTouch(m[j - 1], m[j]) { assert Gap(m[j - 1], m[j]); }
    }
    if NoneTouch(m) {
      forall i, j | 0 <= i < j < |m| ensures Gap(m[i], m[j]) {
        assert Apart(m[i], m[j]) && (i < j - 1 ==> Apart(m[i], m[j - 1]));
        assert !OverlapsOrTouch(m[j - 1], m[j]);
      }
    }
  }

  /** Merging the result again changes nothing exactly when no two of its windows could be joined. */
  lemma MergingAgainChangesNothingIff(ws: seq<TimeWindow>)
    requires AllOrdered(ws)
    ensures Merge(Merge(ws)) == Merge(ws) <==> Unjoinable(Merge(ws))
  {
    hide Unjoinable, NoneTouch, MergeSorted, Separated, Sorted, StableSort;
    MergeSeparated(ws);
    UnjoinableIff(Merge(ws));
    SortedStays(Merge(ws));
    SweptUnchangedIff(Merge(ws));
  }
}

module TimeWindows {
  import opened WindowModel
  import opened WindowUnion
  import opened WindowShape

  datatype Result<+T> = Ok(value: T) | InvalidTimeWindow

  datatype MultiWindowMode = Any | All

  /** Windows are looked at in turn until the answer is known; one looked at must not end before it starts. */
  method IsWithinWindows(t: real, windows: seq<TimeWindow>, mode: MultiWindowMode := Any) returns (r: Result<bool>)
    ensures AllOrdered(windows) ==> r.Ok?
    ensures r.Ok? && windows == [] ==> r.value
    ensures r.Ok? && windows != [] && mode == Any ==> (r.value <==> Within(windows, t))
    ensures r.Ok? && windows != [] && mode == All ==>
              (r.value <==> forall i | 0 <= i < |windows| :: Contains(windows[i], t))
    ensures r.InvalidTimeWindow? ==>
              exists i :: 0 <= i < |windows| && !Ordered(windows[i]) &&
                          forall j | 0 <= j < i :: Contains(windows[j], t) == (mode == All)
  {
    if |windows| == 0 {
      return Ok(true);
    }
    for i := 0 to |windows|
      invariant forall j | 0 <= j < i :: Contains(windows[j], t) == (mode == All)
    {
      if !Ordered(windows[i]) {
        return InvalidTimeWindow;
      }
      if Contains(windows[i], t) != (mode == All) {
        return Ok(mode == Any);
      }
    }
    return Ok(mode == All);
  }

  lemma MergedIs(windows: seq<TimeWindow>)
    requires AllOrdered(windows)
    ensures MergeSorted([]) == [] && Merge(windows) == MergeSorted(StableSort(windows)) && Separated(Merge(windows))
    ensures forall t :: Within(Merge(windows), t) <==> Within(windows, t) || Clash(windows, t)
  {
    hide Separated, Within, Clash, StableSort, AllOrdered;
    MergeSeparated(windows);
    forall t ensures Within(Merge(windows), t) <==> Within(windows, t) || Clash(windows, t) {
      MergeExact(windows, t);
    }
  }

  /** Sorts, then sweeps. */
  method MergeWindows(windows: seq<TimeWindow>) returns (r: Result<seq<TimeWindow>>)
    ensures r.Ok? <==> AllOrdered(windows)
    ensures r.Ok? ==> r.value == Merge(windows) && Separated(r.value)
    ensures r.Ok? ==> forall t :: Within(r.value, t) <==> Within(windows, t) || Clash(windows, t)
  {
    for i := 0 to |windows|
      invariant forall j | 0 <= j < i :: Ordered(windows[j])
    {
      if !Ordered(windows[i]) {
        return InvalidTimeWindow;
      }
    }
    MergedIs(windows);
    hide Separated, Within, Clash, MergeSorted, Merge;
    var sorted := StableSort(windows);
    var merged: seq<TimeWindow> := [];
    for i := 0 to |sorted|
      invariant merged == MergeSorted(sorted[..i])
    {
      SweepNext(sorted, i);
      var w := sorted[i];
      ghost var before := merged;
      if merged != [] && OverlapsOrTouch(Last(merged), w) {
        var last := Last(merged);
        if w.endsAt > last.endsAt {
          last := last.(endsAt := w.endsAt);
          last := last.(endInclusive := w.endInclusive);
        } else if w.endsAt == last.endsAt {
          last := last.(endInclusive := last.endInclusive || w.endInclusive);
        }
        if w.startsAt == last.startsAt {
          last := last.(startInclusive := last.startInclusive || w.startInclusive);
        }
        merged := merged[|merged| - 1 := last];
      } else {
        merged := merged + [w];
      }
      assert merged == Sweep(before, w);
    }
    assert sorted[..|sorted|] == sorted;
    return Ok(merged);
  }
}
