/** Whole runs of the commands of src/ranges.c on the list of ranges and its `ranges_changed` flag. */
module RangeRuns {
  import opened Machine
  import opened Ranges
  import opened RangeGaps
  import opened RangeOrder
  import opened RangeSub

  datatype Command = DoAdd(from: U64, to: U64, rw: bool) | DoMerge | DoSort | DoSub(from: U64, to: U64)

  datatype State = State(ranges: seq<Range>, changed: bool)

  /** What the methods of RangeSet.RangeList do to the list and the flag. */
  ghost predicate Step(s: State, c: Command, t: State) {
    match c
    case DoAdd(from, to, rw) =>
      t == State(Add(s.ranges, from, to, rw), s.changed || (rw && !Hit(s.ranges, Abs(from, to))))
    case DoMerge =>
      t == State(Merge(s.ranges), s.changed)
    case DoSort =>
      if !s.changed then t == s
      else
        && multiset(t.ranges) == multiset(s.ranges) && SortedByFrom(t.ranges)
        && t.changed == FromsDiffer(s.ranges)
    case DoSub(from, to) =>
      var ranges := Sub(s.ranges, from, to);
      t == State(ranges, s.changed || |ranges| < |s.ranges|)
  }

  ghost predicate Run(states: seq<State>, commands: seq<Command>) {
    && |states| == |commands| + 1 && states[0] == State([], false)
    && forall i :: 0 <= i < |commands| ==> Step(states[i], commands[i], states[i + 1])
  }

  /** A clear flag means that there is nothing to sort. */
  ghost predicate Quiet(s: State) {
    !s.changed ==> SortedByFrom(s.ranges)
  }

  /** Not a subtraction that loses the order behind the flag's back. */
  ghost predicate Safe(s: State, c: Command) {
    c.DoSub? ==> s.changed || (var n := Abs(c.from, c.to); !Disorders(s.ranges, n.from, n.to))
  }

  lemma StepKeepsOrdered(s: State, c: Command, t: State)
    requires Step(s, c, t) && AllOrdered(s.ranges)
    ensures AllOrdered(t.ranges)
  {
    match c
    case DoAdd(from, to, rw) => AddKeepsOrdered(s.ranges, from, to, rw);
    case DoMerge => MergeSeparates(s.ranges);
    case DoSort => SameElements(t.ranges, s.ranges);
    case DoSub(from, to) =>
      var n := Abs(from, to);
      SubFromWithin(s.ranges, 0, n.from, n.to);
  }

  /** One command keeps a clear flag meaningful if and only if it is safe. */
  lemma StepKeepsQuiet(s: State, c: Command, t: State)
    requires Step(s, c, t) && AllOrdered(s.ranges) && Quiet(s)
    ensures Quiet(t) <==> Safe(s, c)
  {
    match c
    case DoAdd(from, to, rw) =>
      if !t.changed {
        ExtendAllKeepsSorted(s.ranges, Abs(from, to));
      }
    case DoMerge =>
      if !t.changed {
        MergeFromKeepsSorted(s.ranges, 0);
      }
    case DoSort =>
    case DoSub(from, to) =>
      if !s.changed {
        var n := Abs(from, to);
        SubLosesOrder(s.ranges, from, to);
        SubFromShrinks(s.ranges, 0, n.from, n.to);
      }
  }

  lemma {:induction false} RunKeepsOrdered(states: seq<State>, commands: seq<Command>, n: nat)
    requires Run(states, commands) && n < |states|
    ensures AllOrdered(states[n].ranges)
  {
    if n > 0 {
      RunKeepsOrdered(states, commands, n - 1);
      StepKeepsOrdered(states[n - 1], commands[n - 1], states[n]);
    }
  }

  lemma {:induction false} SafeRunIsQuiet(states: seq<State>, commands: seq<Command>, n: nat)
    requires Run(states, commands) && n < |states|
    requires forall i :: 0 <= i < n ==> Safe(states[i], commands[i])
    ensures Quiet(states[n])
  {
    if n > 0 {
      SafeRunIsQuiet(states, commands, n - 1);
      RunKeepsOrdered(states, commands, n - 1);
      StepKeepsQuiet(states[n - 1], commands[n - 1], states[n]);
    }
  }

  /** Over any run of adds, merges, sorts and subtractions from the empty list, a clear flag always means
      that the list is sorted, if and only if every subtraction on a clear flag is safe. */
  lemma RunKeepsSorted(states: seq<State>, commands: seq<Command>)
    requires Run(states, commands)
    ensures (forall n :: 0 <= n < |states| ==> Quiet(states[n])) <==>
            (forall i :: 0 <= i < |commands| ==> Safe(states[i], commands[i]))
  {
    if forall n :: 0 <= n < |states| ==> Quiet(states[n]) {
      forall i | 0 <= i < |commands|
        ensures Safe(states[i], commands[i])
      {
        assert Quiet(states[i]) && Quiet(states[i + 1]);
        RunKeepsOrdered(states, commands, i);
        StepKeepsQuiet(states[i], commands[i], states[i + 1]);
      }
    }
    if forall i :: 0 <= i < |commands| ==> Safe(states[i], commands[i]) {
      forall n | 0 <= n < |states|
        ensures Quiet(states[n])
      {
        SafeRunIsQuiet(states, commands, n);
      }
    }
  }

  /** In particular without subtractions. */
  lemma RunWithoutSubKeepsSorted(states: seq<State>, commands: seq<Command>, n: nat)
    requires Run(states, commands) && n < |states|
    requires forall i :: 0 <= i < |commands| ==> !commands[i].DoSub?
    ensures Quiet(states[n])
  {
    RunKeepsSorted(states, commands);
  }

  lemma AddsOfRun()
    ensures Step(State([], false), DoAdd(20, 30, true), State([Range(20, 30)], true))
    ensures Step(State([Range(20, 30)], true), DoAdd(5, 6, true), State([Range(20, 30), Range(5, 6)], true))
    ensures Step(State([Range(20, 30), Range(5, 6)], true), DoAdd(2, 25, true),
                 State([Range(2, 30), Range(2, 25)], true))
  {
    var s := [Range(20, 30), Range(5, 6)];
    assert Extend(s[0], 2, 25) == (Range(2, 30), true) && Extend(s[1], 2, 25) == (Range(2, 25), true);
  }

  lemma LastStepsOfRun()
    ensures var s := [Range(2, 30), Range(2, 25)];
            && Step(State(s, true), DoSort, State(s, false))
            && Step(State(s, false), DoSub(1, 25), State([Range(25, 30), Range(2, 25)], false))
  {
    SubUnsorts();
  }

  /** A run at whose end the list is not sorted and the flag is clear. */
  lemma RunLosesOrder()
    ensures var commands := [DoAdd(20, 30, true), DoAdd(5, 6, true), DoAdd(2, 25, true), DoSort, DoSub(1, 25)];
            var states := [State([], false), State([Range(20, 30)], true), State([Range(20, 30), Range(5, 6)], true),
                           State([Range(2, 30), Range(2, 25)], true), State([Range(2, 30), Range(2, 25)], false),
                           State([Range(25, 30), Range(2, 25)], false)];
            Run(states, commands) && !Quiet(states[5])
  {
    AddsOfRun();
    LastStepsOfRun();
    var t := [Range(25, 30), Range(2, 25)];
    assert t[0].from > t[1].from;
  }

  /** Overlapping ranges as in RangeGaps.UnmergedMisreport and RangeGaps.SizeMiscounts arise from adds. */
  lemma OverlapsArise()
    ensures var s0, s1 := State([Range(1, 3)], true), State([Range(1, 3), Range(15, 20)], true);
            && Step(State([], false), DoAdd(1, 3, true), s0) && Step(s0, DoAdd(15, 20, true), s1)
            && Step(s1, DoAdd(2, 16, true), State([Range(1, 16), Range(2, 20)], true))
    ensures var t0, t1 := State([Range(0, 5)], true), State([Range(0, 5), Range(U64_MAX - 9, U64_MAX)], true);
            && Step(State([], false), DoAdd(0, 5, true), t0) && Step(t0, DoAdd(U64_MAX - 9, U64_MAX, true), t1)
            && Step(t1, DoAdd(3, U64_MAX - 4, true), State([Range(0, U64_MAX - 4), Range(3, U64_MAX)], true))
  {
    TwoAdds(Range(1, 3), Range(15, 20), Range(2, 16));
    TwoAdds(Range(0, 5), Range(U64_MAX - 9, U64_MAX), Range(3, U64_MAX - 4));
  }

  /** A range that touches two others is added to both. */
  lemma TwoAdds(p: Range, q: Range, r: Range)
    requires p.from < r.from <= p.to < q.from <= r.to < q.to
    ensures Step(State([], false), DoAdd(p.from, p.to, true), State([p], true))
    ensures Step(State([p], true), DoAdd(q.from, q.to, true), State([p, q], true))
    ensures Step(State([p, q], true), DoAdd(r.from, r.to, true), State([p.(to := r.to), q.(from := r.from)], true))
  {
    var s := [p, q];
    assert Extend(s[0], r.from, r.to) == (p.(to := r.to), true);
    assert Extend(s[1], r.from, r.to) == (q.(from := r.from), true);
    assert [p][0] == p && Extend(p, q.from, q.to) == (p, false);
  }

  /** Merging, sorting and reporting together: for any list in any order, the report names exactly
      the addresses between `from` and `to` that the original ranges do not cover, if and only if
      `from` is not covered (or nothing was asked for). */
  lemma ReportAfterMergeAndSort(s: seq<Range>, sorted: seq<Range>, from: U64, to: U64)
    requires AllOrdered(s)
    requires multiset(sorted) == multiset(Merge(s)) && SortedByFrom(sorted)
    ensures (forall a :: Covered(Gaps(sorted, from, to), a) <==> Uncovered(s, from, to, a))
            <==> (to <= from || !Covered(s, from))
  {
    var merged := Merge(s);
    MergeSeparates(s);
    SameElements(sorted, merged);
    forall i, j | 0 <= i < |sorted| && 0 <= j < |sorted| && Touch(sorted[i], sorted[j])
      ensures sorted[i] == sorted[j]
    {
      assert sorted[i] in merged && sorted[j] in merged;
    }
    GapsExact(sorted, from, to);
    assert forall a :: Uncovered(sorted, from, to, a) <==> Uncovered(s, from, to, a);
  }
}
