/** When `ranges_sub` of src/ranges.c leaves a sorted list unsorted without deleting a range, so that
    `ranges_changed` stays clear and the next sort is skipped.
 */
module RangeOrder {
  import opened Machine
  import opened Lists
  import opened Ranges
  import opened RangeSub

  /** A range after the first two cases. */
  function Cut(r: Range, from: U64, to: U64): Range {
    if CutsTail(r, from, to) then r.(to := from) else if CutsHead(r, from, to) then r.(from := to) else r
  }

  /** Without deletions and splits the walk cuts every range once. */
  lemma {:induction false} SubFromCuts(s: seq<Range>, k: nat, from: U64, to: U64)
    requires k <= |s| && from <= to
    requires forall i :: k <= i < |s| ==> !Inside(s[i], from, to) && !Straddles(s[i], from, to)
    ensures |SubFrom(s, k, from, to)| == |s|
    ensures forall i :: 0 <= i < |s| ==> SubFrom(s, k, from, to)[i] == if i < k then s[i] else Cut(s[i], from, to)
    decreases |s| - k
  {
    if k < |s| {
      var t := s[k := Cut(s[k], from, to)];
      TrimKeepsStraddlers(s, k, t[k], from, to);
      SubFromCuts(t, k + 1, from, to);
      assert SubFrom(s, k, from, to) == SubFrom(t, k + 1, from, to) by {
        if t[k] == s[k] {
          assert t == s;
        }
      }
    }
  }

  lemma {:induction false} SubFromShrinks(s: seq<Range>, k: nat, from: U64, to: U64)
    requires k <= |s| && from <= to
    ensures |SubFrom(s, k, from, to)| <= |s|
    decreases |s|, Straddlers(s, from, to), |s| - k
  {
    if k == |s| {
    } else if CutsTail(s[k], from, to) {
      TrimKeepsStraddlers(s, k, s[k].(to := from), from, to);
      SubFromShrinks(s[k := s[k].(to := from)], k + 1, from, to);
    } else if CutsHead(s[k], from, to) {
      TrimKeepsStraddlers(s, k, s[k].(from := to), from, to);
      SubFromShrinks(s[k := s[k].(from := to)], k + 1, from, to);
    } else if Inside(s[k], from, to) {
      SubFromShrinks(Delete(s, k), 0, from, to);
    } else if Straddles(s[k], from, to) {
      SplitFewerStraddlers(s, k, from, to);
      SubFromShrinks(Split(s, k, from, to), 0, from, to);
    } else {
      SubFromShrinks(s, k + 1, from, to);
    }
  }

  /** Without splits a range strictly inside is deleted. */
  lemma {:induction false} SubFromDeletes(s: seq<Range>, k: nat, from: U64, to: U64, i: nat)
    requires k <= i < |s| && from <= to && Inside(s[i], from, to)
    requires forall j :: k <= j < |s| ==> !Straddles(s[j], from, to)
    ensures |SubFrom(s, k, from, to)| < |s|
    decreases |s| - k
  {
    if Inside(s[k], from, to) {
      SubFromShrinks(Delete(s, k), 0, from, to);
    } else {
      var t := s[k := Cut(s[k], from, to)];
      TrimKeepsStraddlers(s, k, t[k], from, to);
      SubFromDeletes(t, k + 1, from, to, i);
      if t[k] == s[k] {
        assert t == s;
      }
    }
  }

  /** What touches [from, to) includes it. */
  ghost predicate Swallowed(s: seq<Range>, from: U64, to: U64) {
    forall i :: 0 <= i < |s| && Touch(s[i], Range(from, to)) ==> Includes(s[i], Range(from, to))
  }

  /** A split makes everything that touches [from, to) include it, and keeps the order. */
  lemma SplitSwallows(s: seq<Range>, k: nat, from: U64, to: U64)
    requires k < |s| && from <= to && Straddles(s[k], from, to) && AllOrdered(s) && SortedByFrom(s)
    ensures var t := Split(s, k, from, to); AllOrdered(t) && SortedByFrom(t) && Swallowed(t, from, to)
  {
    var cut, n := s[k := s[k].(to := from)], Range(from, to);
    ExtendAllKeepsSorted(cut, n);
    forall i | 0 <= i < |s|
      ensures var r := Split(s, k, from, to)[i]; Ordered(r) && (Touch(r, n) ==> Includes(r, n))
    {
      ExtendIsHull(cut[i], n);
    }
  }

  /** Once a split has happened, only splits can follow, and they keep the order. */
  lemma {:induction false} SwallowedStaysSorted(s: seq<Range>, k: nat, from: U64, to: U64)
    requires k <= |s| && from <= to && AllOrdered(s) && SortedByFrom(s) && Swallowed(s, from, to)
    ensures SortedByFrom(SubFrom(s, k, from, to))
    decreases |s|, Straddlers(s, from, to), |s| - k
  {
    if k < |s| {
      assert Touch(s[k], Range(from, to)) ==> Includes(s[k], Range(from, to));
      if Straddles(s[k], from, to) {
        SplitFewerStraddlers(s, k, from, to);
        SplitSwallows(s, k, from, to);
        SwallowedStaysSorted(Split(s, k, from, to), 0, from, to);
      } else {
        SwallowedStaysSorted(s, k + 1, from, to);
      }
    }
  }

  /** In a sorted list a range that is split comes before all that could be cut at the head or deleted,
      so the list stays sorted. */
  lemma {:induction false} SplitStaysSorted(s: seq<Range>, k: nat, from: U64, to: U64, i: nat)
    requires k <= i < |s| && from <= to && AllOrdered(s) && SortedByFrom(s) && Straddles(s[i], from, to)
    ensures SortedByFrom(SubFrom(s, k, from, to))
    decreases |s| - k
  {
    assert s[k].from <= s[i].from;
    if CutsTail(s[k], from, to) {
      var t := s[k := s[k].(to := from)];
      TrimKeepsStraddlers(s, k, t[k], from, to);
      SplitStaysSorted(t, k + 1, from, to, i);
    } else if Straddles(s[k], from, to) {
      SplitFewerStraddlers(s, k, from, to);
      SplitSwallows(s, k, from, to);
      SwallowedStaysSorted(Split(s, k, from, to), 0, from, to);
    } else {
      SplitStaysSorted(s, k + 1, from, to, i);
    }
  }

  /** No range is split or deleted, and a range that loses its head stands before one that ends exactly at
      `to` and reaches into [from, to), which the code leaves alone. */
  ghost predicate Disorders(s: seq<Range>, from: U64, to: U64) {
    && (forall i :: 0 <= i < |s| ==> !Straddles(s[i], from, to) && !Inside(s[i], from, to))
    && exists i, j :: 0 <= i < j < |s| && CutsHead(s[i], from, to) && s[j].from < to && s[j].to == to
  }

  /** Subtracting from a sorted list loses the order without deleting a range exactly in this case. */
  lemma SubLosesOrder(s: seq<Range>, from: U64, to: U64)
    requires AllOrdered(s) && SortedByFrom(s)
    ensures var t, n := Sub(s, from, to), Abs(from, to);
            |t| == |s| && !SortedByFrom(t) <==> Disorders(s, n.from, n.to)
  {
    var t, n := Sub(s, from, to), Abs(from, to);
    if i :| 0 <= i < |s| && Straddles(s[i], n.from, n.to) {
      SplitStaysSorted(s, 0, n.from, n.to, i);
    } else if i :| 0 <= i < |s| && Inside(s[i], n.from, n.to) {
      SubFromDeletes(s, 0, n.from, n.to, i);
    } else {
      SubFromCuts(s, 0, n.from, n.to);
      CutsLoseOrder(s, t, n.from, n.to);
    }
  }

  lemma CutsLoseOrder(s: seq<Range>, t: seq<Range>, from: U64, to: U64)
    requires AllOrdered(s) && SortedByFrom(s) && from <= to && |t| == |s|
    requires forall i :: 0 <= i < |s| ==> !Straddles(s[i], from, to) && !Inside(s[i], from, to)
    requires forall i :: 0 <= i < |s| ==> t[i] == Cut(s[i], from, to)
    ensures !SortedByFrom(t) <==> Disorders(s, from, to)
  {
    forall i, j | 0 <= i < j < |s|
      ensures t[i].from > t[j].from <==> CutsHead(s[i], from, to) && s[j].from < to && s[j].to == to
    {
      CutPair(s[i], s[j], from, to);
    }
  }

  lemma CutPair(r: Range, q: Range, from: U64, to: U64)
    requires Ordered(r) && Ordered(q) && r.from <= q.from && from <= to
    requires !Straddles(q, from, to) && !Inside(q, from, to)
    ensures Cut(r, from, to).from > Cut(q, from, to).from <==> CutsHead(r, from, to) && q.from < to && q.to == to
  {
  }
}
