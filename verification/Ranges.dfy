/** The address ranges of src/ranges.c as values: what adding, merging, subtracting and the gap
    report do to the list of ranges, and which set of addresses the list covers.
    RangeSet.dfy proves the list code against these functions.
 */
module Ranges {
  import opened Machine

  /** `struct range_t`: the addresses from, ..., to - 1. */
  datatype Range = Range(from: U64, to: U64)

  predicate Ordered(r: Range) {
    r.from <= r.to
  }

  ghost predicate AllOrdered(s: seq<Range>) {
    forall i :: 0 <= i < |s| ==> Ordered(s[i])
  }

  predicate Covers(r: Range, a: int) {
    r.from <= a < r.to
  }

  ghost predicate Covered(s: seq<Range>, a: int) {
    exists i :: 0 <= i < |s| && Covers(s[i], a)
  }

  /** The two ranges overlap or are adjacent. */
  predicate Touch(r: Range, s: Range) {
    r.from <= s.to && s.from <= r.to
  }

  function Hull(r: Range, s: Range): Range {
    Range(if r.from <= s.from then r.from else s.from, if r.to >= s.to then r.to else s.to)
  }

  /** `ranges_abs`. */
  function Abs(from: U64, to: U64): (r: Range)
    ensures Ordered(r) && (r == Range(from, to) || r == Range(to, from))
  {
    if from > to then Range(to, from) else Range(from, to)
  }

  // ----- ranges_add

  /** The case distinction of `ranges_add` for one stored range: the new value of the range, and
      whether one of the five cases applied. */
  function Extend(r: Range, from: U64, to: U64): (Range, bool) {
    if r.from == from && r.to == to then
      (r, true)
    else if r.from <= from && r.from <= to && r.to >= from && r.to <= to then
      (r.(to := to), true)
    else if r.from >= from && r.from <= to && r.to >= from && r.to >= to then
      (r.(from := from), true)
    else if r.from <= from && r.from <= to && r.to >= from && r.to >= to then
      (r, true)
    else if r.from >= from && r.from <= to && r.to >= from && r.to <= to then
      (Range(from, to), true)
    else
      (r, false)
  }

  /** The five cases are together exactly the hull of two touching ranges. */
  lemma ExtendIsHull(r: Range, n: Range)
    requires Ordered(r) && Ordered(n)
    ensures Extend(r, n.from, n.to) == if Touch(r, n) then (Hull(r, n), true) else (r, false)
  {
  }

  /** The walk of `ranges_add` over the whole list. */
  function ExtendAll(s: seq<Range>, n: Range): (e: seq<Range>)
    ensures |e| == |s|
    ensures forall i {:trigger e[i]} :: 0 <= i < |s| ==> e[i] == Extend(s[i], n.from, n.to).0
  {
    seq(|s|, i requires 0 <= i < |s| => Extend(s[i], n.from, n.to).0)
  }

  /** The walk of `ranges_add` when it has passed the first k ranges. */
  function ExtendFirst(s: seq<Range>, n: Range, k: nat): (e: seq<Range>)
    requires k <= |s|
    ensures |e| == |s|
    ensures forall i {:trigger e[i]} :: k <= i < |s| ==> e[i] == s[i]
  {
    if k == 0 then s else ExtendFirst(s, n, k - 1)[k - 1 := Extend(s[k - 1], n.from, n.to).0]
  }

  lemma {:induction false} ExtendFirstAt(s: seq<Range>, n: Range, k: nat, i: nat)
    requires i < k <= |s|
    ensures ExtendFirst(s, n, k)[i] == Extend(s[i], n.from, n.to).0
  {
    if i < k - 1 {
      ExtendFirstAt(s, n, k - 1, i);
    }
  }

  lemma ExtendFirstAll(s: seq<Range>, n: Range)
    ensures ExtendFirst(s, n, |s|) == ExtendAll(s, n)
  {
    forall i | 0 <= i < |s|
      ensures ExtendFirst(s, n, |s|)[i] == ExtendAll(s, n)[i]
    {
      ExtendFirstAt(s, n, |s|, i);
    }
  }

  /** Whether one of the first k ranges fell under one of the five cases. */
  function HitFirst(s: seq<Range>, n: Range, k: nat): (hit: bool)
    requires k <= |s|
    ensures hit <==> exists i :: 0 <= i < k && Extend(s[i], n.from, n.to).1
  {
    k > 0 && (Extend(s[k - 1], n.from, n.to).1 || HitFirst(s, n, k - 1))
  }

  /** Some stored range fell under one of the five cases, so that nothing is appended. */
  ghost predicate Hit(s: seq<Range>, n: Range) {
    exists i :: 0 <= i < |s| && Extend(s[i], n.from, n.to).1
  }

  /** The list after `ranges_add`. */
  ghost function Add(s: seq<Range>, from: U64, to: U64, rw: bool): seq<Range> {
    var n := Abs(from, to);
    ExtendAll(s, n) + if rw && !Hit(s, n) then [n] else []
  }

  lemma AddKeepsOrdered(s: seq<Range>, from: U64, to: U64, rw: bool)
    requires AllOrdered(s)
    ensures AllOrdered(Add(s, from, to, rw))
  {
    var n := Abs(from, to);
    forall i | 0 <= i < |s|
      ensures Ordered(ExtendAll(s, n)[i])
    {
      ExtendIsHull(s[i], n);
    }
  }

  lemma ExtendAllCovers(s: seq<Range>, n: Range, a: int)
    requires AllOrdered(s) && Ordered(n)
    ensures Covered(ExtendAll(s, n), a) <==> Covered(s, a) || (Hit(s, n) && Covers(n, a))
  {
    var e := ExtendAll(s, n);
    if Covered(e, a) {
      var i :| 0 <= i < |e| && Covers(e[i], a);
      ExtendIsHull(s[i], n);
      assert Covers(s[i], a) || Covers(n, a);
    }
    if Covered(s, a) {
      var i :| 0 <= i < |s| && Covers(s[i], a);
      ExtendIsHull(s[i], n);
      assert Covers(e[i], a);
    }
    if Hit(s, n) && Covers(n, a) {
      var i :| 0 <= i < |s| && Extend(s[i], n.from, n.to).1;
      ExtendIsHull(s[i], n);
      assert Covers(e[i], a);
    }
  }

  /** With rw set, `ranges_add` covers exactly the addresses covered before and the new ones. */
  lemma AddCovers(s: seq<Range>, from: U64, to: U64, a: int)
    requires AllOrdered(s)
    ensures Covered(Add(s, from, to, true), a) <==> Covered(s, a) || from <= a < to || to <= a < from
  {
    var n := Abs(from, to);
    var e, added := ExtendAll(s, n), Add(s, from, to, true);
    ExtendAllCovers(s, n, a);
    if Covered(e, a) {
      var i :| 0 <= i < |e| && Covers(e[i], a);
      assert added[i] == e[i];
    }
    if !Hit(s, n) && Covers(n, a) {
      assert added[|s|] == n;
    }
  }

  predicate SortedByFrom(s: seq<Range>) {
    forall i, j :: 0 <= i < j < |s| ==> s[i].from <= s[j].from
  }

  /** Extending a sorted list in place keeps it sorted, although `from` fields go down. */
  lemma ExtendAllKeepsSorted(s: seq<Range>, n: Range)
    requires AllOrdered(s) && Ordered(n) && SortedByFrom(s)
    ensures SortedByFrom(ExtendAll(s, n))
  {
    forall i, j | 0 <= i < j < |s|
      ensures ExtendAll(s, n)[i].from <= ExtendAll(s, n)[j].from
    {
      ExtendIsHull(s[i], n);
      ExtendIsHull(s[j], n);
    }
  }

  ghost predicate FromsDiffer(s: seq<Range>) {
    exists i, j :: 0 <= i < |s| && 0 <= j < |s| && s[i].from < s[j].from
  }

  /** What sorting leaves alone. */
  lemma SameElements(t: seq<Range>, s: seq<Range>)
    requires multiset(t) == multiset(s)
    ensures forall r :: r in t <==> r in s
    ensures AllOrdered(s) ==> AllOrdered(t)
    ensures forall a :: Covered(t, a) <==> Covered(s, a)
    ensures FromsDiffer(t) <==> FromsDiffer(s)
  {
    forall r
      ensures r in t <==> r in s
    {
      assert r in t <==> r in multiset(t);
      assert r in s <==> r in multiset(s);
    }
    forall i | 0 <= i < |t| && AllOrdered(s)
      ensures Ordered(t[i])
    {
      assert t[i] in s;
    }
    forall a
      ensures Covered(t, a) <==> Covered(s, a)
    {
      assert Covered(t, a) <==> exists r :: r in t && Covers(r, a);
      assert Covered(s, a) <==> exists r :: r in s && Covers(r, a);
    }
    assert FromsDiffer(t) <==> exists q, r :: q in t && r in t && q.from < r.from;
    assert FromsDiffer(s) <==> exists q, r :: q in s && r in s && q.from < r.from;
  }

  // ----- ranges_merge

  /** The rest of the `ranges_merge` walk from position k on: each range in turn is added, with
      the value it has by then, to all ranges of the list. */
  function MergeFrom(s: seq<Range>, k: nat): (m: seq<Range>)
    requires k <= |s|
    ensures |m| == |s|
    decreases |s| - k
  {
    if k == |s| then s else MergeFrom(ExtendAll(s, s[k]), k + 1)
  }

  function Merge(s: seq<Range>): seq<Range> {
    MergeFrom(s, 0)
  }

  predicate Includes(outer: Range, inner: Range) {
    outer.from <= inner.from && inner.to <= outer.to
  }

  /** Whatever touches one of the first k ranges includes it. */
  ghost predicate Absorbed(s: seq<Range>, k: nat)
    requires k <= |s|
  {
    forall p, e :: 0 <= p < k && 0 <= e < |s| && Touch(s[e], s[p]) ==> Includes(s[e], s[p])
  }

  /** One turn of the merge takes the next range into the absorbed ones. */
  lemma AbsorbNext(s: seq<Range>, k: nat)
    requires k < |s| && AllOrdered(s) && Absorbed(s, k)
    ensures AllOrdered(ExtendAll(s, s[k])) && Absorbed(ExtendAll(s, s[k]), k + 1)
  {
    var q, t := s[k], ExtendAll(s, s[k]);
    forall i | 0 <= i < |s|
      ensures Ordered(t[i])
    {
      ExtendIsHull(s[i], q);
    }
    forall p, e | 0 <= p < k + 1 && 0 <= e < |s| && Touch(t[e], t[p])
      ensures Includes(t[e], t[p])
    {
      ExtendIsHull(s[p], q);
      ExtendIsHull(s[e], q);
      if p < k && Touch(s[p], q) {
        assert Includes(s[k], s[p]);
      } else if p < k && Touch(s[e], q) {
        assert Touch(s[e], s[p]);
      }
    }
  }

  lemma {:induction false} MergeFromAbsorbs(s: seq<Range>, k: nat)
    requires k <= |s| && AllOrdered(s) && Absorbed(s, k)
    ensures AllOrdered(MergeFrom(s, k)) && Absorbed(MergeFrom(s, k), |s|)
    decreases |s| - k
  {
    if k < |s| {
      AbsorbNext(s, k);
      MergeFromAbsorbs(ExtendAll(s, s[k]), k + 1);
    }
  }

  lemma {:induction false} MergeFromCovers(s: seq<Range>, k: nat, a: int)
    requires k <= |s| && AllOrdered(s)
    ensures Covered(MergeFrom(s, k), a) <==> Covered(s, a)
    decreases |s| - k
  {
    if k < |s| {
      var t := ExtendAll(s, s[k]);
      forall i | 0 <= i < |s|
        ensures Ordered(t[i])
      {
        ExtendIsHull(s[i], s[k]);
      }
      ExtendAllCovers(s, s[k], a);
      MergeFromCovers(t, k + 1, a);
    }
  }

  /** Any two ranges that overlap or touch are the same range. */
  ghost predicate Separated(s: seq<Range>) {
    forall i, j :: 0 <= i < |s| && 0 <= j < |s| && Touch(s[i], s[j]) ==> s[i] == s[j]
  }

  /** One pass of `ranges_merge`, over a list in any order, covers the same addresses and leaves
      no two different ranges that overlap or touch. */
  lemma MergeSeparates(s: seq<Range>)
    requires AllOrdered(s)
    ensures AllOrdered(Merge(s)) && Separated(Merge(s))
    ensures forall a :: Covered(Merge(s), a) <==> Covered(s, a)
  {
    MergeFromAbsorbs(s, 0);
    forall a
      ensures Covered(Merge(s), a) <==> Covered(s, a)
    {
      MergeFromCovers(s, 0, a);
    }
  }

  lemma {:induction false} MergeFromKeepsSorted(s: seq<Range>, k: nat)
    requires k <= |s| && AllOrdered(s) && SortedByFrom(s)
    ensures SortedByFrom(MergeFrom(s, k))
    decreases |s| - k
  {
    if k < |s| {
      forall i | 0 <= i < |s|
        ensures Ordered(ExtendAll(s, s[k])[i])
      {
        ExtendIsHull(s[i], s[k]);
      }
      ExtendAllKeepsSorted(s, s[k]);
      MergeFromKeepsSorted(ExtendAll(s, s[k]), k + 1);
    }
  }
}
