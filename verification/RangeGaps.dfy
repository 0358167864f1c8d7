/** The counting and reporting side of src/ranges.c: `ranges_size` and `ranges_boolean`. */
module RangeGaps {
  import opened Collections
  import opened Machine
  import opened Ranges

  // ----- ranges_size

  /** The sum of all range lengths, before it wraps around at 64 bits. */
  function Total(s: seq<Range>): int {
    if s == [] then 0 else s[0].to - s[0].from + Total(s[1..])
  }

  lemma {:induction false} TotalAppend(s: seq<Range>, r: Range)
    ensures Total(s + [r]) == Total(s) + r.to - r.from
  {
    if s == [] {
    } else {
      assert (s + [r])[1..] == s[1..] + [r];
      TotalAppend(s[1..], r);
    }
  }

  /** One more range, in 64-bit arithmetic. */
  lemma TotalStep(s: seq<Range>, k: nat, sum: U64)
    requires k < |s| && sum == Total(s[..k]) % (U64_MAX + 1)
    ensures (sum + (s[k].to - s[k].from)) % (U64_MAX + 1) == Total(s[..k + 1]) % (U64_MAX + 1)
  {
    var before, d := Total(s[..k]), s[k].to - s[k].from;
    AddModulo(before, d);
    assert Total(s[..k + 1]) == before + d by {
      TotalAppend(s[..k], s[k]);
      assert s[..k + 1] == s[..k] + [s[k]];
    }
  }

  lemma AddModulo(x: int, d: int)
    ensures (x % (U64_MAX + 1) + d) % (U64_MAX + 1) == (x + d) % (U64_MAX + 1)
  {
  }

  /** The integers lo, ..., hi - 1. */
  ghost function Interval(lo: int, hi: int): (s: set<int>)
    ensures forall a :: a in s <==> lo <= a < hi
    ensures |s| == if lo <= hi then hi - lo else 0
    decreases hi - lo
  {
    if lo >= hi then {} else {lo} + Interval(lo + 1, hi)
  }

  ghost function Addresses(r: Range): set<int> {
    Interval(r.from, r.to)
  }

  /** The addresses that some range covers. */
  ghost function CoveredSet(s: seq<Range>): set<int> {
    set a: int | 0 <= a <= U64_MAX && Covered(s, a)
  }

  ghost predicate Disjoint(r: Range, s: Range) {
    forall a :: !(Covers(r, a) && Covers(s, a))
  }

  ghost predicate PairwiseDisjoint(s: seq<Range>) {
    forall i, j :: 0 <= i < j < |s| ==> Disjoint(s[i], s[j])
  }

  lemma CoveredCons(s: seq<Range>, a: int)
    requires s != []
    ensures Covered(s, a) <==> Covers(s[0], a) || Covered(s[1..], a)
  {
    if Covered(s, a) && !Covers(s[0], a) {
      var i :| 0 <= i < |s| && Covers(s[i], a);
      assert Covers(s[1..][i - 1], a);
    }
    if Covered(s[1..], a) {
      var i :| 0 <= i < |s[1..]| && Covers(s[1..][i], a);
      assert Covers(s[i + 1], a);
    }
  }

  lemma CoveredSetCons(s: seq<Range>)
    requires s != []
    ensures CoveredSet(s) == Addresses(s[0]) + CoveredSet(s[1..])
  {
    forall a
      ensures a in CoveredSet(s) <==> a in Addresses(s[0]) + CoveredSet(s[1..])
    {
      CoveredCons(s, a);
    }
  }

  lemma MeetsRest(s: seq<Range>)
    requires s != []
    ensures Addresses(s[0]) * CoveredSet(s[1..]) == {} <==> forall j :: 1 <= j < |s| ==> Disjoint(s[0], s[j])
  {
    var rest := s[1..];
    forall j, a | 1 <= j < |s| && Covers(s[j], a)
      ensures a in CoveredSet(rest)
    {
      assert Covers(rest[j - 1], a);
    }
    forall a | a in CoveredSet(rest)
      ensures exists j :: 1 <= j < |s| && Covers(s[j], a)
    {
      var i :| 0 <= i < |rest| && Covers(rest[i], a);
      assert Covers(s[i + 1], a);
    }
    if Addresses(s[0]) * CoveredSet(rest) == {} {
      forall j | 1 <= j < |s|
        ensures Disjoint(s[0], s[j])
      {
        assert forall a :: Covers(s[0], a) ==> a in Addresses(s[0]);
      }
    } else {
      var a :| a in Addresses(s[0]) && a in CoveredSet(rest);
      assert Covers(s[0], a);
    }
  }

  lemma DisjointCons(s: seq<Range>)
    requires s != []
    ensures PairwiseDisjoint(s) <==> PairwiseDisjoint(s[1..]) && forall j :: 1 <= j < |s| ==> Disjoint(s[0], s[j])
  {
    if PairwiseDisjoint(s[1..]) && forall j :: 1 <= j < |s| ==> Disjoint(s[0], s[j]) {
      forall i, j | 0 <= i < j < |s|
        ensures Disjoint(s[i], s[j])
      {
        if i > 0 {
          assert Disjoint(s[1..][i - 1], s[1..][j - 1]);
        }
      }
    }
    if PairwiseDisjoint(s) {
      forall i, j | 0 <= i < j < |s[1..]|
        ensures Disjoint(s[1..][i], s[1..][j])
      {
        assert Disjoint(s[i + 1], s[j + 1]);
      }
    }
  }

  /** The sum of the lengths bounds the number of covered addresses from above, and is that number exactly
      when no address is covered twice.  This is about the sum before it wraps around: see SizeExactly. */
  lemma {:induction false} SizeBoundsCoverage(s: seq<Range>)
    requires AllOrdered(s)
    ensures |CoveredSet(s)| <= Total(s)
    ensures |CoveredSet(s)| == Total(s) <==> PairwiseDisjoint(s)
  {
    if s == [] {
      assert CoveredSet(s) == {};
    } else {
      SizeBoundsCoverage(s[1..]);
      CoveredSetCons(s);
      UnionSize(Addresses(s[0]), CoveredSet(s[1..]));
      MeetsRest(s);
      DisjointCons(s);
    }
  }

  /** How many addresses the sum counts once too often. */
  ghost function Excess(s: seq<Range>): int {
    Total(s) - |CoveredSet(s)|
  }

  /** `ranges_size` itself wraps around at 64 bits.  It bounds the number of covered addresses from above exactly
      if that number and the excess, less whole wraps, stay below 2^64, and equals it exactly if the excess is a
      number of whole wraps. */
  lemma SizeExactly(s: seq<Range>)
    requires AllOrdered(s)
    ensures var size, n, e := Total(s) % (U64_MAX + 1), |CoveredSet(s)|, Excess(s) % (U64_MAX + 1);
            && 0 <= Excess(s) && (Excess(s) == 0 <==> PairwiseDisjoint(s))
            && (n <= size <==> n + e <= U64_MAX)
            && (n == size <==> e == 0)
  {
    SizeBoundsCoverage(s);
    CoverageFits(s);
    SumModulo(|CoveredSet(s)|, Excess(s));
  }

  lemma SumModulo(n: nat, e: nat)
    requires n <= U64_MAX
    ensures var m := U64_MAX + 1;
            (n + e) % m == if n + e % m < m then n + e % m else n + e % m - m
  {
  }

  /** Without a wrap the size is the sum, with its bound and its equality. */
  lemma SizeWithoutWrap(s: seq<Range>)
    requires AllOrdered(s)
    ensures var size, n := Total(s) % (U64_MAX + 1), |CoveredSet(s)|;
            && (size == Total(s) <==> Total(s) <= U64_MAX)
            && (Total(s) <= U64_MAX ==> n <= size && (n == size <==> PairwiseDisjoint(s)))
  {
    SizeBoundsCoverage(s);
    if Total(s) <= U64_MAX {
      SmallMod(Total(s));
    }
  }

  /** Two overlapping ranges whose size is below the number of covered addresses. */
  lemma SizeMiscounts()
    ensures var s := [Range(0, U64_MAX - 4), Range(3, U64_MAX)];
            AllOrdered(s) && Total(s) % (U64_MAX + 1) == U64_MAX - 8 < |CoveredSet(s)|
  {
    var s := [Range(0, U64_MAX - 4), Range(3, U64_MAX)];
    assert Total(s) == Total(s[1..]) + U64_MAX - 4 && Total(s[1..]) == U64_MAX - 3;
    var most := Interval(0, U64_MAX - 4);
    forall a | a in most
      ensures a in CoveredSet(s)
    {
      assert Covers(s[0], a);
    }
    SubsetSize(most, CoveredSet(s));
  }

  /** The 64-bit sum does not wrap around when no address is covered twice. */
  lemma SizeOfDisjoint(s: seq<Range>)
    requires AllOrdered(s) && PairwiseDisjoint(s)
    ensures Total(s) % (U64_MAX + 1) == |CoveredSet(s)|
  {
    SizeExactly(s);
  }

  lemma CoverageFits(s: seq<Range>)
    ensures |CoveredSet(s)| <= U64_MAX
  {
    var all := Interval(0, U64_MAX);
    forall a | a in CoveredSet(s)
      ensures a in all
    {
      var i :| 0 <= i < |s| && Covers(s[i], a);
    }
    SubsetSize(CoveredSet(s), all);
  }

  lemma SmallMod(x: int)
    requires 0 <= x <= U64_MAX
    ensures x % (U64_MAX + 1) == x
  {
  }

  // ----- ranges_boolean

  /** The gaps that `ranges_boolean` reports, as half-open ranges in the order of the report. */
  function Gaps(s: seq<Range>, from: U64, to: U64): seq<Range> {
    if s == [] then
      if from < to then [Range(from, to)] else []
    else if s[0].from > from && s[0].from < to then
      [Range(from, s[0].from)] + Gaps(s[1..], s[0].to, to)
    else
      Gaps(s[1..], from, to)
  }

  /** The report after the first k ranges: the gaps so far, and the address from which the next gap
      starts. */
  function Scan(s: seq<Range>, from: U64, to: U64, k: nat): (seq<Range>, U64)
    requires k <= |s|
  {
    if k == 0 then ([], from)
    else
      var (gaps, at) := Scan(s, from, to, k - 1);
      var r := s[k - 1];
      if r.from > at && r.from < to then (gaps + [Range(at, r.from)], r.to) else (gaps, at)
  }

  /** The report with its last gap, up to `to`. */
  function Finish(scan: (seq<Range>, U64), to: U64): seq<Range> {
    if scan.1 < to then scan.0 + [Range(scan.1, to)] else scan.0
  }

  lemma {:induction false} ScanIsGaps(s: seq<Range>, from: U64, to: U64, k: nat)
    requires k <= |s|
    ensures Scan(s, from, to, k).0 + Gaps(s[k..], Scan(s, from, to, k).1, to) == Gaps(s, from, to)
  {
    if k == 0 {
      assert s[0..] == s;
    } else {
      ScanIsGaps(s, from, to, k - 1);
      assert s[k - 1..][1..] == s[k..];
    }
  }

  lemma FinishIsGaps(s: seq<Range>, from: U64, to: U64)
    ensures Finish(Scan(s, from, to, |s|), to) == Gaps(s, from, to)
  {
    ScanIsGaps(s, from, to, |s|);
  }

  /** What the report should say about one address. */
  ghost predicate Uncovered(s: seq<Range>, from: int, to: int, a: int) {
    from <= a < to && !Covered(s, a)
  }

  /** The report always starts at `from` itself. */
  lemma {:induction false} GapsStart(s: seq<Range>, from: U64, to: U64)
    requires from < to
    ensures Covered(Gaps(s, from, to), from)
  {
    if s == [] || (s[0].from > from && s[0].from < to) {
      assert Covers(Gaps(s, from, to)[0], from);
    } else {
      GapsStart(s[1..], from, to);
    }
  }

  /** At range i the report of a gap ends: it starts in [from, to), behind all earlier ranges that do. */
  ghost predicate Opens(s: seq<Range>, from: U64, to: U64, i: nat)
    requires i < |s|
  {
    from < s[i].from < to && forall j :: 0 <= j < i && s[j].from < to ==> s[j].to < s[i].from
  }

  /** Range k comes behind range i in the list, and reaches into the gap that ends there. */
  ghost predicate ReachesBack(s: seq<Range>, from: U64, to: U64, i: nat, k: nat)
    requires i < k < |s|
  {
    && s[k].from < s[k].to && s[k].from < s[i].from && from < s[k].to
    && forall j :: 0 <= j < i && s[j].from < to ==> s[j].to < s[k].to
  }

  /** The start is uncovered; wherever a gap ends, so is the end of the range that is skipped; and no later
      range reaches back into the gap. */
  ghost predicate Reportable(s: seq<Range>, from: U64, to: U64) {
    from < to ==>
      && !Covered(s, from)
      && forall i :: 0 <= i < |s| && Opens(s, from, to, i) ==>
           && (s[i].to < to ==> !Covered(s, s[i].to))
           && forall k :: i < k < |s| ==> !ReachesBack(s, from, to, i, k)
  }

  /** Where a gap ends, the next one is reported from the end of the range on. */
  lemma {:induction false} OpensReports(s: seq<Range>, from: U64, to: U64, i: nat)
    requires i < |s| && Opens(s, from, to, i) && s[i].to < to
    ensures Covered(Gaps(s, from, to), s[i].to)
  {
    var r, rest, g := s[0], s[1..], Gaps(s, from, to);
    if r.from > from && r.from < to {
      CoveredCons(g, s[i].to);
      assert g[1..] == Gaps(rest, r.to, to);
      if i == 0 {
        GapsStart(rest, r.to, to);
      } else {
        assert rest[i - 1] == s[i];
        OpensReports(rest, r.to, to, i - 1);
      }
    } else {
      assert rest[i - 1] == s[i];
      OpensReports(rest, from, to, i - 1);
    }
  }

  /** A later range that reaches back is reported in part. */
  lemma {:induction false} BackReports(s: seq<Range>, from: U64, to: U64, i: nat, k: nat) returns (a: int)
    requires i < k < |s| && Opens(s, from, to, i) && ReachesBack(s, from, to, i, k)
    ensures Covered(Gaps(s, from, to), a) && Covers(s[k], a)
  {
    var r, rest, g := s[0], s[1..], Gaps(s, from, to);
    if i == 0 {
      a := if s[k].from < from then from else s[k].from;
      assert Covers(g[0], a);
    } else {
      assert rest[i - 1] == s[i] && rest[k - 1] == s[k];
      if r.from > from && r.from < to {
        a := BackReports(rest, r.to, to, i - 1, k - 1);
        CoveredCons(g, a);
        assert g[1..] == Gaps(rest, r.to, to);
      } else {
        a := BackReports(rest, from, to, i - 1, k - 1);
      }
    }
  }

  /** Behind a range that is skipped the rest is reportable from its end on, otherwise from the same start. */
  lemma ReportableRest(s: seq<Range>, from: U64, to: U64)
    requires s != [] && AllOrdered(s) && Reportable(s, from, to) && from < to
    ensures Reportable(s[1..], if from < s[0].from < to then s[0].to else from, to)
  {
    var r, rest := s[0], s[1..];
    var at := if from < r.from < to then r.to else from;
    assert forall i :: 0 <= i < |rest| ==> rest[i] == s[i + 1];
    assert !Covers(r, from) && (from < r.from < to ==> Opens(s, from, to, 0));
    if at < to {
      CoveredCons(s, at);
      forall i | 0 <= i < |rest| && Opens(rest, at, to, i)
        ensures rest[i].to < to ==> !Covered(rest, rest[i].to)
        ensures forall k :: i < k < |rest| ==> !ReachesBack(rest, at, to, i, k)
      {
        assert Opens(s, from, to, i + 1);
        CoveredCons(s, rest[i].to);
        forall k | i < k < |rest|
          ensures !ReachesBack(rest, at, to, i, k)
        {
          assert !ReachesBack(s, from, to, i + 1, k + 1);
        }
      }
    }
  }

  lemma {:induction false} ReportableIsRight(s: seq<Range>, from: U64, to: U64, a: int)
    requires AllOrdered(s) && Reportable(s, from, to)
    ensures Covered(Gaps(s, from, to), a) <==> Uncovered(s, from, to, a)
  {
    var g := Gaps(s, from, to);
    if from >= to {
      GapsAscend(s, from, to);
      assert forall i :: 0 <= i < |g| ==> g[i] in g;
    } else if s == [] {
      assert g[0] == Range(from, to);
    } else {
      var r, rest := s[0], s[1..];
      CoveredCons(s, a);
      CoveredCons(s, from);
      ReportableRest(s, from, to);
      if from < r.from < to {
        ReportableIsRight(rest, r.to, to, a);
        CoveredCons(g, a);
        assert g[1..] == Gaps(rest, r.to, to);
        if from <= a < r.from && Covered(rest, a) {
          var k :| 0 <= k < |rest| && Covers(rest[k], a);
          assert Opens(s, from, to, 0) && ReachesBack(s, from, to, 0, k + 1);
        }
      } else {
        ReportableIsRight(rest, from, to, a);
      }
    }
  }

  /** The report names exactly the uncovered addresses between `from` and `to`. */
  ghost predicate ReportsUncovered(s: seq<Range>, from: U64, to: U64) {
    forall a :: Covered(Gaps(s, from, to), a) <==> Uncovered(s, from, to, a)
  }

  /** For any list, merged or not and in any order, the report is right if and only if the list is reportable. */
  lemma ReportExactly(s: seq<Range>, from: U64, to: U64)
    requires AllOrdered(s)
    ensures ReportsUncovered(s, from, to) <==> Reportable(s, from, to)
  {
    if Reportable(s, from, to) {
      forall a
        ensures Covered(Gaps(s, from, to), a) <==> Uncovered(s, from, to, a)
      {
        ReportableIsRight(s, from, to, a);
      }
    }
    if ReportsUncovered(s, from, to) && from < to {
      GapsStart(s, from, to);
      assert Uncovered(s, from, to, from);
      forall i | 0 <= i < |s| && Opens(s, from, to, i)
        ensures s[i].to < to ==> !Covered(s, s[i].to)
        ensures forall k :: i < k < |s| ==> !ReachesBack(s, from, to, i, k)
      {
        if s[i].to < to {
          OpensReports(s, from, to, i);
          assert Uncovered(s, from, to, s[i].to);
        }
        forall k | i < k < |s|
          ensures !ReachesBack(s, from, to, i, k)
        {
          if ReachesBack(s, from, to, i, k) {
            var a := BackReports(s, from, to, i, k);
          }
        }
      }
    }
  }

  /** On a sorted list: if and only if the start is uncovered, and so is the end of every range in front of which a
      gap ends. */
  lemma ReportOfSorted(s: seq<Range>, from: U64, to: U64)
    requires AllOrdered(s) && SortedByFrom(s)
    ensures ReportsUncovered(s, from, to) <==>
            (from < to ==>
               && !Covered(s, from)
               && forall i :: 0 <= i < |s| && Opens(s, from, to, i) && s[i].to < to ==> !Covered(s, s[i].to))
  {
    ReportExactly(s, from, to);
    forall i, k | 0 <= i < k < |s|
      ensures !ReachesBack(s, from, to, i, k)
    {
      assert s[i].from <= s[k].from;
    }
  }

  /** On a merged and sorted list: if and only if the start is uncovered (or nothing was asked for). */
  lemma GapsExact(s: seq<Range>, from: U64, to: U64)
    requires AllOrdered(s) && SortedByFrom(s) && Separated(s)
    ensures ReportsUncovered(s, from, to) <==> (to <= from || !Covered(s, from))
  {
    ReportOfSorted(s, from, to);
    forall i | 0 <= i < |s|
      ensures !Covered(s, s[i].to)
    {
      assert forall k :: 0 <= k < |s| && Touch(s[i], s[k]) ==> s[k] == s[i];
    }
  }

  /** The gaps are nonempty, come in ascending order and do not overlap. */
  lemma {:induction false} GapsAscend(s: seq<Range>, from: U64, to: U64)
    requires AllOrdered(s)
    ensures forall g :: g in Gaps(s, from, to) ==> from <= g.from < g.to <= to
    ensures forall i, j :: 0 <= i < j < |Gaps(s, from, to)| ==> Gaps(s, from, to)[i].to <= Gaps(s, from, to)[j].from
  {
    if s != [] {
      if s[0].from > from && s[0].from < to {
        GapsAscend(s[1..], s[0].to, to);
        var rest := Gaps(s[1..], s[0].to, to);
        forall i, j | 0 <= i < j < |Gaps(s, from, to)|
          ensures Gaps(s, from, to)[i].to <= Gaps(s, from, to)[j].from
        {
          assert Gaps(s, from, to)[j] == rest[j - 1];
          assert rest[j - 1] in rest;
          if i > 0 {
            assert Gaps(s, from, to)[i] == rest[i - 1];
          }
        }
      } else {
        GapsAscend(s[1..], from, to);
      }
    }
  }

  /** No uncovered address is missed, on any list. */
  lemma {:induction false} GapsMissNothing(s: seq<Range>, from: U64, to: U64, a: int)
    requires AllOrdered(s) && Uncovered(s, from, to, a)
    ensures Covered(Gaps(s, from, to), a)
  {
    var g := Gaps(s, from, to);
    if s == [] {
      assert Covers(g[0], a);
    } else {
      CoveredCons(s, a);
      if from < s[0].from < to {
        CoveredCons(g, a);
        assert g[1..] == Gaps(s[1..], s[0].to, to);
        if a >= s[0].from {
          GapsMissNothing(s[1..], s[0].to, to, a);
        }
      } else {
        GapsMissNothing(s[1..], from, to, a);
      }
    }
  }

  lemma GapsFill(s: seq<Range>, from: U64, to: U64, inside: set<int>)
    requires AllOrdered(s) && from <= to
    requires forall a :: a in inside <==> from <= a < to && Covered(s, a)
    ensures Interval(from, to) == CoveredSet(Gaps(s, from, to)) + inside
    ensures CoveredSet(Gaps(s, from, to)) * inside == {} <==> ReportsUncovered(s, from, to)
  {
    var g := Gaps(s, from, to);
    GapsAscend(s, from, to);
    assert forall i :: 0 <= i < |g| ==> g[i] in g;
    forall a
      ensures Uncovered(s, from, to, a) ==> Covered(g, a)
    {
      if Uncovered(s, from, to, a) {
        GapsMissNothing(s, from, to, a);
      }
    }
    assert forall a :: Covered(g, a) <==> a in CoveredSet(g);
    assert forall a :: Covered(g, a) ==> from <= a < to;
    if CoveredSet(g) * inside == {} {
      forall a
        ensures Covered(g, a) ==> Uncovered(s, from, to, a)
      {
        assert a !in CoveredSet(g) * inside;
      }
    }
  }

  /** The total that `ranges_boolean` prints and the number of covered addresses add up to the
      number of addresses asked about, if and only if the list is reportable. */
  lemma GapsTotal(s: seq<Range>, from: U64, to: U64)
    requires AllOrdered(s) && from <= to
    ensures Total(Gaps(s, from, to)) + |set a: int | from <= a < to && Covered(s, a)| == to - from
            <==> Reportable(s, from, to)
  {
    var g := Gaps(s, from, to);
    var inside := set a: int | from <= a < to && Covered(s, a);
    assert PairwiseDisjoint(g) && AllOrdered(g) by {
      GapsAscend(s, from, to);
      assert forall i :: 0 <= i < |g| ==> g[i] in g;
    }
    SizeBoundsCoverage(g);
    GapsFill(s, from, to, inside);
    UnionSize(CoveredSet(g), inside);
    ReportExactly(s, from, to);
  }

  /** A report that starts inside a range names covered addresses. */
  lemma GapsMisreport()
    ensures var s := [Range(0, 10)];
            AllOrdered(s) && SortedByFrom(s) && Separated(s) && Covered(Gaps(s, 5, 20), 5) && Covered(s, 5)
  {
    var s := [Range(0, 10)];
    GapsStart(s, 5, 20);
    assert Covers(s[0], 5);
  }

  /** A sorted list that was not merged: address 16 is reported and covered, although the start is not. */
  lemma UnmergedMisreport()
    ensures var s := [Range(1, 16), Range(2, 20)];
            AllOrdered(s) && SortedByFrom(s) && !Covered(s, 0) && Covered(Gaps(s, 0, 40), 16) && Covered(s, 16)
  {
    var s := [Range(1, 16), Range(2, 20)];
    OpensReports(s, 0, 40, 0);
    assert Covers(s[1], 16);
  }

  /** A list that was not sorted: address 2 is reported and covered. */
  lemma UnsortedMisreport()
    ensures var s := [Range(25, 30), Range(2, 25)];
            AllOrdered(s) && !Covered(s, 0) && Covered(Gaps(s, 0, 40), 2) && Covered(s, 2)
  {
    var s := [Range(25, 30), Range(2, 25)];
    assert Covers(Gaps(s, 0, 40)[0], 2) && Covers(s[1], 2);
  }
}
