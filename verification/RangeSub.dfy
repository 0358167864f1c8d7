/** `ranges_sub` of src/ranges.c as a function on the list of ranges, with what it does and does
    not take away.
 */
module RangeSub {
  import opened Machine
  import opened Lists
  import opened Ranges

  /** "update to": the range sticks out in front of [from, to). */
  predicate CutsTail(r: Range, from: U64, to: U64) {
    r.from < from && r.from < to && r.to > from && r.to < to
  }

  /** "update from": the range sticks out behind [from, to). */
  predicate CutsHead(r: Range, from: U64, to: U64) {
    r.from > from && r.from < to && r.to > from && r.to > to
  }

  /** "delete": the range lies strictly inside. */
  predicate Inside(r: Range, from: U64, to: U64) {
    r.from > from && r.from < to && r.to > from && r.to < to
  }

  /** "split": the range sticks out on both sides. */
  predicate Straddles(r: Range, from: U64, to: U64) {
    r.from < from && r.from < to && r.to > from && r.to > to
  }

  ghost function Straddlers(s: seq<Range>, from: U64, to: U64): set<nat> {
    set i | 0 <= i < |s| && Straddles(s[i], from, to)
  }

  /** The list after the "split" case for position k: the range is cut at `from`, and then the range
      from `to` to the cut end, which has become `from`, is added. */
  function Split(s: seq<Range>, k: nat, from: U64, to: U64): (t: seq<Range>)
    requires k < |s|
    ensures |t| == |s|
  {
    ExtendAll(s[k := s[k].(to := from)], Abs(to, from))
  }

  lemma SplitFewerStraddlers(s: seq<Range>, k: nat, from: U64, to: U64)
    requires k < |s| && from <= to && Straddles(s[k], from, to)
    ensures Straddlers(Split(s, k, from, to), from, to) < Straddlers(s, from, to)
  {
    assert k in Straddlers(s, from, to);
    assert k !in Straddlers(Split(s, k, from, to), from, to);
  }

  lemma TrimKeepsStraddlers(s: seq<Range>, k: nat, r: Range, from: U64, to: U64)
    requires k < |s| && !Straddles(s[k], from, to) && !Straddles(r, from, to)
    ensures Straddlers(s[k := r], from, to) == Straddlers(s, from, to)
  {
  }

  /** The walk of `ranges_sub` from position k on; deleting and splitting restart it. */
  ghost function SubFrom(s: seq<Range>, k: nat, from: U64, to: U64): seq<Range>
    requires k <= |s| && from <= to
    decreases |s|, Straddlers(s, from, to), |s| - k
  {
    if k == |s| then s
    else if CutsTail(s[k], from, to) then
      TrimKeepsStraddlers(s, k, s[k].(to := from), from, to);
      SubFrom(s[k := s[k].(to := from)], k + 1, from, to)
    else if CutsHead(s[k], from, to) then
      TrimKeepsStraddlers(s, k, s[k].(from := to), from, to);
      SubFrom(s[k := s[k].(from := to)], k + 1, from, to)
    else if Inside(s[k], from, to) then
      SubFrom(Delete(s, k), 0, from, to)
    else if Straddles(s[k], from, to) then
      SplitFewerStraddlers(s, k, from, to);
      SubFrom(Split(s, k, from, to), 0, from, to)
    else
      SubFrom(s, k + 1, from, to)
  }

  /** The list after `ranges_sub`. */
  ghost function Sub(s: seq<Range>, from: U64, to: U64): seq<Range> {
    var n := Abs(from, to);
    SubFrom(s, 0, n.from, n.to)
  }

  /** The split case never appends: the cut range itself touches what is added. */
  lemma SplitIsAdd(s: seq<Range>, k: nat, from: U64, to: U64)
    requires k < |s| && from <= to && Straddles(s[k], from, to)
    ensures Split(s, k, from, to) == Add(s[k := s[k].(to := from)], to, from, true)
  {
    var cut := s[k := s[k].(to := from)];
    assert Extend(cut[k], from, to).1;
    assert Hit(cut, Abs(to, from));
  }

  // ----- what the result covers

  ghost predicate Within(t: seq<Range>, s: seq<Range>) {
    forall a :: Covered(t, a) ==> Covered(s, a)
  }

  lemma CoveredAfterUpdate(s: seq<Range>, k: nat, r: Range, a: int)
    requires k < |s| && Covered(s[k := r], a)
    ensures Covers(r, a) || Covered(s, a)
  {
    var i :| 0 <= i < |s| && Covers(s[k := r][i], a);
    if i != k {
      assert Covers(s[i], a);
    }
  }

  lemma SplitWithin(s: seq<Range>, k: nat, from: U64, to: U64)
    requires k < |s| && from <= to && Straddles(s[k], from, to) && AllOrdered(s)
    ensures AllOrdered(Split(s, k, from, to)) && Within(Split(s, k, from, to), s)
  {
    var cut := s[k := s[k].(to := from)];
    SplitIsAdd(s, k, from, to);
    AddKeepsOrdered(cut, to, from, true);
    forall a | Covered(Split(s, k, from, to), a)
      ensures Covered(s, a)
    {
      AddCovers(cut, to, from, a);
      if Covered(cut, a) {
        CoveredAfterUpdate(s, k, cut[k], a);
      }
      assert Covers(cut[k], a) || Covers(Range(from, to), a) ==> Covers(s[k], a);
    }
  }

  lemma TrimWithin(s: seq<Range>, k: nat, r: Range)
    requires k < |s| && Includes(s[k], r)
    ensures Within(s[k := r], s)
  {
    forall a | Covered(s[k := r], a)
      ensures Covered(s, a)
    {
      CoveredAfterUpdate(s, k, r, a);
      assert Covers(r, a) ==> Covers(s[k], a);
    }
  }

  lemma DeleteWithin(s: seq<Range>, k: nat)
    requires k < |s|
    ensures Within(Delete(s, k), s)
  {
    forall a | Covered(Delete(s, k), a)
      ensures Covered(s, a)
    {
      var i :| 0 <= i < |s| - 1 && Covers(Delete(s, k)[i], a);
      assert Covers(s[if i < k then i else i + 1], a);
    }
  }

  /** Subtracting never covers an address that was not covered before. */
  lemma {:induction false} SubFromWithin(s: seq<Range>, k: nat, from: U64, to: U64)
    requires k <= |s| && from <= to && AllOrdered(s)
    ensures AllOrdered(SubFrom(s, k, from, to)) && Within(SubFrom(s, k, from, to), s)
    decreases |s|, Straddlers(s, from, to), |s| - k
  {
    if k == |s| {
    } else if CutsTail(s[k], from, to) {
      var r := s[k].(to := from);
      TrimKeepsStraddlers(s, k, r, from, to);
      TrimWithin(s, k, r);
      SubFromWithin(s[k := r], k + 1, from, to);
    } else if CutsHead(s[k], from, to) {
      var r := s[k].(from := to);
      TrimKeepsStraddlers(s, k, r, from, to);
      TrimWithin(s, k, r);
      SubFromWithin(s[k := r], k + 1, from, to);
    } else if Inside(s[k], from, to) {
      DeleteWithin(s, k);
      SubFromWithin(Delete(s, k), 0, from, to);
    } else if Straddles(s[k], from, to) {
      SplitFewerStraddlers(s, k, from, to);
      SplitWithin(s, k, from, to);
      SubFromWithin(Split(s, k, from, to), 0, from, to);
    } else {
      SubFromWithin(s, k + 1, from, to);
    }
  }

  /** None of the four cases applies any more. */
  predicate Untouched(r: Range, from: U64, to: U64) {
    !CutsTail(r, from, to) && !CutsHead(r, from, to) && !Inside(r, from, to) && !Straddles(r, from, to)
  }

  lemma {:induction false} SubFromDone(s: seq<Range>, k: nat, from: U64, to: U64)
    requires k <= |s| && from <= to
    requires forall i :: 0 <= i < k ==> Untouched(s[i], from, to)
    ensures forall r :: r in SubFrom(s, k, from, to) ==> Untouched(r, from, to)
    decreases |s|, Straddlers(s, from, to), |s| - k
  {
    if k == |s| {
    } else if CutsTail(s[k], from, to) {
      TrimKeepsStraddlers(s, k, s[k].(to := from), from, to);
      SubFromDone(s[k := s[k].(to := from)], k + 1, from, to);
    } else if CutsHead(s[k], from, to) {
      TrimKeepsStraddlers(s, k, s[k].(from := to), from, to);
      SubFromDone(s[k := s[k].(from := to)], k + 1, from, to);
    } else if Inside(s[k], from, to) {
      SubFromDone(Delete(s, k), 0, from, to);
    } else if Straddles(s[k], from, to) {
      SplitFewerStraddlers(s, k, from, to);
      SubFromDone(Split(s, k, from, to), 0, from, to);
    } else {
      SubFromDone(s, k + 1, from, to);
    }
  }

  /** A range that the code does not subtract from correctly: it reaches into [from, to) and starts
      at `from`, ends at `to`, or sticks out on both sides. */
  predicate Resists(r: Range, from: U64, to: U64) {
    && r.from < to && r.to > from && r.from < r.to
    && (r.from == from || r.to == to || Straddles(r, from, to))
  }

  ghost predicate SomeResists(s: seq<Range>, from: U64, to: U64) {
    exists i :: 0 <= i < |s| && Resists(s[i], from, to)
  }

  lemma SplitResists(s: seq<Range>, k: nat, from: U64, to: U64)
    requires k < |s| && from < to && Straddles(s[k], from, to)
    ensures SomeResists(Split(s, k, from, to), from, to)
  {
    assert Resists(Split(s, k, from, to)[k], from, to);
  }

  /** A resisting range is still there in the end, in one form or another. */
  lemma {:induction false} ResistanceStays(s: seq<Range>, k: nat, from: U64, to: U64)
    requires k <= |s| && from < to && SomeResists(s, from, to)
    ensures SomeResists(SubFrom(s, k, from, to), from, to)
    decreases |s|, Straddlers(s, from, to), |s| - k
  {
    var i :| 0 <= i < |s| && Resists(s[i], from, to);
    if k == |s| {
    } else if CutsTail(s[k], from, to) {
      var t := s[k := s[k].(to := from)];
      TrimKeepsStraddlers(s, k, t[k], from, to);
      assert Resists(t[i], from, to);
      ResistanceStays(t, k + 1, from, to);
    } else if CutsHead(s[k], from, to) {
      var t := s[k := s[k].(from := to)];
      TrimKeepsStraddlers(s, k, t[k], from, to);
      assert Resists(t[i], from, to);
      ResistanceStays(t, k + 1, from, to);
    } else if Inside(s[k], from, to) {
      assert Resists(Delete(s, k)[if i < k then i else i - 1], from, to);
      ResistanceStays(Delete(s, k), 0, from, to);
    } else if Straddles(s[k], from, to) {
      SplitFewerStraddlers(s, k, from, to);
      SplitResists(s, k, from, to);
      ResistanceStays(Split(s, k, from, to), 0, from, to);
    } else {
      ResistanceStays(s, k + 1, from, to);
    }
  }

  /** Without resisting ranges nothing outside [from, to) is lost and none appears. */
  lemma {:induction false} SubFromKeepsOutside(s: seq<Range>, k: nat, from: U64, to: U64, a: int)
    requires k <= |s| && from <= to && AllOrdered(s) && !SomeResists(s, from, to)
    ensures !SomeResists(SubFrom(s, k, from, to), from, to)
    ensures Covered(s, a) && !(from <= a < to) ==> Covered(SubFrom(s, k, from, to), a)
    decreases |s|, Straddlers(s, from, to), |s| - k
  {
    if k == |s| {
    } else if CutsTail(s[k], from, to) {
      var t := s[k := s[k].(to := from)];
      TrimKeepsStraddlers(s, k, t[k], from, to);
      TrimKeepsOutside(s, k, t[k], from, to, a);
      SubFromKeepsOutside(t, k + 1, from, to, a);
    } else if CutsHead(s[k], from, to) {
      var t := s[k := s[k].(from := to)];
      TrimKeepsStraddlers(s, k, t[k], from, to);
      TrimKeepsOutside(s, k, t[k], from, to, a);
      SubFromKeepsOutside(t, k + 1, from, to, a);
    } else if Inside(s[k], from, to) {
      DeleteKeepsOutside(s, k, from, to, a);
      SubFromKeepsOutside(Delete(s, k), 0, from, to, a);
    } else if Straddles(s[k], from, to) {
      assert false;
    } else {
      SubFromKeepsOutside(s, k + 1, from, to, a);
    }
  }

  lemma TrimKeepsOutside(s: seq<Range>, k: nat, r: Range, from: U64, to: U64, a: int)
    requires k < |s| && from <= to && !SomeResists(s, from, to)
    requires || (CutsTail(s[k], from, to) && r == s[k].(to := from))
             || (CutsHead(s[k], from, to) && r == s[k].(from := to))
    ensures !SomeResists(s[k := r], from, to)
    ensures Covered(s, a) && !(from <= a < to) ==> Covered(s[k := r], a)
  {
    assert forall i :: 0 <= i < |s| ==> !Resists(s[i], from, to);
    if Covered(s, a) && !(from <= a < to) {
      var i :| 0 <= i < |s| && Covers(s[i], a);
      assert Covers(s[k := r][i], a);
    }
  }

  lemma DeleteKeepsOutside(s: seq<Range>, k: nat, from: U64, to: U64, a: int)
    requires k < |s| && !SomeResists(s, from, to) && Inside(s[k], from, to)
    ensures !SomeResists(Delete(s, k), from, to)
    ensures Covered(s, a) && !(from <= a < to) ==> Covered(Delete(s, k), a)
  {
    assert forall i :: 0 <= i < |s| ==> !Resists(s[i], from, to);
    if Covered(s, a) && !(from <= a < to) {
      var i :| 0 <= i < |s| && Covers(s[i], a);
      assert Covers(Delete(s, k)[if i < k then i else i - 1], a);
    }
  }

  /** The list covers exactly what it should after subtracting [from, to). */
  ghost predicate Subtracted(s: seq<Range>, t: seq<Range>, from: U64, to: U64) {
    forall a :: Covered(t, a) <==> Covered(s, a) && !(from <= a < to)
  }

  /** `ranges_sub` subtracts a nonempty [from, to) exactly if and only if no stored range resists. */
  lemma SubExact(s: seq<Range>, from: U64, to: U64)
    requires AllOrdered(s) && from < to
    ensures Subtracted(s, Sub(s, from, to), from, to) <==> !SomeResists(s, from, to)
  {
    var t := Sub(s, from, to);
    SubFromWithin(s, 0, from, to);
    SubFromDone(s, 0, from, to);
    if SomeResists(s, from, to) {
      ResistanceStays(s, 0, from, to);
      var i :| 0 <= i < |t| && Resists(t[i], from, to);
      assert t[i] in t;
      var a := if t[i].from == from then from else to - 1;
      assert from <= a < to && Covers(t[i], a);
      assert Covered(t, a);
    } else {
      forall a
        ensures Covered(t, a) <==> Covered(s, a) && !(from <= a < to)
      {
        SubFromKeepsOutside(s, 0, from, to, a);
        if Covered(t, a) {
          var i :| 0 <= i < |t| && Covers(t[i], a);
          assert t[i] in t && !Resists(t[i], from, to);
        }
      }
    }
  }

  lemma {:induction false} SubPointFrom(s: seq<Range>, k: nat, p: U64, a: int)
    requires k <= |s| && AllOrdered(s)
    requires forall i :: 0 <= i < k ==> !Straddles(s[i], p, p)
    ensures Covered(SubFrom(s, k, p, p), a) <==>
            exists i :: 0 <= i < |s| && Covers(s[i], a) && (a < p || !Straddles(s[i], p, p))
    decreases |s|, Straddlers(s, p, p), |s| - k
  {
    if k == |s| {
    } else if Straddles(s[k], p, p) {
      SplitFewerStraddlers(s, k, p, p);
      var t := Split(s, k, p, p);
      forall i | 0 <= i < |s|
        ensures Ordered(t[i])
        ensures Covers(t[i], a) && (a < p || !Straddles(t[i], p, p))
           <==> Covers(s[i], a) && (a < p || !Straddles(s[i], p, p))
      {
        ExtendIsHull(s[k := s[k].(to := p)][i], Range(p, p));
      }
      SubPointFrom(t, 0, p, a);
    } else {
      SubPointFrom(s, k + 1, p, a);
    }
  }

  /** Subtracting the empty [p, p) is not without effect: it cuts off the tail of every range that
      strictly contains p.  Addresses from p on stay covered only by the other ranges. */
  lemma SubPoint(s: seq<Range>, p: U64, a: int)
    requires AllOrdered(s)
    ensures Covered(Sub(s, p, p), a) <==>
            exists i :: 0 <= i < |s| && Covers(s[i], a) && (a < p || !Straddles(s[i], p, p))
  {
    SubPointFrom(s, 0, p, a);
  }

  /** Subtracting can leave a sorted list unsorted without deleting any range, so that the sort is
      not told about it: see RangeOrder.SubLosesOrder. */
  lemma SubUnsorts()
    ensures var s := [Range(2, 30), Range(2, 25)];
            SortedByFrom(s) && Sub(s, 1, 25) == [Range(25, 30), Range(2, 25)]
  {
    var s := [Range(2, 30), Range(2, 25)];
    var t := s[0 := Range(25, 30)];
    TrimKeepsStraddlers(s, 0, Range(25, 30), 1, 25);
    assert SubFrom(t, 2, 1, 25) == t;
    assert SubFrom(t, 1, 1, 25) == SubFrom(t, 2, 1, 25);
    assert SubFrom(s, 0, 1, 25) == SubFrom(t, 1, 1, 25);
  }

  /** A range with the same start is not subtracted from. */
  lemma SubMisses()
    ensures var s := [Range(10, 30)];
            Sub(s, 10, 20) == s && !Subtracted(s, Sub(s, 10, 20), 10, 20)
  {
    var s := [Range(10, 30)];
    assert SubFrom(s, 1, 10, 20) == s;
    assert SubFrom(s, 0, 10, 20) == s;
    assert Covers(s[0], 15) && Covered(s, 15);
  }
}
