/** The global range list of src/ranges.c with its `ranges_changed` flag, proved against the
    functions of Ranges.dfy, RangeGaps.dfy and RangeSub.dfy.
 */
module RangeSet {
  import opened Machine
  import opened Lists
  import opened ListSort
  import opened Ranges
  import opened RangeGaps
  import opened RangeSub
  import RangeRuns

  class RangeList {
    const head: ListHead<Range>
    var changed: bool
    ghost var ring: seq<ListHead<Range>>

    ghost predicate Valid()
      reads this, ring
    {
      Ring(ring) && ring[0] == head && AllOrdered(Entries(ring))
    }

    /** The ranges in list order. */
    ghost function Model(): seq<Range>
      requires Valid()
      reads this, ring
    {
      Entries(ring)
    }

    /** A clear flag means that there is nothing to sort. */
    ghost predicate Quiet()
      requires Valid()
      reads this, ring
    {
      !changed ==> SortedByFrom(Model())
    }

    /** The list and the flag, as RangeRuns describes what the commands do to them. */
    ghost function Now(): RangeRuns.State
      requires Valid()
      reads this, ring
    {
      RangeRuns.State(Model(), changed)
    }

    /** `ranges_init`. */
    constructor ()
      ensures Valid() && fresh(ring) && Now() == RangeRuns.State([], false)
    {
      var h := new ListHead<Range>(Range(0, 0));
      head := h;
      changed := false;
      ring := [h];
    }

    /** `ranges_get`: the first range that contains the address. */
    method Get(addr: U64) returns (r: ListHead?<Range>)
      requires Valid()
      ensures r == null <==> !Covered(Model(), addr)
      ensures r != null ==> exists i :: 1 <= i < |ring| && r == ring[i] &&
                                        Covers(r.entry, addr) && !Covered(Model()[..i - 1], addr)
    {
      r := head.next;
      ghost var k := 1;
      assert r == After(ring, 0);
      while r != head
        invariant 1 <= k <= |ring| && r == At(ring, k)
        invariant !Covered(Model()[..k - 1], addr)
        decreases |ring| - k
      {
        assert ring[k].entry == Model()[k - 1];
        if addr >= r.entry.from && addr < r.entry.to {
          assert Covers(Model()[k - 1], addr);
          return;
        }
        assert ring[k].next == After(ring, k);
        r := r.next;
        k := k + 1;
      }
      assert Model()[..k - 1] == Model();
      r := null;
    }

    /** `ranges_size`: the sum of the lengths in 64-bit arithmetic. */
    method Size() returns (sum: U64)
      requires Valid()
      ensures sum == Total(Model()) % (U64_MAX + 1)
    {
      sum := 0;
      var pos := head.next;
      ghost var k := 1;
      assert pos == After(ring, 0);
      while pos != head
        invariant 1 <= k <= |ring| && pos == At(ring, k)
        invariant sum == Total(Model()[..k - 1]) % (U64_MAX + 1)
        decreases |ring| - k
      {
        assert ring[k].entry == Model()[k - 1];
        TotalStep(Model(), k - 1, sum);
        sum := (sum + (pos.entry.to - pos.entry.from)) % (U64_MAX + 1);
        assert ring[k].next == After(ring, k);
        pos := pos.next;
        k := k + 1;
      }
      assert Model()[..k - 1] == Model();
    }

    /** The case distinction in the loop of `ranges_add`, for the range at position k. */
    method ExtendEntry(pos: ListHead<Range>, from: U64, to: U64, ghost k: nat)
      returns (hit: bool, next: ListHead<Range>)
      requires Ring(ring) && k + 1 < |ring| && ring[k + 1] == pos
      modifies pos`entry
      ensures Ring(ring) && next == At(ring, k + 2) && hit == Extend(old(Entries(ring))[k], from, to).1
      ensures Entries(ring) == old(Entries(ring))[k := Extend(old(Entries(ring))[k], from, to).0]
    {
      ghost var s := Entries(ring);
      var r := pos.entry;
      hit := true;
      if r.from == from && r.to == to {
      } else if r.from <= from && r.from <= to && r.to >= from && r.to <= to {
        pos.entry := r.(to := to);
      } else if r.from >= from && r.from <= to && r.to >= from && r.to >= to {
        pos.entry := r.(from := from);
      } else if r.from <= from && r.from <= to && r.to >= from && r.to >= to {
      } else if r.from >= from && r.from <= to && r.to >= from && r.to <= to {
        pos.entry := Range(from, to);
      } else {
        hit := false;
      }
      assert Entries(ring) == s[k := Extend(s[k], from, to).0];
      assert ring[k + 1].next == After(ring, k + 1);
      next := pos.next;
    }

    /** The loop of `ranges_add`. */
    method ExtendEach(from: U64, to: U64) returns (add: bool)
      requires Valid() && from <= to
      modifies (set x | x in ring)`entry
      ensures Ring(ring) && Entries(ring) == ExtendAll(old(Model()), Range(from, to))
      ensures add <==> !Hit(old(Model()), Range(from, to))
    {
      ghost var s, n := Model(), Range(from, to);
      add := true;
      var pos: ListHead<Range> := head.next;
      ghost var k := 0;
      assert pos == After(ring, 0);
      while pos != head
        invariant Ring(ring) && k <= |s| && pos == At(ring, k + 1)
        invariant Entries(ring) == ExtendFirst(s, n, k)
        invariant add == !HitFirst(s, n, k)
        decreases |s| - k
      {
        assert pos == ring[k + 1];
        var hit;
        hit, pos := ExtendEntry(pos, from, to, k);
        add := add && !hit;
        k := k + 1;
      }
      ExtendFirstAll(s, n);
    }

    /** `list_add_tail` of a new range. */
    method Append(from: U64, to: U64)
      requires Ring(ring) && ring[0] == head
      modifies this`changed, this`ring, (set x | x in ring)`next, (set x | x in ring)`prev
      ensures Ring(ring) && ring[0] == head && Entries(ring) == old(Entries(ring)) + [Range(from, to)]
      ensures changed && forall x :: x in ring ==> x in old(ring) || fresh(x)
    {
      ghost var s := Entries(ring);
      var node := new ListHead<Range>(Range(from, to));
      ListAddTail(node, head, ring, 0);
      ring := Insert(ring, |ring|, node);
      changed := true;
      assert Entries(ring) == s + [Range(from, to)];
    }

    /** `ranges_add`: extend every range that [from, to) touches, and append a new range if there
        was none and rw is set. */
    method Add(from0: U64, to0: U64, rw: bool)
      requires Valid()
      modifies this`changed, this`ring, ring
      ensures Valid() && Model() == Ranges.Add(old(Model()), from0, to0, rw)
      ensures RangeRuns.Step(old(Now()), RangeRuns.DoAdd(from0, to0, rw), Now())
      ensures changed == (old(changed) || (rw && !Hit(old(Model()), Abs(from0, to0))))
      ensures old(Quiet()) ==> Quiet()
      ensures forall x :: x in ring ==> x in old(ring) || fresh(x)
      ensures |Model()| == |old(Model())| ==> ring == old(ring)
    {
      var from, to := Abs(from0, to0).from, Abs(from0, to0).to;
      ghost var n, s := Range(from, to), Model();
      AddKeepsOrdered(s, from0, to0, rw);
      var add := ExtendEach(from, to);
      if rw && add {
        Append(from, to);
      } else {
        assert ExtendAll(s, n) + [] == ExtendAll(s, n);
      }
      if SortedByFrom(s) {
        ExtendAllKeepsSorted(s, n);
      }
    }

    /** The loop body of `ranges_merge` for the range at position k. */
    method MergeEntry(pos: ListHead<Range>, ghost k: nat) returns (next: ListHead<Range>)
      requires Valid() && k < |Model()| && ring[k + 1] == pos
      modifies this`changed, this`ring, ring
      ensures Valid() && ring == old(ring) && changed == old(changed) && next == At(ring, k + 2)
      ensures |Model()| == |old(Model())| && MergeFrom(Model(), k + 1) == MergeFrom(old(Model()), k)
    {
      var r := pos.entry;
      ghost var s := Model();
      assert r == s[k] && Abs(r.from, r.to) == r;
      Add(r.from, r.to, false);
      assert Model() == ExtendAll(s, r);
      assert ring[k + 1].next == After(ring, k + 1);
      next := pos.next;
    }

    /** `ranges_merge` on the global list: add every range, with the value it has when its turn
        comes, to all ranges. */
    method Merge()
      requires Valid()
      modifies this`changed, this`ring, ring
      ensures Valid() && Model() == Ranges.Merge(old(Model()))
      ensures RangeRuns.Step(old(Now()), RangeRuns.DoMerge, Now())
      ensures changed == old(changed) && ring == old(ring)
      ensures old(Quiet()) ==> Quiet()
    {
      var pos := head.next;
      ghost var k := 0;
      assert pos == After(ring, 0);
      while pos != head
        invariant Valid() && ring == old(ring) && changed == old(changed)
        invariant k <= |Model()| && pos == At(ring, k + 1)
        invariant MergeFrom(Model(), k) == Ranges.Merge(old(Model()))
        decreases |ring| - k
      {
        pos := MergeEntry(pos, k);
        k := k + 1;
      }
      if old(Quiet()) && !old(changed) {
        MergeFromKeepsSorted(old(Model()), 0);
      }
    }

    /** `ranges_sort`. */
    method Sort() returns (moved: bool)
      requires Valid()
      modifies this`changed, this`ring, ring
      ensures Valid() && multiset(Model()) == multiset(old(Model()))
      ensures old(Quiet()) ==> SortedByFrom(Model())
      ensures old(changed) ==> SortedByFrom(Model()) && changed == moved == FromsDiffer(Model())
      ensures !old(changed) ==> Model() == old(Model()) && changed == false == moved
      ensures multiset(ring) == multiset(old(ring))
      ensures RangeRuns.Step(old(Now()), RangeRuns.DoSort, Now())
    {
      if !changed {
        return false;
      }
      var key := (r: Range) => r.from;
      ghost var out;
      FromsOfNodes(ring, key);
      moved, out := SortByKey(head, key, ring);
      SameElements(Entries(out), old(Model()));
      ring := out;
      changed := moved;
    }

    /** Assign to the fields of the stored range at position k. */
    method Update(pos: ListHead<Range>, r: Range, ghost k: nat)
      requires Valid() && k < |Model()| && ring[k + 1] == pos && Ordered(r)
      modifies pos`entry
      ensures Valid() && Model() == old(Model())[k := r]
    {
      ghost var s := Model();
      pos.entry := r;
      assert Entries(ring) == s[k := r];
    }

    /** `list_del` on the stored range at position k. */
    method Drop(pos: ListHead<Range>, ghost k: nat)
      requires Valid() && k < |Model()| && ring[k + 1] == pos
      modifies this`ring, this`changed, ring
      ensures Valid() && Model() == Delete(old(Model()), k) && changed
      ensures forall i :: 0 <= i < |ring| ==> ring[i] in old(ring)
    {
      ghost var s := Model();
      ListDel(pos, ring, k + 1);
      ring := Delete(ring, k + 1);
      changed := true;
      assert Entries(ring) == Delete(s, k);
    }

    /** The loop body of `ranges_sub` for the range at position k; `again` is `goto __reloop`. */
    method SubEntry(pos: ListHead<Range>, from: U64, to: U64, ghost k: nat) returns (again: bool)
      requires Valid() && k < |Model()| && ring[k + 1] == pos && from <= to
      modifies this`changed, this`ring, ring
      ensures Valid() && forall i :: 0 <= i < |ring| ==> ring[i] in old(ring)
      ensures |Model()| <= |old(Model())| && changed == (old(changed) || |Model()| < |old(Model())|)
      ensures again ==> SubFrom(Model(), 0, from, to) == SubFrom(old(Model()), k, from, to)
      ensures again && |Model()| == |old(Model())| ==>
                Straddlers(Model(), from, to) < Straddlers(old(Model()), from, to)
      ensures !again ==> |Model()| == |old(Model())|
      ensures !again ==> SubFrom(Model(), k + 1, from, to) == SubFrom(old(Model()), k, from, to)
      ensures !again ==> ring == old(ring) && Straddlers(Model(), from, to) == Straddlers(old(Model()), from, to)
    {
      ghost var s := Model();
      var r := pos.entry;
      assert r == s[k] && pos in ring;
      if r.from < from && r.from < to && r.to > from && r.to < to {
        TrimKeepsStraddlers(s, k, r.(to := from), from, to);
        Update(pos, r.(to := from), k);
      } else if r.from > from && r.from < to && r.to > from && r.to > to {
        TrimKeepsStraddlers(s, k, r.(from := to), from, to);
        Update(pos, r.(from := to), k);
      }
      r := pos.entry;
      assert r == Model()[k];
      if r.from > from && r.from < to && r.to > from && r.to < to {
        Drop(pos, k);
        return true;
      }
      if r.from < from && r.from < to && r.to > from && r.to > to {
        SplitFewerStraddlers(s, k, from, to);
        SplitIsAdd(s, k, from, to);
        Update(pos, r.(to := from), k);
        assert pos.entry == Model()[k];
        Add(to, pos.entry.to, true);
        return true;
      }
      again := false;
    }

    /** One round of the loop of `ranges_sub`, which goes on with the next range or from the start. */
    method SubRound(pos: ListHead<Range>, from: U64, to: U64, ghost k: nat)
      returns (next: ListHead<Range>, ghost k': nat)
      requires Valid() && k < |Model()| && ring[k + 1] == pos && from <= to
      modifies this`changed, this`ring, ring
      ensures Valid() && forall i :: 0 <= i < |ring| ==> ring[i] in old(ring)
      ensures k' <= |Model()| && next == At(ring, k' + 1)
      ensures SubFrom(Model(), k', from, to) == SubFrom(old(Model()), k, from, to)
      ensures |Model()| <= |old(Model())| && changed == (old(changed) || |Model()| < |old(Model())|)
      ensures |Model()| == |old(Model())| ==>
                || Straddlers(Model(), from, to) < Straddlers(old(Model()), from, to)
                || (Straddlers(Model(), from, to) == Straddlers(old(Model()), from, to) && k < k')
    {
      var again := SubEntry(pos, from, to, k);
      if again {
        next, k' := head.next, 0;
        assert next == After(ring, 0);
      } else {
        assert ring[k + 1].next == After(ring, k + 1);
        next, k' := pos.next, k + 1;
      }
    }

    /** `ranges_sub`.  The flag is raised only when a range was deleted, so a quiet list may come
        out unsorted: see RangeOrder.SubLosesOrder. */
    method Sub(from0: U64, to0: U64)
      requires Valid()
      modifies this`changed, this`ring, ring
      ensures Valid() && Model() == RangeSub.Sub(old(Model()), from0, to0)
      ensures RangeRuns.Step(old(Now()), RangeRuns.DoSub(from0, to0), Now())
      ensures changed == (old(changed) || |Model()| < |old(Model())|)
    {
      var from, to := Abs(from0, to0).from, Abs(from0, to0).to;
      var pos := head.next;
      ghost var k: nat := 0;
      assert pos == After(ring, 0);
      while pos != head
        invariant Valid() && k <= |Model()| && pos == At(ring, k + 1)
        invariant SubFrom(Model(), k, from, to) == RangeSub.Sub(old(Model()), from0, to0)
        invariant |Model()| <= |old(Model())| && changed == (old(changed) || |Model()| < |old(Model())|)
        invariant forall i :: 0 <= i < |ring| ==> ring[i] in old(ring)
        decreases |Model()|, Straddlers(Model(), from, to), |Model()| - k
      {
        ghost var before := ring;
        pos, k := SubRound(pos, from, to, k);
        assert forall i :: 0 <= i < |ring| ==> ring[i] in before;
      }
    }

    /** The loop of `ranges_boolean` over the sorted list. */
    method ReportGaps(from0: U64, to: U64) returns (gaps: seq<Range>, total: U64)
      requires Valid()
      ensures gaps == Gaps(Model(), from0, to) && total == Total(gaps)
    {
      ghost var s := Model();
      var from: U64 := from0;
      gaps, total := [], 0;
      var pos := head.next;
      ghost var k := 0;
      assert pos == After(ring, 0);
      while pos != head
        invariant k <= |s| && pos == At(ring, k + 1)
        invariant (gaps, from) == Scan(s, from0, to, k)
        invariant total == Total(gaps) <= from
        decreases |s| - k
      {
        var r := pos.entry;
        assert r == s[k] && Ordered(s[k]);
        if r.from > from && r.from < to {
          TotalAppend(gaps, Range(from, r.from));
          gaps := gaps + [Range(from, r.from)];
          total := total + (r.from - from);
          from := r.to;
        }
        assert ring[k + 1].next == After(ring, k + 1);
        pos := pos.next;
        k := k + 1;
      }
      FinishIsGaps(s, from0, to);
      if from < to {
        TotalAppend(gaps, Range(from, to));
        gaps := gaps + [Range(from, to)];
        total := total + (to - from);
      }
    }

    /** `ranges_boolean`: sort, then report the gaps between `from` and `to` and their total. */
    method Boolean(from: U64, to: U64) returns (gaps: seq<Range>, total: U64)
      requires Valid()
      modifies this`changed, this`ring, ring
      ensures Valid() && multiset(Model()) == multiset(old(Model()))
      ensures old(Quiet()) ==> SortedByFrom(Model())
      ensures gaps == Gaps(Model(), from, to) && total == Total(gaps)
    {
      var _ := Sort();
      gaps, total := ReportGaps(from, to);
    }
  }

  /** The nodes carry different `from` fields exactly if the ranges do. */
  lemma FromsOfNodes(ring: seq<ListHead<Range>>, key: Range -> int)
    requires 0 < |ring| && forall r :: key(r) == r.from
    ensures KeysDiffer((set x | x in ring[1..]), key) <==> FromsDiffer(Entries(ring))
  {
    var s := Entries(ring);
    if a, b :| a in ring[1..] && b in ring[1..] && key(a.entry) < key(b.entry) {
      var i :| 0 <= i < |s| && ring[1..][i] == a;
      var j :| 0 <= j < |s| && ring[1..][j] == b;
      assert s[i].from < s[j].from;
    }
    if i, j :| 0 <= i < |s| && 0 <= j < |s| && s[i].from < s[j].from {
      var a, b := ring[1..][i], ring[1..][j];
      assert a in ring[1..] && b in ring[1..] && key(a.entry) < key(b.entry);
    }
  }
}
