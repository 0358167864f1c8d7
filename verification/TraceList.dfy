/** The global trace list of src/trace.c with its `trace_changed` flag. */
module TraceList {
  import opened Bits
  import opened Collections
  import opened Machine
  import opened Lists
  import opened ListSort
  import opened Ranges
  import opened TraceAdds
  import opened TraceRuns

  class Traces {
    const head: ListHead<Trace>
    var changed: bool
    var count: int
    ghost var ring: seq<ListHead<Trace>>

    ghost predicate Valid()
      reads this, ring
    {
      Ring(ring) && ring[0] == head
    }

    /** The traces in list order. */
    ghost function Model(): seq<Trace>
      requires Valid()
      reads this, ring
    {
      Entries(ring)
    }

    /** A clear flag means that there is nothing to sort. */
    ghost predicate Quiet()
      requires Valid()
      reads this, ring
    {
      !changed ==> ByAddr(Model())
    }

    /** `trace_init`. */
    constructor ()
      ensures Valid() && fresh(ring) && Model() == [] && Quiet()
    {
      var h := new ListHead<Trace>(Trace(0, 0, 0, 0, 0));
      head := h;
      changed := false;
      count := 0;
      ring := [h];
    }

    /** `++(t->times)` for every trace of the address, and the current tag. */
    method BumpEach(addr: U64, mark: nat)
      requires Valid()
      modifies (set x | x in ring)`entry
      ensures Ring(ring) && Entries(ring) == BumpAll(old(Model()), addr, mark)
    {
      ghost var es := Model();
      var pos: ListHead<Trace> := head.next;
      ghost var k := 0;
      assert pos == After(ring, 0);
      while pos != head
        invariant Ring(ring) && k <= |es| && pos == At(ring, k + 1)
        invariant Entries(ring) == BumpAll(es[..k], addr, mark) + es[k..]
        decreases |es| - k
      {
        BumpStep(es, addr, mark, k);
        pos := BumpEntry(pos, addr, mark, k);
        k := k + 1;
      }
      assert es[..k] == es;
    }

    /** The loop body of BumpEach for the trace at position k. */
    method BumpEntry(pos: ListHead<Trace>, addr: U64, mark: nat, ghost k: nat) returns (next: ListHead<Trace>)
      requires Ring(ring) && k + 1 < |ring| && ring[k + 1] == pos
      modifies pos`entry
      ensures Ring(ring) && next == At(ring, k + 2)
      ensures var h := old(Entries(ring))[k];
              Entries(ring) == old(Entries(ring))[k := if h.addr == addr then Bumped(h, mark) else h]
    {
      ghost var es := Entries(ring);
      var h := pos.entry;
      if h.addr == addr {
        pos.entry := h.(tags := Or(h.tags, mark), times := h.times + 1);
      }
      assert Entries(ring) == es[k := if es[k].addr == addr then Bumped(es[k], mark) else es[k]];
      assert ring[k + 1].next == After(ring, k + 1);
      next := pos.next;
    }

    /** A known trace is hit again and becomes the latest one. */
    method BumpOne(h: ListHead<Trace>, mark: nat, ghost k: nat) returns (times: int)
      requires Valid() && k < |Model()| && ring[k + 1] == h
      modifies this`count, h`entry
      ensures Valid() && count == old(count) + 1
      ensures var es := old(Model());
              && Model() == es[k := Bumped(es[k], mark).(count := count)]
              && times == es[k].times + 1
    {
      ghost var es := Model();
      count := count + 1;
      h.entry := h.entry.(count := count, tags := Or(h.entry.tags, mark), times := h.entry.times + 1);
      assert Entries(ring) == es[k := Bumped(es[k], mark).(count := count)];
      times := h.entry.times;
    }

    /** `list_add_tail` of a new trace. */
    method Append(h: Trace)
      requires Ring(ring) && ring[0] == head
      modifies this`changed, this`ring, (set x | x in ring)`next, (set x | x in ring)`prev
      ensures Ring(ring) && ring[0] == head && Entries(ring) == old(Entries(ring)) + [h]
      ensures changed && forall x :: x in ring ==> x in old(ring) || fresh(x)
    {
      ghost var es := Entries(ring);
      var node := new ListHead<Trace>(h);
      ListAddTail(node, head, ring, 0);
      ring := Insert(ring, |ring|, node);
      changed := true;
      assert Entries(ring) == es + [h];
    }

    /** `trace_add` of an address whose opcode has the given size.  `mark` is the current tag, or 0 for
        none, and `dup` the setting `trace.dup`. */
    method Add(addr: U64, opsize: int, mark: nat, dup: bool) returns (times: int)
      requires Valid()
      modifies this`changed, this`count, this`ring, ring
      ensures Valid() && Model() == Added(old(Model()), addr, opsize, mark, dup, count)
      ensures !dup ==> Step(old(Model()), old(count), DoAdd(Hit(addr, opsize, mark)), Model())
      ensures count == old(count) + 1 && changed == (old(changed) || |Model()| > |old(Model())|)
      ensures var es := old(Model()); var k := First(es, addr, -1);
              times == if dup || k == |es| then 1 else es[k].times + 1
      ensures old(Quiet()) ==> Quiet()
    {
      ghost var es := Model();
      if dup {
        BumpEach(addr, mark);
      } else {
        var h := Get(addr, -1);
        if h != null {
          times := BumpOne(h, mark, First(es, addr, -1));
          return;
        }
      }
      count := count + 1;
      Append(Trace(addr, mark, opsize, 1, count));
      times := 1;
    }

    /** `trace_get`. */
    method Get(addr: U64, tag: Tag) returns (h: ListHead?<Trace>)
      requires Valid()
      ensures var k := First(Model(), addr, tag);
              if k == |Model()| then h == null else h == ring[k + 1] && h.entry == Model()[k]
    {
      ghost var es := Model();
      h := head.next;
      ghost var k := 0;
      assert h == After(ring, 0);
      while h != head
        invariant k <= |es| && h == At(ring, k + 1)
        invariant forall i :: 0 <= i < k ==> !Is(es[i], addr, tag)
        decreases |es| - k
      {
        assert h.entry == es[k];
        if Tagged(h.entry, tag) && h.entry.addr == addr {
          FirstIs(es, addr, tag, k);
          return;
        }
        assert ring[k + 1].next == After(ring, k + 1);
        h := h.next;
        k := k + 1;
      }
      FirstIs(es, addr, tag, k);
      h := null;
    }

    /** `trace_range`; at address 0 the loop is not entered. */
    method RangeEnd(from: U64, tag: Tag) returns (last: U64)
      requires Valid() && Sane(Model())
      ensures last == if from == 0 then 0 else RunEnd(Model(), from, tag)
    {
      ghost var es := Model();
      ghost var end: U64 := if from == 0 then 0 else RunEnd(es, from, tag);
      last := from;
      var last2: U64 := 0;
      while last != last2
        invariant last2 <= last && (from == 0 ==> last == 0)
        invariant last == last2 ==> last == end
        invariant last != last2 ==> RunEnd(es, last, tag) == end
        decreases U64_MAX - last2
      {
        RunEndStep(es, last, tag);
        last2 := last;
        var h := Get(last, tag);
        if h != null {
          last := last + h.entry.opsize;
        }
      }
    }

    /** `trace_next`. */
    method NextAbove(from: U64, tag: Tag) returns (next: U64)
      requires Valid()
      ensures next == Next(Model(), from, tag)
    {
      ghost var es := Model();
      next := U64_MAX;
      var pos := head.next;
      ghost var k := 0;
      assert pos == After(ring, 0);
      while pos != head
        invariant k <= |es| && pos == At(ring, k + 1)
        invariant next == Above(es[..k], from, tag)
        decreases |es| - k
      {
        assert pos.entry == es[k] && es[..k + 1][..k] == es[..k];
        if Tagged(pos.entry, tag) {
          if pos.entry.addr > from && pos.entry.addr < next {
            next := pos.entry.addr;
          }
        }
        assert ring[k + 1].next == After(ring, k + 1);
        pos := pos.next;
        k := k + 1;
      }
      assert es[..k] == es;
      if next == U64_MAX {
        next := 0;
      }
    }

    /** `trace_sort`. */
    method Sort() returns (moved: bool)
      requires Valid()
      modifies this`changed, this`ring, ring
      ensures Valid() && multiset(Model()) == multiset(old(Model()))
      ensures old(Quiet()) ==> ByAddr(Model())
      ensures old(changed) ==> ByAddr(Model()) && changed == moved
      ensures !old(changed) ==> Model() == old(Model()) && changed == false == moved
      ensures multiset(ring) == multiset(old(ring))
      ensures Step(old(Model()), count, DoSort, Model())
    {
      if !changed {
        return false;
      }
      var key := (h: Trace) => h.addr;
      ghost var out;
      moved, out := SortByKey(head, key, ring);
      ring := out;
      changed := moved;
    }

    /** The search for the lowest address in `trace_show`. */
    method Lowest() returns (from: U64)
      requires Valid()
      ensures from == Start(Model())
    {
      ghost var es := Model();
      from := 0;
      var pos := head.next;
      ghost var k := 0;
      assert pos == After(ring, 0);
      while pos != head
        invariant k <= |es| && pos == At(ring, k + 1)
        invariant from == Start(es[..k])
        decreases |es| - k
      {
        assert pos.entry == es[k] && es[..k + 1][..k] == es[..k];
        if from == 0 {
          from := pos.entry.addr;
        }
        if pos.entry.addr < from {
          from := pos.entry.addr;
        }
        assert ring[k + 1].next == After(ring, k + 1);
        pos := pos.next;
        k := k + 1;
      }
      assert es[..k] == es;
    }

    /** One round of the loop of `trace_show` with `plain` 0. */
    method ShowRun(from: U64, tag: Tag) returns (last: U64, next: U64, ghost rest: seq<Range>)
      requires Valid() && Sane(Model()) && from != 0
      ensures next == 0 || last < next
      ensures if last == from then Runs(Model(), from, tag) == []
              else
                && from < last && rest == Runs(Model(), next, tag)
                && Runs(Model(), from, tag) == [Range(from, last)] + rest
    {
      last := RangeEnd(from, tag);
      next, rest := 0, [];
      if last != from {
        next := NextAbove(last, tag);
        rest := Runs(Model(), next, tag);
      }
    }

    /** The loop of `trace_show` with `plain` 0: the ranges in the order in which they are printed. */
    method ShowRuns(from0: U64, tag: Tag) returns (shown: seq<Range>)
      requires Valid() && Sane(Model())
      ensures shown == Runs(Model(), from0, tag)
    {
      ghost var all := Runs(Model(), from0, tag);
      ghost var rest := all;
      var from: U64 := from0;
      shown := [];
      while from != 0
        invariant shown + rest == all && rest == Runs(Model(), from, tag)
        decreases if from == 0 then 0 else U64_MAX - from + 1
      {
        var last, next;
        ghost var more;
        last, next, more := ShowRun(from, tag);
        if last == from {
          break;
        }
        MoveOver(shown, Range(from, last), more);
        shown := shown + [Range(from, last)];
        from, rest := next, more;
      }
    }

    /** `trace_show` */
    method Show(tag: Tag) returns (shown: seq<Range>)
      requires Valid() && Sane(Model())
      modifies this`changed, this`ring, ring
      ensures Valid() && multiset(Model()) == multiset(old(Model()))
      ensures old(Quiet()) ==> ByAddr(Model())
      ensures Step(old(Model()), count, DoSort, Model())
      ensures Sane(Model()) && shown == Shown(Model(), tag)
    {
      var _ := Sort();
      SaneElements(Model(), old(Model()));
      var from := Lowest();
      shown := ShowRuns(from, tag);
    }
  }

  lemma BumpStep(es: seq<Trace>, addr: U64, mark: nat, k: nat)
    requires k < |es|
    ensures var h, s := es[k], BumpAll(es[..k], addr, mark) + es[k..];
            && s[k] == h
            && s[k := if h.addr == addr then Bumped(h, mark) else h] == BumpAll(es[..k + 1], addr, mark) + es[k + 1..]
  {
  }

  lemma RunEndStep(es: seq<Trace>, last: U64, tag: Tag)
    requires Sane(es)
    ensures var k := First(es, last, tag);
            RunEnd(es, last, tag)
            == if k == |es| || es[k].opsize == 0 then last else RunEnd(es, last + es[k].opsize, tag)
  {
  }

  lemma FirstIs(es: seq<Trace>, addr: U64, tag: Tag, k: nat)
    requires k <= |es| && (k < |es| ==> Is(es[k], addr, tag))
    requires forall i :: 0 <= i < k ==> !Is(es[i], addr, tag)
    ensures First(es, addr, tag) == k
  {
  }

  lemma SaneElements(es: seq<Trace>, fs: seq<Trace>)
    requires multiset(es) == multiset(fs) && Sane(fs)
    ensures Sane(es)
  {
    forall k | 0 <= k < |es|
      ensures 0 <= es[k].opsize && es[k].addr + es[k].opsize <= U64_MAX
    {
      assert es[k] in multiset(fs);
    }
  }
}
