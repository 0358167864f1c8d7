/** The address ranges that `trace_show` of src/trace.c derives from a list of traced opcodes. */
module TraceRuns {
  import opened Bits
  import opened Machine
  import opened Ranges

  /** `struct trace_t` without its time stamp. */
  datatype Trace = Trace(addr: U64, tags: nat, opsize: int, times: int, count: int)

  /** -1 stands for no tag. */
  type Tag = x: int | -1 <= x < 31

  /** `tag == -1 || (h->tags & (1<<tag))` */
  predicate Tagged(h: Trace, tag: Tag) {
    tag == -1 || Shr(h.tags, tag) % 2 == 1
  }

  /** No opcode ends in front of its address or behind the end of the address space. */
  ghost predicate Sane(es: seq<Trace>) {
    forall k :: 0 <= k < |es| ==> 0 <= es[k].opsize && es[k].addr + es[k].opsize <= U64_MAX
  }

  ghost predicate Positive(es: seq<Trace>) {
    Sane(es) && forall k :: 0 <= k < |es| ==> es[k].opsize > 0
  }

  predicate Is(h: Trace, addr: U64, tag: Tag) {
    Tagged(h, tag) && h.addr == addr
  }

  /** The position of the trace that `trace_get` returns, or |es|. */
  function First(es: seq<Trace>, addr: U64, tag: Tag): (k: nat)
    ensures k <= |es|
    ensures k < |es| ==> Is(es[k], addr, tag)
    ensures forall i :: 0 <= i < k ==> !Is(es[i], addr, tag)
  {
    if es == [] || Is(es[0], addr, tag) then 0 else 1 + First(es[1..], addr, tag)
  }

  /** The first trace at the address is an opcode that is not empty. */
  ghost predicate Grows(es: seq<Trace>, a: U64, tag: Tag) {
    First(es, a, tag) < |es| && es[First(es, a, tag)].opsize > 0
  }

  /** Where the opcodes end that follow each other without a gap from `last` on. */
  ghost function RunEnd(es: seq<Trace>, last: U64, tag: Tag): (end: U64)
    requires Sane(es)
    ensures last <= end
    decreases U64_MAX - last
  {
    var k := First(es, last, tag);
    if k == |es| || es[k].opsize == 0 then last else RunEnd(es, last + es[k].opsize, tag)
  }

  /** The lowest tagged address above `from`, or U64_MAX. */
  function Above(es: seq<Trace>, from: U64, tag: Tag): (next: U64)
    ensures from < next || next == U64_MAX
    ensures next < U64_MAX ==> exists k :: 0 <= k < |es| && Is(es[k], next, tag)
    ensures forall k :: 0 <= k < |es| && Tagged(es[k], tag) && from < es[k].addr ==> next <= es[k].addr
  {
    if es == [] then U64_MAX
    else
      var init, h := es[..|es| - 1], es[|es| - 1];
      var next := Above(init, from, tag);
      if Tagged(h, tag) && h.addr > from && h.addr < next then
        assert Is(es[|es| - 1], h.addr, tag);
        h.addr
      else
        assert next < U64_MAX ==> exists k :: 0 <= k < |init| && Is(es[k], next, tag) by {
          if next < U64_MAX {
            var k :| 0 <= k < |init| && Is(init[k], next, tag);
            assert Is(es[k], next, tag);
          }
        }
        next
  }

  /** `trace_next`: 0 if there is none. */
  function Next(es: seq<Trace>, from: U64, tag: Tag): U64 {
    var next := Above(es, from, tag);
    if next == U64_MAX then 0 else next
  }

  /** Where the search for the lowest address in `trace_show` ends. */
  function Start(es: seq<Trace>): U64 {
    if es == [] then 0
    else
      var h := es[|es| - 1];
      var from := if Start(es[..|es| - 1]) == 0 then h.addr else Start(es[..|es| - 1]);
      if h.addr < from then h.addr else from
  }

  /** The ranges that are shown, starting with the one at `from`. */
  ghost function Runs(es: seq<Trace>, from: U64, tag: Tag): (rs: seq<Range>)
    requires Sane(es)
    decreases U64_MAX - from
  {
    if from == 0 then []
    else
      var last := RunEnd(es, from, tag);
      if last == from then []
      else
        var next := Next(es, last, tag);
        [Range(from, last)] + if next == 0 then [] else Runs(es, next, tag)
  }

  ghost function Shown(es: seq<Trace>, tag: Tag): seq<Range>
    requires Sane(es)
  {
    Runs(es, Start(es), tag)
  }

  ghost predicate ByAddr(es: seq<Trace>) {
    forall i, j :: 0 <= i < j < |es| ==> es[i].addr <= es[j].addr
  }

  /** On a sorted list the search finds the lowest address other than 0. */
  lemma {:induction false} StartIsLowest(es: seq<Trace>)
    requires ByAddr(es)
    ensures Start(es) != 0 ==> exists k :: 0 <= k < |es| && es[k].addr == Start(es)
    ensures forall k :: 0 <= k < |es| && es[k].addr != 0 ==> 0 < Start(es) <= es[k].addr
  {
    if es != [] {
      var init, n := es[..|es| - 1], |es| - 1;
      StartIsLowest(init);
      if Start(init) != 0 {
        var k :| 0 <= k < |init| && init[k].addr == Start(init);
        assert es[k].addr <= es[n].addr && Start(es) == Start(init);
      } else {
        assert Start(es) == es[n].addr;
        assert forall k :: 0 <= k < n ==> init[k] == es[k];
      }
    }
  }

  ghost predicate Ascending(rs: seq<Range>, from: U64) {
    && (forall i :: 0 <= i < |rs| ==> 0 < from <= rs[i].from < rs[i].to)
    && (forall i, j :: 0 <= i < j < |rs| ==> rs[i].to < rs[j].from)
  }

  /** The ranges ascend and leave a gap between each other. */
  lemma {:induction false} RunsAscend(es: seq<Trace>, from: U64, tag: Tag)
    requires Sane(es)
    ensures Ascending(Runs(es, from, tag), from)
    decreases U64_MAX - from
  {
    var rs, last := Runs(es, from, tag), RunEnd(es, from, tag);
    if from != 0 && last != from {
      var next := Next(es, last, tag);
      if next != 0 {
        RunsAscend(es, next, tag);
        assert rs[1..] == Runs(es, next, tag);
        assert forall i :: 0 < i < |rs| ==> rs[i] == rs[1..][i - 1];
      }
    }
  }

  // ----- what the ranges cover

  /** Trace k is a tagged opcode, and the address lies in it. */
  ghost predicate Holds(es: seq<Trace>, k: int, b: U64, tag: Tag) {
    0 <= k < |es| && Tagged(es[k], tag) && es[k].addr <= b < es[k].addr + es[k].opsize
  }

  /** A run is made of whole opcodes. */
  lemma {:induction false} RunIsTiled(es: seq<Trace>, last: U64, tag: Tag, b: U64) returns (k: nat)
    requires Sane(es) && last <= b < RunEnd(es, last, tag)
    ensures Holds(es, k, b, tag) && last <= es[k].addr && es[k].addr + es[k].opsize <= RunEnd(es, last, tag)
    decreases U64_MAX - last
  {
    k := First(es, last, tag);
    var next := last + es[k].opsize;
    if next <= b {
      k := RunIsTiled(es, next, tag, b);
    }
  }

  /** A run ends where no trace begins, or where the first one has size 0. */
  lemma {:induction false} RunStops(es: seq<Trace>, last: U64, tag: Tag)
    requires Sane(es)
    ensures !Grows(es, RunEnd(es, last, tag), tag)
    decreases U64_MAX - last
  {
    if Grows(es, last, tag) {
      RunStops(es, last + es[First(es, last, tag)].opsize, tag);
    }
  }

  /** Every address in a shown range belongs to a traced opcode, all of which is shown. */
  lemma {:induction false} RunsAreTraced(es: seq<Trace>, from: U64, tag: Tag, b: U64) returns (k: nat)
    requires Sane(es) && Covered(Runs(es, from, tag), b)
    ensures Holds(es, k, b, tag) && es[k].addr != 0
    ensures forall a: U64 :: es[k].addr <= a < es[k].addr + es[k].opsize ==> Covered(Runs(es, from, tag), a)
    decreases U64_MAX - from
  {
    var rs := Runs(es, from, tag);
    var last := RunEnd(es, from, tag);
    if from <= b < last {
      k := RunIsTiled(es, from, tag, b);
      assert Covers(rs[0], b);
      forall a: U64 | es[k].addr <= a < es[k].addr + es[k].opsize
        ensures Covered(rs, a)
      {
        assert Covers(rs[0], a);
      }
    } else {
      var next := Next(es, last, tag);
      CoveredTail(rs, b);
      k := RunsAreTraced(es, next, tag, b);
      forall a: U64 | es[k].addr <= a < es[k].addr + es[k].opsize
        ensures Covered(rs, a)
      {
        CoveredTail(rs, a);
      }
    }
  }

  lemma CoveredTail(rs: seq<Range>, b: U64)
    requires |rs| > 0
    ensures Covered(rs, b) <==> Covers(rs[0], b) || Covered(rs[1..], b)
  {
    if Covered(rs[1..], b) {
      var i :| 0 <= i < |rs[1..]| && Covers(rs[1..][i], b);
      assert Covers(rs[i + 1], b);
    }
    if Covered(rs, b) && !Covers(rs[0], b) {
      var i :| 0 <= i < |rs| && Covers(rs[i], b);
      assert Covers(rs[1..][i - 1], b);
    }
  }

  /** The traces of size 0 from `from` on are all shown. */
  ghost predicate EmptyOnesShown(es: seq<Trace>, from: U64, tag: Tag)
    requires Sane(es)
  {
    forall k :: 0 <= k < |es| && Tagged(es[k], tag) && from <= es[k].addr && !Grows(es, es[k].addr, tag) ==>
      Covered(Runs(es, from, tag), es[k].addr)
  }

  /** Starting at an opcode that is not empty, and if empty ones do not get in the way, the ranges reach every
      traced address from there on. */
  lemma {:induction false} RunsReach(es: seq<Trace>, from: U64, tag: Tag, k: nat)
    requires Sane(es) && from > 0 && Grows(es, from, tag) && EmptyOnesShown(es, from, tag)
    requires k < |es| && Tagged(es[k], tag) && from <= es[k].addr
    ensures Covered(Runs(es, from, tag), es[k].addr)
    decreases U64_MAX - from
  {
    var rs, a := Runs(es, from, tag), es[k].addr;
    var last := RunEnd(es, from, tag);
    if a < last {
      assert Covers(rs[0], a);
    } else if Grows(es, a, tag) {
      RunStops(es, from, tag);
      var next := Next(es, last, tag);
      assert last < next <= a;
      AfterRun(es, from, tag);
      var i :| 0 <= i < |es| && Is(es[i], next, tag);
      assert Grows(es, next, tag);
      RunsReach(es, next, tag, k);
      CoveredTail(rs, a);
    }
  }

  /** What is shown from the end of the first run on is shown by the later ones. */
  lemma AfterRun(es: seq<Trace>, from: U64, tag: Tag)
    requires Sane(es) && from > 0 && RunEnd(es, from, tag) != from
    ensures var last, next := RunEnd(es, from, tag), Next(es, RunEnd(es, from, tag), tag);
            && !Covered(Runs(es, from, tag), last)
            && (forall b: U64 :: last <= b ==>
                  (Covered(Runs(es, from, tag), b) <==> next != 0 && Covered(Runs(es, next, tag), b)))
            && (next != 0 && EmptyOnesShown(es, from, tag) ==> EmptyOnesShown(es, next, tag))
  {
    var rs, last := Runs(es, from, tag), RunEnd(es, from, tag);
    var next := Next(es, last, tag);
    RunsAscend(es, next, tag);
    forall b: U64 | last <= b
      ensures Covered(rs, b) <==> next != 0 && Covered(Runs(es, next, tag), b)
      ensures Covered(rs, b) ==> next <= b
    {
      CoveredTail(rs, b);
    }
  }

  /** Every traced address is shown; 0 is not. */
  ghost predicate AllShown(es: seq<Trace>, tag: Tag)
    requires Sane(es)
  {
    forall k :: 0 <= k < |es| && Tagged(es[k], tag) && es[k].addr != 0 ==> Covered(Shown(es, tag), es[k].addr)
  }

  ghost predicate AnyTagged(es: seq<Trace>, tag: Tag) {
    exists k :: 0 <= k < |es| && Tagged(es[k], tag) && es[k].addr != 0
  }

  /** Of the runs that are shown starting at `from`, one starts at f. */
  ghost predicate StartsRun(es: seq<Trace>, from: U64, tag: Tag, f: U64)
    requires Sane(es)
    decreases U64_MAX - from
  {
    && from != 0 && RunEnd(es, from, tag) != from
    && (f == from || (var next := Next(es, RunEnd(es, from, tag), tag); next != 0 && StartsRun(es, next, tag, f)))
  }

  /** The address lies strictly inside a run. */
  ghost predicate InsideRun(es: seq<Trace>, tag: Tag, a: U64)
    requires Sane(es)
  {
    exists f: U64 :: StartsRun(es, Start(es), tag, f) && f < a < RunEnd(es, f, tag)
  }

  lemma {:induction false} RunOf(es: seq<Trace>, from: U64, tag: Tag, b: U64) returns (f: U64)
    requires Sane(es) && Covered(Runs(es, from, tag), b)
    ensures StartsRun(es, from, tag, f) && f <= b < RunEnd(es, f, tag)
    decreases U64_MAX - from
  {
    f := from;
    CoveredTail(Runs(es, from, tag), b);
    if RunEnd(es, from, tag) <= b || b < from {
      f := RunOf(es, Next(es, RunEnd(es, from, tag), tag), tag, b);
    }
  }

  lemma {:induction false} RunCovers(es: seq<Trace>, from: U64, tag: Tag, f: U64, b: U64)
    requires Sane(es) && StartsRun(es, from, tag, f) && f <= b < RunEnd(es, f, tag)
    ensures Covered(Runs(es, from, tag), b)
    decreases U64_MAX - from
  {
    CoveredTail(Runs(es, from, tag), b);
    if f != from {
      RunCovers(es, Next(es, RunEnd(es, from, tag), tag), tag, f, b);
    }
  }

  lemma {:induction false} StartGrows(es: seq<Trace>, from: U64, tag: Tag, f: U64)
    requires Sane(es) && StartsRun(es, from, tag, f)
    ensures from <= f && Grows(es, f, tag)
    decreases U64_MAX - from
  {
    if f != from {
      StartGrows(es, Next(es, RunEnd(es, from, tag), tag), tag, f);
    }
  }

  /** Nothing is traced; or the lowest address of all has an opcode that is not empty, and an empty opcode that
      is the first one at its address lies strictly inside a run. */
  ghost predicate Unhindered(es: seq<Trace>, tag: Tag)
    requires Sane(es)
  {
    || !AnyTagged(es, tag)
    || (Grows(es, Start(es), tag) &&
        forall k :: 0 <= k < |es| && Tagged(es[k], tag) && es[k].addr != 0 && !Grows(es, es[k].addr, tag) ==>
          InsideRun(es, tag, es[k].addr))
  }

  /** The search for the start looks at untagged traces too, and an empty opcode ends a run or the whole
      listing.  Apart from that every traced address is shown. */
  lemma ShownExactly(es: seq<Trace>, tag: Tag)
    requires Sane(es) && ByAddr(es)
    ensures AllShown(es, tag) <==> Unhindered(es, tag)
  {
    var from := Start(es);
    StartIsLowest(es);
    if AnyTagged(es, tag) {
      forall k | 0 <= k < |es| && !Grows(es, es[k].addr, tag)
        ensures Covered(Shown(es, tag), es[k].addr) <==> InsideRun(es, tag, es[k].addr)
      {
        EmptyInsideRun(es, tag, es[k].addr);
      }
      if Unhindered(es, tag) {
        forall k | 0 <= k < |es| && Tagged(es[k], tag) && es[k].addr != 0
          ensures Covered(Shown(es, tag), es[k].addr)
        {
          RunsReach(es, from, tag, k);
        }
      } else if !Grows(es, from, tag) {
        assert Shown(es, tag) == [];
      }
    }
  }

  lemma EmptyInsideRun(es: seq<Trace>, tag: Tag, a: U64)
    requires Sane(es) && !Grows(es, a, tag)
    ensures Covered(Shown(es, tag), a) <==> InsideRun(es, tag, a)
  {
    if Covered(Shown(es, tag), a) {
      var f := RunOf(es, Start(es), tag, a);
      StartGrows(es, Start(es), tag, f);
    }
    if InsideRun(es, tag, a) {
      var f: U64 :| StartsRun(es, Start(es), tag, f) && f < a < RunEnd(es, f, tag);
      RunCovers(es, Start(es), tag, f, a);
    }
  }

  /** With opcodes of positive size, traces with a tag are shown exactly if one of them is at the lowest
      address of all. */
  lemma ShownOfPositive(es: seq<Trace>, tag: Tag)
    requires Positive(es) && ByAddr(es)
    ensures AllShown(es, tag) <==> First(es, Start(es), tag) < |es| || !AnyTagged(es, tag)
  {
    ShownExactly(es, tag);
    forall k | 0 <= k < |es| && Tagged(es[k], tag)
      ensures Grows(es, es[k].addr, tag)
    {
      assert Is(es[k], es[k].addr, tag);
    }
  }

  /** Without tags every traced address but 0 is shown. */
  lemma ShownWithoutTag(es: seq<Trace>)
    requires Positive(es) && ByAddr(es)
    ensures AllShown(es, -1)
  {
    ShownOfPositive(es, -1);
    StartIsLowest(es);
    if AnyTagged(es, -1) {
      var k :| 0 <= k < |es| && es[k].addr == Start(es);
      assert Is(es[k], Start(es), -1);
    }
  }

  /** Address 0 is never shown. */
  lemma ZeroNotShown(es: seq<Trace>, tag: Tag)
    requires Sane(es)
    ensures !Covered(Shown(es, tag), 0)
  {
    var rs := Runs(es, Start(es), tag);
    RunsAscend(es, Start(es), tag);
    assert !Covered(rs, 0);
  }

  // ----- whether whole opcodes are shown

  /** No traced opcode goes on behind the end of a run inside which it begins. */
  ghost predicate NothingCut(es: seq<Trace>, tag: Tag)
    requires Sane(es)
  {
    forall f, k :: StartsRun(es, Start(es), tag, f) && 0 <= k < |es| && Tagged(es[k], tag) && es[k].addr != 0 ==>
      !(es[k].addr < RunEnd(es, f, tag) < es[k].addr + es[k].opsize)
  }

  /** The address belongs to a traced opcode. */
  ghost predicate Traced(es: seq<Trace>, b: U64, tag: Tag) {
    exists k :: Holds(es, k, b, tag) && es[k].addr != 0
  }

  /** The shown addresses are those of the traced opcodes. */
  ghost predicate IsUnion(es: seq<Trace>, tag: Tag)
    requires Sane(es)
  {
    forall b: U64 :: Covered(Shown(es, tag), b) <==> Traced(es, b, tag)
  }

  lemma {:induction false} RunEndNotShown(es: seq<Trace>, from: U64, tag: Tag, f: U64)
    requires Sane(es) && StartsRun(es, from, tag, f)
    ensures !Covered(Runs(es, from, tag), RunEnd(es, f, tag))
    decreases U64_MAX - from
  {
    AfterRun(es, from, tag);
    if f != from {
      var next := Next(es, RunEnd(es, from, tag), tag);
      StartGrows(es, next, tag, f);
      RunEndNotShown(es, next, tag, f);
    }
  }

  /** Every traced opcode that is not empty lies in one run. */
  ghost predicate EachInRun(es: seq<Trace>, tag: Tag)
    requires Sane(es)
  {
    forall k :: 0 <= k < |es| && Tagged(es[k], tag) && es[k].addr != 0 && es[k].opsize > 0 ==> InOneRun(es, tag, es[k])
  }

  ghost predicate InOneRun(es: seq<Trace>, tag: Tag, h: Trace)
    requires Sane(es)
  {
    exists f: U64 :: StartsRun(es, Start(es), tag, f) && f <= h.addr && h.addr + h.opsize <= RunEnd(es, f, tag)
  }

  lemma UnionExactly(es: seq<Trace>, tag: Tag)
    requires Sane(es)
    ensures IsUnion(es, tag) <==> EachInRun(es, tag)
  {
    if IsUnion(es, tag) {
      forall k | 0 <= k < |es| && Tagged(es[k], tag) && es[k].addr != 0 && es[k].opsize > 0
        ensures InOneRun(es, tag, es[k])
      {
        assert Holds(es, k, es[k].addr, tag);
        assert Traced(es, es[k].addr, tag);
        var f := RunOf(es, Start(es), tag, es[k].addr);
        var last := RunEnd(es, f, tag);
        RunEndNotShown(es, Start(es), tag, f);
        assert !Traced(es, last, tag);
        assert !Holds(es, k, last, tag);
      }
    }
    if EachInRun(es, tag) {
      forall b: U64
        ensures Covered(Shown(es, tag), b) <==> Traced(es, b, tag)
      {
        UnionAt(es, tag, b);
      }
    }
  }

  lemma UnionAt(es: seq<Trace>, tag: Tag, b: U64)
    requires Sane(es) && EachInRun(es, tag)
    ensures Covered(Shown(es, tag), b) <==> Traced(es, b, tag)
  {
    if Covered(Shown(es, tag), b) {
      var k := RunsAreTraced(es, Start(es), tag, b);
    }
    if Traced(es, b, tag) {
      var k :| Holds(es, k, b, tag) && es[k].addr != 0;
      assert InOneRun(es, tag, es[k]);
      var f: U64 :|
        StartsRun(es, Start(es), tag, f) && f <= es[k].addr && es[k].addr + es[k].opsize <= RunEnd(es, f, tag);
      RunCovers(es, Start(es), tag, f, b);
    }
  }

  /** Where nothing hinders the listing, the ranges are the union of the traced opcodes if and only if no run
      ends strictly inside one of them. */
  lemma ShownIsUnion(es: seq<Trace>, tag: Tag)
    requires Sane(es) && ByAddr(es) && Unhindered(es, tag)
    ensures IsUnion(es, tag) <==> NothingCut(es, tag)
  {
    ShownExactly(es, tag);
    UnionExactly(es, tag);
    if EachInRun(es, tag) {
      forall f, k | StartsRun(es, Start(es), tag, f) && 0 <= k < |es| && Tagged(es[k], tag) && es[k].addr != 0
        ensures !(es[k].addr < RunEnd(es, f, tag) < es[k].addr + es[k].opsize)
      {
        var last := RunEnd(es, f, tag);
        RunEndNotShown(es, Start(es), tag, f);
        assert !Traced(es, last, tag);
        assert !Holds(es, k, last, tag);
      }
    }
    if NothingCut(es, tag) {
      forall k | 0 <= k < |es| && Tagged(es[k], tag) && es[k].addr != 0 && es[k].opsize > 0
        ensures InOneRun(es, tag, es[k])
      {
        var f := RunOf(es, Start(es), tag, es[k].addr);
      }
    }
  }

  /** Opcodes that share an address are the same bytes. */
  ghost predicate NoOverlap(es: seq<Trace>, tag: Tag) {
    forall i, j, b: U64 :: Holds(es, i, b, tag) && Holds(es, j, b, tag) ==>
      es[i].addr == es[j].addr && es[i].opsize == es[j].opsize
  }

  /** In particular if opcodes do not overlap. */
  lemma NoOverlapIsUnion(es: seq<Trace>, tag: Tag)
    requires Sane(es) && ByAddr(es) && Unhindered(es, tag) && NoOverlap(es, tag)
    ensures IsUnion(es, tag)
  {
    forall f, k | StartsRun(es, Start(es), tag, f) && 0 <= k < |es| && Tagged(es[k], tag) && es[k].addr != 0
      ensures !(es[k].addr < RunEnd(es, f, tag) < es[k].addr + es[k].opsize)
    {
      StartGrows(es, Start(es), tag, f);
      var last := RunEnd(es, f, tag);
      if es[k].addr < last < es[k].addr + es[k].opsize {
        var i := RunIsTiled(es, f, tag, last - 1);
        assert Holds(es, k, last - 1, tag);
      }
    }
    ShownIsUnion(es, tag);
  }

  /** Overlapping opcodes: the address 7 belongs to a traced opcode, and is not shown. */
  lemma OverlapCutsRun()
    ensures var es := [Trace(5, 0, 2, 1, 1), Trace(6, 0, 4, 1, 2)];
            && Positive(es) && ByAddr(es) && AllShown(es, -1)
            && Holds(es, 1, 7, -1) && !Covered(Shown(es, -1), 7)
  {
    var es := [Trace(5, 0, 2, 1, 1), Trace(6, 0, 4, 1, 2)];
    ShownWithoutTag(es);
    assert Start(es[..1]) == 5 by {
      assert es[..1] == [es[0]];
    }
    assert First(es, 5, -1) == 0 && First(es, 7, -1) == 2;
    assert RunEnd(es, 7, -1) == 7;
    assert RunEnd(es, 5, -1) == 7;
    assert es[..1] == [es[0]] && es[..1][..0] == [];
    assert Above(es[..1], 7, -1) == U64_MAX;
    assert Shown(es, -1) == [Range(5, 7)];
  }

  /** An opcode of size 0 at the lowest address: nothing is shown. */
  lemma EmptyOpcodeHides()
    ensures var es := [Trace(5, 0, 0, 1, 1), Trace(9, 0, 1, 1, 2)];
            Sane(es) && ByAddr(es) && Shown(es, -1) == [] && !AllShown(es, -1)
  {
    var es := [Trace(5, 0, 0, 1, 1), Trace(9, 0, 1, 1, 2)];
    assert Start(es[..1]) == 5 by {
      assert es[..1] == [es[0]];
    }
    assert First(es, 5, -1) == 0;
    assert Tagged(es[1], -1);
  }

  /** An untagged opcode at the lowest address: the tagged one is not shown. */
  lemma UntaggedHides()
    ensures var es := [Trace(5, 0, 2, 1, 1), Trace(9, 1, 1, 1, 2)];
            Positive(es) && ByAddr(es) && Tagged(es[1], 0) && Shown(es, 0) == [] && !AllShown(es, 0)
  {
    var es := [Trace(5, 0, 2, 1, 1), Trace(9, 1, 1, 1, 2)];
    assert Start(es[..1]) == 5 by {
      assert es[..1] == [es[0]];
    }
    assert !Tagged(es[0], 0) && Tagged(es[1], 0);
    assert First(es, 5, 0) == 2;
  }
}
