/** What `trace_add` of src/trace.c does to the list of traces, and what whole runs of it leave there. */
module TraceAdds {
  import opened Bits
  import opened Machine
  import opened TraceRuns

  /** Another hit of a traced opcode while the tag `mark` is set (0 if none is). */
  function Bumped(h: Trace, mark: nat): Trace {
    h.(tags := Or(h.tags, mark), times := h.times + 1)
  }

  /** `trace_add` with `trace.dup`, before the new trace is appended. */
  function BumpAll(es: seq<Trace>, addr: U64, mark: nat): (r: seq<Trace>)
    ensures |r| == |es|
  {
    seq(|es|, i requires 0 <= i < |es| => if es[i].addr == addr then Bumped(es[i], mark) else es[i])
  }

  /** `trace_add` of an opcode of the given size, as the n-th trace. */
  function Added(es: seq<Trace>, addr: U64, opsize: int, mark: nat, dup: bool, n: int): seq<Trace> {
    var k := First(es, addr, -1);
    if dup then BumpAll(es, addr, mark) + [Trace(addr, mark, opsize, 1, n)]
    else if k == |es| then es + [Trace(addr, mark, opsize, 1, n)]
    else es[k := Bumped(es[k], mark).(count := n)]
  }

  // ----- tags

  lemma {:induction false} OrShifted(a: nat, b: nat, k: nat)
    ensures Shr(Or(a, b), k) % 2 == 1 <==> Shr(a, k) % 2 == 1 || Shr(b, k) % 2 == 1
    decreases k
  {
    if k > 0 {
      OrHalf(a, b);
      OrShifted(a / 2, b / 2, k - 1);
    }
  }

  lemma OrHalf(a: nat, b: nat)
    ensures Or(a, b) / 2 == Or(a / 2, b / 2)
  {
  }

  lemma {:induction false} BelowPower(k: nat)
    ensures k < Pow2(k)
  {
    if k > 0 {
      BelowPower(k - 1);
    }
  }

  /** A hit adds the bits of the tag's number: the trace counts as tagged afterwards if it did before, or if that
      number has the bit that is asked for. */
  lemma BumpedTagged(h: Trace, mark: nat, tag: Tag)
    ensures Tagged(Bumped(h, mark), tag) <==> tag == -1 || Tagged(h, tag) || Shr(mark, tag) % 2 == 1
  {
    if tag != -1 {
      OrShifted(h.tags, mark, tag);
    }
  }

  /** So a new trace is never found under the tag under which it was added, and a hit under a tag never
      makes a trace found under it that was not found before. */
  lemma OwnTagMissed(h: Trace, tag: Tag)
    requires 0 <= tag
    ensures !Tagged(Trace(h.addr, tag, h.opsize, 1, h.count), tag)
    ensures Tagged(Bumped(h, tag), tag) <==> Tagged(h, tag)
  {
    BelowPower(tag);
    ShrBound(tag, tag, tag);
    BumpedTagged(h, tag, tag);
  }

  // ----- whole runs

  /** One call of `trace_add`: the address, the size of the opcode there, and the number of the tag that is set. */
  datatype Hit = Hit(addr: U64, opsize: int, mark: nat)

  /** How often the address was added. */
  function Times(adds: seq<Hit>, a: U64): nat {
    if adds == [] then 0
    else Times(adds[..|adds| - 1], a) + if adds[|adds| - 1].addr == a then 1 else 0
  }

  /** The `|` of the tag numbers under which the address was added. */
  function Marks(adds: seq<Hit>, a: U64): nat {
    if adds == [] then 0
    else
      var h, before := adds[|adds| - 1], Marks(adds[..|adds| - 1], a);
      if h.addr == a then Or(before, h.mark) else before
  }

  /** The first add of the address, or |adds|. */
  function FirstAdd(adds: seq<Hit>, a: U64): (k: nat)
    ensures k <= |adds| && (k < |adds| ==> adds[k].addr == a)
    ensures forall i :: 0 <= i < k ==> adds[i].addr != a
  {
    if adds == [] || adds[0].addr == a then 0 else 1 + FirstAdd(adds[1..], a)
  }

  /** The last add of the address, or -1. */
  function LastAdd(adds: seq<Hit>, a: U64): (k: int)
    ensures -1 <= k < |adds| && (k >= 0 ==> adds[k].addr == a)
    ensures forall i :: k < i < |adds| ==> adds[i].addr != a
  {
    if adds == [] || adds[|adds| - 1].addr == a then |adds| - 1 else LastAdd(adds[..|adds| - 1], a)
  }

  /** What the adds say about a traced address. */
  function Summary(adds: seq<Hit>, a: U64): Trace
    requires FirstAdd(adds, a) < |adds|
  {
    Trace(a, Marks(adds, a), adds[FirstAdd(adds, a)].opsize, Times(adds, a), LastAdd(adds, a) + 1)
  }

  /** Every added address has exactly one trace, and that is what the adds say. */
  ghost predicate Sums(es: seq<Trace>, adds: seq<Hit>) {
    && (forall i, j :: 0 <= i < j < |es| ==> es[i].addr != es[j].addr)
    && (forall k :: 0 <= k < |es| ==> Sum(adds, es[k]))
    && forall i :: 0 <= i < |adds| ==> HasTrace(es, adds[i].addr)
  }

  ghost predicate Sum(adds: seq<Hit>, t: Trace) {
    FirstAdd(adds, t.addr) < |adds| && t == Summary(adds, t.addr)
  }

  ghost predicate HasTrace(es: seq<Trace>, a: U64) {
    exists k :: 0 <= k < |es| && es[k].addr == a
  }

  lemma OrZero(b: nat)
    ensures Or(0, b) == b
  {
  }

  lemma {:induction false} NeverAdded(adds: seq<Hit>, a: U64)
    requires FirstAdd(adds, a) == |adds|
    ensures Times(adds, a) == 0 && Marks(adds, a) == 0
  {
    if adds != [] {
      var init := adds[..|adds| - 1];
      assert forall i :: 0 <= i < |init| ==> init[i].addr != a;
      NeverAdded(init, a);
    }
  }

  /** One more add changes what is said about its address only. */
  lemma AddOne(adds: seq<Hit>, h: Hit, a: U64)
    ensures var more := adds + [h];
            && Times(more, a) == Times(adds, a) + (if h.addr == a then 1 else 0)
            && Marks(more, a) == (if h.addr == a then Or(Marks(adds, a), h.mark) else Marks(adds, a))
            && LastAdd(more, a) == (if h.addr == a then |adds| else LastAdd(adds, a))
            && FirstAdd(more, a) == (if FirstAdd(adds, a) == |adds| && h.addr != a then |more| else FirstAdd(adds, a))
  {
    var more := adds + [h];
    assert more[..|adds|] == adds;
    assert forall i :: 0 <= i < |adds| ==> more[i] == adds[i];
    assert more[|adds|] == h;
  }

  /** An address without a trace was never added. */
  lemma FirstAddNone(es: seq<Trace>, adds: seq<Hit>, a: U64)
    requires Sums(es, adds) && !HasTrace(es, a)
    ensures FirstAdd(adds, a) == |adds|
  {
    assert forall i :: 0 <= i < |adds| ==> HasTrace(es, adds[i].addr);
  }

  /** A trace of another address stays the sum. */
  lemma OtherSum(adds: seq<Hit>, h: Hit, t: Trace)
    requires Sum(adds, t) && t.addr != h.addr
    ensures Sum(adds + [h], t)
  {
    AddOne(adds, h, t.addr);
  }

  lemma BumpedSum(adds: seq<Hit>, h: Hit, t: Trace)
    requires Sum(adds, t) && t.addr == h.addr
    ensures Sum(adds + [h], Bumped(t, h.mark).(count := |adds| + 1))
  {
    AddOne(adds, h, t.addr);
  }

  lemma NewSum(adds: seq<Hit>, h: Hit)
    requires FirstAdd(adds, h.addr) == |adds|
    ensures Sum(adds + [h], Trace(h.addr, h.mark, h.opsize, 1, |adds| + 1))
  {
    AddOne(adds, h, h.addr);
    NeverAdded(adds, h.addr);
    OrZero(h.mark);
  }

  /** The list has a trace for every address that it had one for, and for the address added. */
  lemma AllThere(es: seq<Trace>, fs: seq<Trace>, adds: seq<Hit>, h: Hit, k: nat)
    requires forall i :: 0 <= i < |adds| ==> HasTrace(es, adds[i].addr)
    requires |es| <= |fs| && forall i :: 0 <= i < |es| ==> fs[i].addr == es[i].addr
    requires k < |fs| && fs[k].addr == h.addr
    ensures forall i :: 0 <= i < |adds + [h]| ==> HasTrace(fs, (adds + [h])[i].addr)
  {
    forall i | 0 <= i < |adds + [h]|
      ensures HasTrace(fs, (adds + [h])[i].addr)
    {
      if i < |adds| {
        assert HasTrace(es, adds[i].addr);
        var j :| 0 <= j < |es| && es[j].addr == adds[i].addr;
        assert fs[j].addr == adds[i].addr;
      }
    }
  }

  lemma NewKeepsSums(es: seq<Trace>, adds: seq<Hit>, h: Hit)
    requires Sums(es, adds) && !HasTrace(es, h.addr)
    ensures Sums(es + [Trace(h.addr, h.mark, h.opsize, 1, |adds| + 1)], adds + [h])
  {
    var fs := es + [Trace(h.addr, h.mark, h.opsize, 1, |adds| + 1)];
    FirstAddNone(es, adds, h.addr);
    NewSum(adds, h);
    forall k | 0 <= k < |fs|
      ensures Sum(adds + [h], fs[k]) && (k < |es| ==> fs[k] == es[k] && fs[k].addr != h.addr)
    {
      if k < |es| {
        assert fs[k] == es[k] && es[k].addr != h.addr;
        OtherSum(adds, h, es[k]);
      }
    }
    AllThere(es, fs, adds, h, |es|);
  }

  lemma HitKeepsSums(es: seq<Trace>, adds: seq<Hit>, h: Hit, k: nat)
    requires Sums(es, adds) && k < |es| && es[k].addr == h.addr
    ensures Sums(es[k := Bumped(es[k], h.mark).(count := |adds| + 1)], adds + [h])
  {
    var fs := es[k := Bumped(es[k], h.mark).(count := |adds| + 1)];
    BumpedSum(adds, h, es[k]);
    forall i | 0 <= i < |es|
      ensures Sum(adds + [h], fs[i]) && fs[i].addr == es[i].addr
    {
      if i != k {
        assert es[i].addr != es[k].addr;
        OtherSum(adds, h, es[i]);
      }
    }
    AllThere(es, fs, adds, h, k);
  }

  /** Without `trace.dup`, adding keeps the list the sum of the adds. */
  lemma AddKeepsSums(es: seq<Trace>, adds: seq<Hit>, h: Hit)
    requires Sums(es, adds)
    ensures Sums(Added(es, h.addr, h.opsize, h.mark, false, |adds| + 1), adds + [h])
  {
    var k := First(es, h.addr, -1);
    if k < |es| {
      HitKeepsSums(es, adds, h, k);
    } else {
      assert !HasTrace(es, h.addr) by {
        assert forall i :: 0 <= i < |es| ==> !Is(es[i], h.addr, -1);
      }
      NewKeepsSums(es, adds, h);
    }
  }

  /** Nor does sorting matter. */
  lemma SortKeepsSums(es: seq<Trace>, fs: seq<Trace>, adds: seq<Hit>)
    requires Sums(es, adds) && multiset(es) == multiset(fs)
    ensures Sums(fs, adds)
  {
    forall k | 0 <= k < |fs|
      ensures Sum(adds, fs[k])
    {
      assert fs[k] in multiset(es);
    }
    forall i | 0 <= i < |adds|
      ensures HasTrace(fs, adds[i].addr)
    {
      assert HasTrace(es, adds[i].addr);
      var k :| 0 <= k < |es| && es[k].addr == adds[i].addr;
      assert es[k] in multiset(fs);
    }
    AddressesApart(es, fs);
  }

  lemma AddressesApart(es: seq<Trace>, fs: seq<Trace>)
    requires multiset(es) == multiset(fs)
    requires forall i, j :: 0 <= i < j < |es| ==> es[i].addr != es[j].addr
    ensures forall i, j :: 0 <= i < j < |fs| ==> fs[i].addr != fs[j].addr
  {
    forall i, j | 0 <= i < j < |fs|
      ensures fs[i].addr != fs[j].addr
    {
      assert fs[i] in multiset(es) && fs[j] in multiset(es);
      if fs[i].addr == fs[j].addr {
        assert fs[i] == fs[j];
        Twice(fs, i, j);
        AtMostOnce(es, fs[i]);
      }
    }
  }

  lemma Twice(s: seq<Trace>, i: nat, j: nat)
    requires i < j < |s| && s[i] == s[j]
    ensures multiset(s)[s[i]] >= 2
  {
    assert s == s[..j] + s[j..];
    assert s[..j][i] == s[i] && s[j..][0] == s[i];
    assert s[i] in multiset(s[..j]) && s[i] in multiset(s[j..]);
    assert multiset(s) == multiset(s[..j]) + multiset(s[j..]);
  }

  lemma {:induction false} AtMostOnce(s: seq<Trace>, h: Trace)
    requires forall i, j :: 0 <= i < j < |s| ==> s[i].addr != s[j].addr
    ensures multiset(s)[h] <= 1
  {
    if s != [] {
      AtMostOnce(s[1..], h);
      assert s == [s[0]] + s[1..];
      assert forall i :: 0 <= i < |s[1..]| ==> s[1..][i].addr != s[0].addr;
    }
  }

  datatype Command = DoAdd(hit: Hit) | DoSort

  /** What the methods of TraceList.Traces do to the list, without `trace.dup`, after n adds. */
  ghost predicate Step(es: seq<Trace>, n: int, c: Command, fs: seq<Trace>) {
    match c
    case DoAdd(h) => fs == Added(es, h.addr, h.opsize, h.mark, false, n + 1)
    case DoSort => multiset(fs) == multiset(es)
  }

  /** The adds among the commands. */
  function Adds(commands: seq<Command>): seq<Hit> {
    if commands == [] then []
    else
      var c := commands[|commands| - 1];
      Adds(commands[..|commands| - 1]) + if c.DoAdd? then [c.hit] else []
  }

  /** After any run of adds and sorts from the empty list, without `trace.dup`, every added address has exactly one
      trace: counted once for every add, with the opcode size of the first add, the number of the last add, and
      the `|` of the tags. */
  lemma {:induction false} RunSums(states: seq<seq<Trace>>, commands: seq<Command>, n: nat)
    requires |states| == |commands| + 1 && n < |states| && states[0] == []
    requires forall i :: 0 <= i < |commands| ==> Step(states[i], |Adds(commands[..i])|, commands[i], states[i + 1])
    ensures Sums(states[n], Adds(commands[..n]))
  {
    if n > 0 {
      var es, adds, c := states[n - 1], Adds(commands[..n - 1]), commands[n - 1];
      RunSums(states, commands, n - 1);
      assert commands[..n][..n - 1] == commands[..n - 1];
      assert Step(es, |adds|, c, states[n]);
      match c
      case DoAdd(h) => AddKeepsSums(es, adds, h);
      case DoSort =>
        assert Adds(commands[..n]) == adds;
        SortKeepsSums(es, states[n], adds);
    }
  }

  /** The list after a run of adds with `trace.dup`. */
  function Duplicated(adds: seq<Hit>): seq<Trace> {
    if adds == [] then []
    else
      var h := adds[|adds| - 1];
      Added(Duplicated(adds[..|adds| - 1]), h.addr, h.opsize, h.mark, true, |adds|)
  }

  /** The trace of the first of these adds, made as the n-th trace, after all of them. */
  function OwnTrace(later: seq<Hit>, n: int): Trace
    requires later != []
  {
    Trace(later[0].addr, Marks(later, later[0].addr), later[0].opsize, Times(later, later[0].addr), n)
  }

  lemma OwnBumped(later: seq<Hit>, h: Hit, n: int)
    requires later != []
    ensures OwnTrace(later + [h], n)
         == if h.addr == later[0].addr then Bumped(OwnTrace(later, n), h.mark) else OwnTrace(later, n)
  {
    AddOne(later, h, later[0].addr);
  }

  lemma OwnNew(h: Hit, n: int)
    ensures OwnTrace([h], n) == Trace(h.addr, h.mark, h.opsize, 1, n)
  {
    assert [h] == [] + [h];
    AddOne([], h, h.addr);
    OrZero(h.mark);
  }

  lemma DuplicatedNext(es: seq<Trace>, adds: seq<Hit>, h: Hit, k: nat)
    requires |es| == |adds| && k <= |adds| && (k < |adds| ==> es[k] == OwnTrace(adds[k..], k + 1))
    ensures Added(es, h.addr, h.opsize, h.mark, true, |adds| + 1)[k] == OwnTrace((adds + [h])[k..], k + 1)
  {
    if k < |adds| {
      assert (adds + [h])[k..] == adds[k..] + [h];
      OwnBumped(adds[k..], h, k + 1);
    } else {
      assert (adds + [h])[k..] == [h];
      OwnNew(h, k + 1);
    }
  }

  /** With `trace.dup` every add has a trace of its own, which counts that add and all later ones of the address. */
  lemma {:induction false} DuplicatedIs(adds: seq<Hit>)
    ensures |Duplicated(adds)| == |adds|
    ensures forall k :: 0 <= k < |adds| ==> Duplicated(adds)[k] == OwnTrace(adds[k..], k + 1)
  {
    if adds != [] {
      var init, last := adds[..|adds| - 1], adds[|adds| - 1];
      DuplicatedIs(init);
      assert adds == init + [last];
      forall k | 0 <= k < |adds|
        ensures Duplicated(adds)[k] == OwnTrace(adds[k..], k + 1)
      {
        DuplicatedNext(Duplicated(init), init, last, k);
      }
    }
  }
}
