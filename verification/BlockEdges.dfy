/** What `program_block_split_new` of src/rdb.c does to the edges between the blocks. */
module BlockEdges {
  import opened BlockSplit
  import opened Machine

  /** The block has an edge to the address; 0 stands for no edge. */
  predicate Out(b: BlockData, m: U64) {
    m != 0 && (m == b.tnext || m == b.fnext)
  }

  /** Where the block at the split point stands afterwards. */
  function TailAt(s: seq<BlockData>, a: U64): (e: nat)
    ensures e <= |s|
  {
    var j := FindStart(s, a, |s|);
    if j < 0 then |s| else j
  }

  /** The block at the split point has exactly the out-edges of the block that was split, which keeps one edge, to the
      split point.  All other blocks, and all calls, stay. */
  lemma SplitEdges(s: seq<BlockData>, a: U64)
    requires AllSound(s) && FindInside(s, a, |s|) >= 0
    ensures var t, i, e := Split(s, a), FindInside(s, a, |s|), TailAt(s, a);
            && e < |t| && i != e && t[e].addr == a && (t[e].tnext, t[e].fnext) == (s[i].tnext, s[i].fnext)
            && (t[i].tnext, t[i].fnext, t[i].kind) == (a, 0, Head)
            && (e < |s| ==> t[e].kind == s[e].kind && t[e].calls == s[e].calls)
            && (e == |s| ==> t[e].kind == Head && t[e].calls == [])
            && t[i].addr == s[i].addr && t[i].calls == s[i].calls
            && forall k :: 0 <= k < |s| && k != i && k != e ==> t[k] == s[k]
  {
  }

  // ----- single edges

  ghost predicate HasEdge(s: seq<BlockData>, x: U64, m: U64) {
    exists k :: 0 <= k < |s| && s[k].addr == x && Out(s[k], m)
  }

  /** Every edge between block starts is still there, or leads through the split point. */
  ghost predicate EdgesKept(s: seq<BlockData>, t: seq<BlockData>, a: U64) {
    forall x, m :: HasEdge(s, x, m) ==> HasEdge(t, x, m) || (HasEdge(t, x, a) && HasEdge(t, a, m))
  }

  /** The block that started at the split point had no edge that the split block does not have. */
  ghost predicate SameTargets(s: seq<BlockData>, a: U64)
    requires FindInside(s, a, |s|) >= 0
  {
    var i, j := FindInside(s, a, |s|), FindStart(s, a, |s|);
    j >= 0 ==> forall m :: Out(s[j], m) ==> Out(s[i], m)
  }

  lemma EdgeAfter(s: seq<BlockData>, a: U64, x: U64, m: U64)
    requires AllSound(s) && UniqueAddr(s) && FindInside(s, a, |s|) >= 0
    ensures var i, t := FindInside(s, a, |s|), Split(s, a);
            HasEdge(t, x, m) <==> if x == a then Out(s[i], m) else if x == s[i].addr then m == a else HasEdge(s, x, m)
  {
    var t, i, e := Split(s, a), FindInside(s, a, |s|), TailAt(s, a);
    SplitEdges(s, a);
    SplitKeepsUnique(s, a);
    if x == a {
      assert HasEdge(t, x, m) <==> Out(t[e], m);
    } else if x == s[i].addr {
      assert HasEdge(t, x, m) <==> Out(t[i], m);
    } else {
      if HasEdge(t, x, m) {
        var k :| 0 <= k < |t| && t[k].addr == x && Out(t[k], m);
        assert t[k] == s[k];
      }
      if HasEdge(s, x, m) {
        var k :| 0 <= k < |s| && s[k].addr == x && Out(s[k], m);
        assert t[k] == s[k];
      }
    }
  }

  /** A split keeps all edges if and only if it takes over no block with other edges. */
  lemma SplitKeepsEdges(s: seq<BlockData>, a: U64)
    requires AllSound(s) && UniqueAddr(s) && FindInside(s, a, |s|) >= 0
    ensures EdgesKept(s, Split(s, a), a) <==> SameTargets(s, a)
  {
    var t, i, j := Split(s, a), FindInside(s, a, |s|), FindStart(s, a, |s|);
    forall x, m
      ensures HasEdge(t, x, m) <==> if x == a then Out(s[i], m) else if x == s[i].addr then m == a else HasEdge(s, x, m)
    {
      EdgeAfter(s, a, x, m);
    }
    if EdgesKept(s, t, a) && j >= 0 {
      forall m | Out(s[j], m)
        ensures Out(s[i], m)
      {
        assert HasEdge(s, a, m);
      }
    }
    if SameTargets(s, a) {
      forall x, m | HasEdge(s, x, m)
        ensures HasEdge(t, x, m) || (HasEdge(t, x, a) && HasEdge(t, a, m))
      {
        EdgeOwner(s, a, x, m);
      }
    }
  }

  lemma EdgeOwner(s: seq<BlockData>, a: U64, x: U64, m: U64)
    requires UniqueAddr(s) && HasEdge(s, x, m) && FindInside(s, a, |s|) >= 0
    ensures var i, j := FindInside(s, a, |s|), FindStart(s, a, |s|);
            && (x == a ==> j >= 0 && Out(s[j], m))
            && (x == s[i].addr ==> Out(s[i], m))
  {
    var k :| 0 <= k < |s| && s[k].addr == x && Out(s[k], m);
  }

  // ----- paths

  /** A path of n edges leads from x to y. */
  ghost predicate Leads(s: seq<BlockData>, x: U64, y: U64, n: nat)
    decreases n
  {
    if n == 0 then x == y else exists m :: HasEdge(s, x, m) && Leads(s, m, y, n - 1)
  }

  ghost predicate LeadsTo(s: seq<BlockData>, x: U64, y: U64) {
    exists n: nat :: Leads(s, x, y, n)
  }

  lemma {:induction false} LeadsOn(s: seq<BlockData>, x: U64, y: U64, z: U64, n: nat)
    requires Leads(s, x, y, n) && LeadsTo(s, y, z)
    ensures LeadsTo(s, x, z)
    decreases n
  {
    if n > 0 {
      var m :| HasEdge(s, x, m) && Leads(s, m, y, n - 1);
      LeadsOn(s, m, y, z, n - 1);
      var k: nat :| Leads(s, m, z, k);
      assert Leads(s, x, z, k + 1);
    }
  }

  lemma EdgeLeads(s: seq<BlockData>, x: U64, m: U64)
    requires HasEdge(s, x, m)
    ensures Leads(s, x, m, 1) && LeadsTo(s, x, m)
  {
    assert Leads(s, m, m, 0);
  }

  /** Whatever a path led to from an address is still led to. */
  ghost predicate PathsKept(s: seq<BlockData>, t: seq<BlockData>) {
    forall x, y :: LeadsTo(s, x, y) ==> LeadsTo(t, x, y)
  }

  /** A path of n edges leads from x to y, and none of them starts at a. */
  ghost predicate LeadsPast(s: seq<BlockData>, a: U64, x: U64, y: U64, n: nat)
    decreases n
  {
    if n == 0 then x == y else x != a && exists m :: HasEdge(s, x, m) && LeadsPast(s, a, m, y, n - 1)
  }

  /** An edge of the split block, and then a path that does not leave the split point, lead to y. */
  ghost predicate SplitLeads(s: seq<BlockData>, a: U64, y: U64)
    requires FindInside(s, a, |s|) >= 0
  {
    exists m, n: nat :: Out(s[FindInside(s, a, |s|)], m) && LeadsPast(s, a, m, y, n)
  }

  /** What the block that started at the split point had edges to is also led to from the split block, without
      the edges of that other block. */
  ghost predicate TargetsLed(s: seq<BlockData>, a: U64)
    requires FindInside(s, a, |s|) >= 0
  {
    var j := FindStart(s, a, |s|);
    j >= 0 ==> forall m :: Out(s[j], m) ==> m == a || SplitLeads(s, a, m)
  }

  /** A path that does not leave the split point is still a path. */
  lemma {:induction false} PastStillLeads(s: seq<BlockData>, a: U64, x: U64, y: U64, n: nat)
    requires AllSound(s) && UniqueAddr(s) && FindInside(s, a, |s|) >= 0 && LeadsPast(s, a, x, y, n)
    ensures LeadsTo(Split(s, a), x, y)
    decreases n
  {
    var t, i := Split(s, a), FindInside(s, a, |s|);
    if n == 0 {
      assert Leads(t, x, y, 0);
    } else {
      var m :| HasEdge(s, x, m) && LeadsPast(s, a, m, y, n - 1);
      PastStillLeads(s, a, m, y, n - 1);
      EdgeOwner(s, a, x, m);
      EdgeAfter(s, a, x, m);
      EdgeAfter(s, a, x, a);
      EdgeAfter(s, a, a, m);
      if x == s[i].addr {
        EdgeLeads(t, a, m);
        LeadsOn(t, a, m, y, 1);
        EdgeLeads(t, x, a);
        LeadsOn(t, x, a, y, 1);
      } else {
        EdgeLeads(t, x, m);
        LeadsOn(t, x, m, y, 1);
      }
    }
  }

  /** After the split, the split point leads to what the split block led to. */
  lemma SplitPointLeads(s: seq<BlockData>, a: U64, y: U64)
    requires AllSound(s) && UniqueAddr(s) && FindInside(s, a, |s|) >= 0 && SplitLeads(s, a, y)
    ensures LeadsTo(Split(s, a), a, y)
  {
    var t, i := Split(s, a), FindInside(s, a, |s|);
    var m, n: nat :| Out(s[i], m) && LeadsPast(s, a, m, y, n);
    PastStillLeads(s, a, m, y, n);
    EdgeAfter(s, a, a, m);
    EdgeLeads(t, a, m);
    LeadsOn(t, a, m, y, 1);
  }

  /** And to nothing else. */
  lemma {:induction false} LedBefore(s: seq<BlockData>, a: U64, x: U64, y: U64, n: nat)
    requires AllSound(s) && UniqueAddr(s) && FindInside(s, a, |s|) >= 0 && y != a && Leads(Split(s, a), x, y, n)
    ensures SplitLeads(s, a, y) || (x != a && exists k: nat :: LeadsPast(s, a, x, y, k))
    decreases n
  {
    var t, i := Split(s, a), FindInside(s, a, |s|);
    if n == 0 {
      assert LeadsPast(s, a, x, y, 0);
    } else {
      var m :| HasEdge(t, x, m) && Leads(t, m, y, n - 1);
      LedBefore(s, a, m, y, n - 1);
      EdgeAfter(s, a, x, m);
      if !SplitLeads(s, a, y) {
        var k: nat :| LeadsPast(s, a, m, y, k);
        assert x != a && x != s[i].addr;
        assert LeadsPast(s, a, x, y, k + 1);
      }
    }
  }

  lemma {:induction false} PathAfter(s: seq<BlockData>, a: U64, x: U64, y: U64, n: nat)
    requires AllSound(s) && UniqueAddr(s) && FindInside(s, a, |s|) >= 0 && TargetsLed(s, a) && Leads(s, x, y, n)
    ensures LeadsTo(Split(s, a), x, y)
    decreases n
  {
    var t := Split(s, a);
    if n == 0 {
      assert Leads(t, x, y, 0);
    } else {
      var m :| HasEdge(s, x, m) && Leads(s, m, y, n - 1);
      PathAfter(s, a, m, y, n - 1);
      EdgeStillLeads(s, a, x, m);
      var k: nat :| Leads(t, x, m, k);
      LeadsOn(t, x, m, y, k);
    }
  }

  lemma EdgeStillLeads(s: seq<BlockData>, a: U64, x: U64, m: U64)
    requires AllSound(s) && UniqueAddr(s) && FindInside(s, a, |s|) >= 0 && TargetsLed(s, a) && HasEdge(s, x, m)
    ensures LeadsTo(Split(s, a), x, m)
  {
    var t, i := Split(s, a), FindInside(s, a, |s|);
    EdgeOwner(s, a, x, m);
    EdgeAfter(s, a, x, m);
    if x == s[i].addr {
      EdgeAfter(s, a, x, a);
      EdgeAfter(s, a, a, m);
      EdgeLeads(t, x, a);
      EdgeLeads(t, a, m);
      LeadsOn(t, x, a, m, 1);
    } else if x != a {
      EdgeLeads(t, x, m);
    } else if m == a {
      assert Leads(t, a, a, 0);
    } else {
      SplitPointLeads(s, a, m);
    }
  }

  /** A split keeps all paths if and only if what the block that it takes over had edges to is also led to from the
      split block; in particular if there was no such block, or it had no other edges. */
  lemma SplitKeepsPaths(s: seq<BlockData>, a: U64)
    requires AllSound(s) && UniqueAddr(s) && FindInside(s, a, |s|) >= 0
    ensures PathsKept(s, Split(s, a)) <==> TargetsLed(s, a)
    ensures SameTargets(s, a) ==> TargetsLed(s, a)
  {
    var t, i, j := Split(s, a), FindInside(s, a, |s|), FindStart(s, a, |s|);
    if PathsKept(s, t) && j >= 0 {
      forall m | Out(s[j], m) && m != a
        ensures SplitLeads(s, a, m)
      {
        assert HasEdge(s, a, m);
        EdgeLeads(s, a, m);
        var n: nat :| Leads(t, a, m, n);
        LedBefore(s, a, a, m, n);
      }
    }
    if TargetsLed(s, a) {
      forall x, y | LeadsTo(s, x, y)
        ensures LeadsTo(t, x, y)
      {
        var n: nat :| Leads(s, x, y, n);
        PathAfter(s, a, x, y, n);
      }
    }
    if SameTargets(s, a) && j >= 0 {
      forall m | Out(s[j], m)
        ensures SplitLeads(s, a, m)
      {
        assert Out(s[i], m) && LeadsPast(s, a, m, m, 0);
      }
    }
  }

  /** A block at the split point with an edge of its own, which is lost. */
  lemma SplitLosesEdge()
    ensures var s := [BlockData(16, 4, [1, 2, 3, 4], 32, 0, Body, []), BlockData(18, 2, [3, 4], 48, 0, Body, [])];
            && AllSound(s) && UniqueAddr(s) && FindInside(s, 18, 2) == 0
            && HasEdge(s, 18, 48) && !LeadsTo(Split(s, 18), 18, 48)
  {
    var s := [BlockData(16, 4, [1, 2, 3, 4], 32, 0, Body, []), BlockData(18, 2, [3, 4], 48, 0, Body, [])];
    assert StrictlyInside(s[0], 18) && !StrictlyInside(s[1], 18);
    assert FindInside(s, 18, 2) == 0;
    assert s[1].addr == 18 && Out(s[1], 48);
    var t := Split(s, 18);
    forall x, m
      ensures HasEdge(t, x, m) <==> if x == 18 then m == 32 else x == 16 && m == 18
    {
      EdgeAfter(s, 18, x, m);
    }
    assert forall n: nat :: !Leads(t, 32, 48, n);
    assert forall n: nat :: !Leads(t, 18, 48, n);
  }
}
