/** The depth-bounded walk of `code_analyze_r_nosplit` (src/analyze.c) as a function on the graph of
    code blocks: which addresses get a block, in which order, and with how much depth left.
 */
module CodeWalk {
  import opened Bits
  import opened Machine

  /** The two successors of the block at an address; 0 stands for none. */
  type Graph = U64 -> (U64, U64)

  ghost predicate Edge(g: Graph, a: U64, b: U64) {
    b != 0 && (b == g(a).0 || b == g(a).1)
  }

  /** A block and the depth that was left when the walk created it. */
  datatype Visit = Visit(addr: U64, depth: int)

  ghost predicate Has(vs: seq<Visit>, a: U64) {
    exists i :: 0 <= i < |vs| && vs[i].addr == a
  }

  /** The blocks after walking from `seek`. */
  ghost function Walk(g: Graph, vs: seq<Visit>, seek: U64, depth: int): seq<Visit>
    decreases depth
  {
    if depth <= 0 || Has(vs, seek) then vs
    else
      var v1 := vs + [Visit(seek, depth)];
      var v2 := if g(seek).0 != 0 then Walk(g, v1, g(seek).0, depth - 1) else v1;
      if g(seek).1 != 0 then Walk(g, v2, g(seek).1, depth - 1) else v2
  }

  /** Walk on unless there is no successor. */
  ghost function Follow(g: Graph, vs: seq<Visit>, next: U64, depth: int): seq<Visit> {
    if next != 0 then Walk(g, vs, next, depth) else vs
  }

  /** The blocks when the new block and all that its first successor leads to are in. */
  ghost function FirstHalf(g: Graph, vs: seq<Visit>, seek: U64, depth: int): seq<Visit> {
    Follow(g, vs + [Visit(seek, depth)], g(seek).0, depth - 1)
  }

  lemma WalkUnfold(g: Graph, vs: seq<Visit>, seek: U64, depth: int)
    requires depth > 0 && !Has(vs, seek)
    ensures Walk(g, vs, seek, depth) == Follow(g, FirstHalf(g, vs, seek, depth), g(seek).1, depth - 1)
  {
  }

  ghost predicate Unique(vs: seq<Visit>) {
    forall i, j :: 0 <= i < j < |vs| ==> vs[i].addr != vs[j].addr
  }

  /** The walk only appends, and it keeps addresses unique. */
  lemma {:induction false} WalkAppends(g: Graph, vs: seq<Visit>, seek: U64, depth: int)
    ensures vs <= Walk(g, vs, seek, depth)
    ensures Unique(vs) ==> Unique(Walk(g, vs, seek, depth))
    ensures depth > 0 ==> Has(Walk(g, vs, seek, depth), seek)
    decreases depth
  {
    if depth > 0 && !Has(vs, seek) {
      var v1, v2 := vs + [Visit(seek, depth)], FirstHalf(g, vs, seek, depth);
      assert v1[|vs|].addr == seek;
      WalkAppends(g, v1, g(seek).0, depth - 1);
      WalkAppends(g, v2, g(seek).1, depth - 1);
      assert Walk(g, vs, seek, depth) == Follow(g, v2, g(seek).1, depth - 1);
      assert Walk(g, vs, seek, depth)[|vs|] == v1[|vs|];
    }
  }

  /** Where the new blocks of a walk come from. */
  lemma WalkCases(g: Graph, vs: seq<Visit>, seek: U64, depth: int, i: nat) returns (v1: seq<Visit>, v2: seq<Visit>)
    requires |vs| <= i < |Walk(g, vs, seek, depth)|
    ensures depth > 0 && v1 == vs + [Visit(seek, depth)] && v1 <= v2 <= Walk(g, vs, seek, depth)
    ensures i > |vs| ==> i >= |v1|
    ensures v2 == Follow(g, v1, g(seek).0, depth - 1) && Walk(g, vs, seek, depth) == Follow(g, v2, g(seek).1, depth - 1)
    ensures i == |vs| ==> Walk(g, vs, seek, depth)[i] == Visit(seek, depth)
    ensures |v1| <= i < |v2| ==> g(seek).0 != 0 && Walk(g, vs, seek, depth)[i] == Walk(g, v1, g(seek).0, depth - 1)[i]
    ensures |v2| <= i ==> g(seek).1 != 0 && Walk(g, vs, seek, depth)[i] == Walk(g, v2, g(seek).1, depth - 1)[i]
  {
    v1, v2 := vs + [Visit(seek, depth)], FirstHalf(g, vs, seek, depth);
    WalkAppends(g, v1, g(seek).0, depth - 1);
    WalkAppends(g, v2, g(seek).1, depth - 1);
    assert v1[|vs|] == Visit(seek, depth);
  }

  /** A walk of depth d adds at most 2^d - 1 blocks. */
  lemma {:induction false} WalkBound(g: Graph, vs: seq<Visit>, seek: U64, depth: nat)
    ensures |Walk(g, vs, seek, depth)| <= |vs| + Pow2(depth) - 1
    decreases depth
  {
    if depth > 0 && !Has(vs, seek) {
      WalkBound(g, vs + [Visit(seek, depth)], g(seek).0, depth - 1);
      WalkBound(g, FirstHalf(g, vs, seek, depth), g(seek).1, depth - 1);
    }
  }

  /** There is a path of exactly k edges. */
  ghost predicate Reaches(g: Graph, a: U64, b: U64, k: nat)
    decreases k
  {
    if k == 0 then a == b else exists m :: Edge(g, a, m) && Reaches(g, m, b, k - 1)
  }

  /** A new block with depth e left is exactly depth - e edges away from the start on the path that
      the walk took; in particular it can be reached in fewer than `depth` edges. */
  lemma {:induction false} WalkReaches(g: Graph, vs: seq<Visit>, seek: U64, depth: int, i: nat)
    requires |vs| <= i < |Walk(g, vs, seek, depth)|
    ensures var v := Walk(g, vs, seek, depth)[i];
            1 <= v.depth <= depth && Reaches(g, seek, v.addr, depth - v.depth)
    decreases depth
  {
    var v1, v2 := WalkCases(g, vs, seek, depth, i);
    if |v1| <= i < |v2| {
      WalkReaches(g, v1, g(seek).0, depth - 1, i);
      assert Edge(g, seek, g(seek).0);
    } else if |v2| <= i {
      WalkReaches(g, v2, g(seek).1, depth - 1, i);
      assert Edge(g, seek, g(seek).1);
    }
  }

  lemma HasAfter(vs: seq<Visit>, ws: seq<Visit>, a: U64)
    requires vs <= ws && Has(vs, a)
    ensures Has(ws, a)
  {
    var i :| 0 <= i < |vs| && vs[i].addr == a;
    assert ws[i].addr == a;
  }

  /** Every successor of a new block that had depth 2 or more left has a block. */
  lemma {:induction false} WalkCloses(g: Graph, vs: seq<Visit>, seek: U64, depth: int, i: nat, b: U64)
    requires |vs| <= i < |Walk(g, vs, seek, depth)|
    requires Walk(g, vs, seek, depth)[i].depth >= 2 && Edge(g, Walk(g, vs, seek, depth)[i].addr, b)
    ensures Has(Walk(g, vs, seek, depth), b)
    decreases depth
  {
    var w := Walk(g, vs, seek, depth);
    var v1, v2 := WalkCases(g, vs, seek, depth, i);
    if i == |vs| {
      if b == g(seek).0 {
        WalkAppends(g, v1, b, depth - 1);
        HasAfter(v2, w, b);
      } else {
        WalkAppends(g, v2, b, depth - 1);
      }
    } else if i < |v2| {
      assert v2 == Walk(g, v1, g(seek).0, depth - 1);
      WalkCloses(g, v1, g(seek).0, depth - 1, i, b);
      HasAfter(v2, w, b);
    } else {
      assert w == Walk(g, v2, g(seek).1, depth - 1);
      WalkCloses(g, v2, g(seek).1, depth - 1, i, b);
    }
  }

  /** Every successor of a block has a block. */
  ghost predicate Closed(g: Graph, vs: seq<Visit>) {
    forall i, b :: 0 <= i < |vs| && Edge(g, vs[i].addr, b) ==> Has(vs, b)
  }

  lemma {:induction false} ClosedReaches(g: Graph, vs: seq<Visit>, a: U64, b: U64, k: nat)
    requires Closed(g, vs) && Has(vs, a) && Reaches(g, a, b, k)
    ensures Has(vs, b)
    decreases k
  {
    if k > 0 {
      var m :| Edge(g, a, m) && Reaches(g, m, b, k - 1);
      var i :| 0 <= i < |vs| && vs[i].addr == a;
      ClosedReaches(g, vs, m, b, k - 1);
    }
  }

  /** Every address that can be reached at all has a block. */
  ghost predicate Complete(g: Graph, vs: seq<Visit>, seek: U64) {
    forall b, k: nat :: Reaches(g, seek, b, k) ==> Has(vs, b)
  }

  /** A walk from an empty program finds everything reachable if and only if the successors of the
      blocks where the depth ran out all have blocks. */
  lemma WalkComplete(g: Graph, seek: U64, depth: int)
    requires depth > 0
    ensures var vs := Walk(g, [], seek, depth);
            Complete(g, vs, seek) <==>
            forall i, b :: 0 <= i < |vs| && vs[i].depth == 1 && Edge(g, vs[i].addr, b) ==> Has(vs, b)
  {
    var vs := Walk(g, [], seek, depth);
    WalkAppends(g, [], seek, depth);
    if Complete(g, vs, seek) {
      forall i, b | 0 <= i < |vs| && Edge(g, vs[i].addr, b)
        ensures Has(vs, b)
      {
        WalkReaches(g, [], seek, depth, i);
        ReachesOneMore(g, seek, vs[i].addr, b, depth - vs[i].depth);
      }
    }
    if forall i, b :: 0 <= i < |vs| && vs[i].depth == 1 && Edge(g, vs[i].addr, b) ==> Has(vs, b) {
      forall i, b | 0 <= i < |vs| && Edge(g, vs[i].addr, b)
        ensures Has(vs, b)
      {
        WalkReaches(g, [], seek, depth, i);
        if vs[i].depth >= 2 {
          WalkCloses(g, [], seek, depth, i, b);
        }
      }
      forall b, k: nat | Reaches(g, seek, b, k)
        ensures Has(vs, b)
      {
        ClosedReaches(g, vs, seek, b, k);
      }
    }
  }

  lemma {:induction false} ReachesOneMore(g: Graph, a: U64, m: U64, b: U64, k: nat)
    requires Reaches(g, a, m, k) && Edge(g, m, b)
    ensures Reaches(g, a, b, k + 1)
    decreases k
  {
    if k == 0 {
      assert Reaches(g, b, b, 0);
    } else {
      var x :| Edge(g, a, x) && Reaches(g, x, m, k - 1);
      ReachesOneMore(g, x, m, b, k - 1);
    }
  }

  // ----- what is near enough

  /** The address can be reached from the start in fewer than `depth` edges. */
  ghost predicate Near(g: Graph, seek: U64, b: U64, depth: int) {
    exists k: nat :: k < depth && Reaches(g, seek, b, k)
  }

  /** The walk finds everything near. */
  ghost predicate NearComplete(g: Graph, vs: seq<Visit>, seek: U64, depth: int) {
    forall b :: Near(g, seek, b, depth) ==> Has(vs, b)
  }

  /** The near successors of the blocks where the depth ran out all have blocks. */
  ghost predicate NearClosed(g: Graph, vs: seq<Visit>, seek: U64, depth: int) {
    forall i, b :: 0 <= i < |vs| && vs[i].depth == 1 && Edge(g, vs[i].addr, b) && Near(g, seek, b, depth) ==>
      Has(vs, b)
  }

  lemma {:induction false} NearHas(g: Graph, seek: U64, depth: int, b: U64, k: nat)
    requires k < depth && Reaches(g, seek, b, k)
    requires var vs := Walk(g, [], seek, depth);
             NearClosed(g, vs, seek, depth)
    ensures Has(Walk(g, [], seek, depth), b)
    decreases k
  {
    var vs := Walk(g, [], seek, depth);
    if k == 0 {
      WalkAppends(g, [], seek, depth);
    } else {
      var m := LastStep(g, seek, b, k);
      NearHas(g, seek, depth, m, k - 1);
      var i :| 0 <= i < |vs| && vs[i].addr == m;
      WalkReaches(g, [], seek, depth, i);
      if vs[i].depth >= 2 {
        WalkCloses(g, [], seek, depth, i, b);
      }
    }
  }

  /** A path seen from its other end. */
  lemma {:induction false} LastStep(g: Graph, a: U64, b: U64, k: nat) returns (m: U64)
    requires k > 0 && Reaches(g, a, b, k)
    ensures Reaches(g, a, m, k - 1) && Edge(g, m, b)
    decreases k
  {
    if k == 1 {
      m := a;
    } else {
      var x :| Edge(g, a, x) && Reaches(g, x, b, k - 1);
      m := LastStep(g, x, b, k - 1);
    }
  }

  /** A walk from an empty program finds everything near if and only if the near successors of the
      blocks where the depth ran out all have blocks. */
  lemma WalkNearComplete(g: Graph, seek: U64, depth: int)
    ensures var vs := Walk(g, [], seek, depth);
            NearComplete(g, vs, seek, depth) <==>
            NearClosed(g, vs, seek, depth)
  {
    var vs := Walk(g, [], seek, depth);
    if NearClosed(g, vs, seek, depth) {
      forall b | Near(g, seek, b, depth)
        ensures Has(vs, b)
      {
        var k: nat :| k < depth && Reaches(g, seek, b, k);
        NearHas(g, seek, depth, b, k);
      }
    }
  }

  /** A path without a repeated address. */
  ghost predicate SimplePath(g: Graph, p: seq<U64>) {
    && p != []
    && (forall i, j :: 0 <= i < j < |p| ==> p[i] != p[j])
    && forall i {:trigger p[i]} :: 0 < i < |p| ==> Edge(g, p[i - 1], p[i])
  }

  /** A simple path of n addresses leads from a to b. */
  ghost predicate SimplyReaches(g: Graph, a: U64, b: U64, n: int) {
    exists p :: SimplePath(g, p) && p[0] == a && p[|p| - 1] == b && |p| == n
  }

  lemma SimplePathCons(g: Graph, a: U64, q: seq<U64>)
    requires SimplePath(g, q) && a !in q && Edge(g, a, q[0])
    ensures SimplePath(g, [a] + q)
  {
  }

  lemma NotHad(vs: seq<Visit>, v1: seq<Visit>, from: seq<Visit>, seek: U64, q: seq<U64>)
    requires vs <= v1 <= from && Has(v1, seek)
    requires forall a :: a in q ==> !Has(from, a)
    ensures seek !in q && forall a :: a in q ==> !Has(vs, a)
  {
    HasAfter(v1, from, seek);
    forall a | a in q
      ensures !Has(vs, a)
    {
      if Has(vs, a) {
        HasAfter(vs, from, a);
      }
    }
  }

  /** The path on which the walk meets a new block has no repeated address. */
  lemma {:induction false} WalkPath(g: Graph, vs: seq<Visit>, seek: U64, depth: int, i: nat) returns (p: seq<U64>)
    requires |vs| <= i < |Walk(g, vs, seek, depth)|
    ensures SimplePath(g, p) && p[0] == seek
    ensures var v := Walk(g, vs, seek, depth)[i]; p[|p| - 1] == v.addr && |p| == depth - v.depth + 1
    ensures forall a :: a in p ==> !Has(vs, a)
    decreases depth
  {
    var v1, v2 := WalkCases(g, vs, seek, depth, i);
    if i == |vs| {
      p := [seek];
    } else {
      var first := i < |v2|;
      var next, from := if first then g(seek).0 else g(seek).1, if first then v1 else v2;
      var q := WalkPath(g, from, next, depth - 1, i);
      assert v1[|vs|].addr == seek;
      NotHad(vs, v1, from, seek, q);
      SimplePathCons(g, seek, q);
      p := [seek] + q;
    }
  }

  /** A condition on the graph alone: no address at the end of a simple path of `depth` addresses can also
      be reached in fewer edges. */
  ghost predicate EvenDepths(g: Graph, seek: U64, depth: int) {
    forall b, k: nat :: SimplyReaches(g, seek, b, depth) && k < depth - 1 ==> !Reaches(g, seek, b, k)
  }

  /** On such a graph the walk finds everything near. */
  lemma WalkEvenDepths(g: Graph, seek: U64, depth: int)
    requires EvenDepths(g, seek, depth)
    ensures NearComplete(g, Walk(g, [], seek, depth), seek, depth)
  {
    forall b | Near(g, seek, b, depth)
      ensures Has(Walk(g, [], seek, depth), b)
    {
      var k: nat :| k < depth && Reaches(g, seek, b, k);
      EvenDepthsHas(g, seek, depth, b, k);
    }
  }

  lemma {:induction false} EvenDepthsHas(g: Graph, seek: U64, depth: int, b: U64, k: nat)
    requires EvenDepths(g, seek, depth) && k < depth && Reaches(g, seek, b, k)
    ensures Has(Walk(g, [], seek, depth), b)
    decreases k
  {
    var vs := Walk(g, [], seek, depth);
    if k == 0 {
      WalkAppends(g, [], seek, depth);
    } else {
      var m := LastStep(g, seek, b, k);
      EvenDepthsHas(g, seek, depth, m, k - 1);
      var i :| 0 <= i < |vs| && vs[i].addr == m;
      var p := WalkPath(g, [], seek, depth, i);
      WalkReaches(g, [], seek, depth, i);
      assert vs[i].depth == 1 ==> SimplyReaches(g, seek, m, depth);
      WalkCloses(g, [], seek, depth, i, b);
    }
  }

  /** To be near is not enough to be found: the walk goes depth first, and
      here it meets block 3 with depth 1 left before it could meet it with depth 2. */
  lemma DepthFirstMisses()
    ensures exists g: Graph :: Reaches(g, 1, 4, 2) && !Has(Walk(g, [], 1, 3), 4)
  {
    var g: Graph := (a: U64) => if a == 1 then (2, 3) else if a == 2 then (3, 0) else if a == 3 then (4, 0) else (0, 0);
    assert Reaches(g, 1, 4, 2) by {
      assert Edge(g, 1, 3) && Edge(g, 3, 4) && Reaches(g, 4, 4, 0);
      assert Reaches(g, 3, 4, 1);
    }
    var v1 := [Visit(1, 3)];
    var v2 := v1 + [Visit(2, 2)];
    var v3 := v2 + [Visit(3, 1)];
    assert v3[2].addr == 3;
    assert Walk(g, v3, 4, 0) == v3;
    assert Walk(g, v2, 3, 1) == v3;
    assert Walk(g, v1, 2, 2) == v3;
    assert Walk(g, v3, 3, 2) == v3;
    assert [] + v1 == v1;
    assert Walk(g, [], 1, 3) == v3;
  }
}
