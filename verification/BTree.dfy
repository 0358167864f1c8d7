/** The binary search tree with hit counters of src/btree.c, on heap nodes. */
module BTree {

  /** `struct btree_node`.  The data pointer of a node never changes. */
  class Node<T(!new)> {
    const data: T
    var hits: int
    var left: Node?<T>
    var right: Node?<T>

    constructor (data: T)
      ensures this.data == data && hits == 0 && left == null && right == null
    {
      this.data := data;
      hits, left, right := 0, null, null;
    }
  }

  /** The nodes that a root pointer leads to, as a tree. */
  datatype Shape<T(!new)> = Leaf | Branch(node: Node<T>, left: Shape<T>, right: Shape<T>)

  ghost function Nodes<T(!new)>(t: Shape<T>): set<Node<T>> {
    match t
    case Leaf => {}
    case Branch(n, l, r) => {n} + Nodes(l) + Nodes(r)
  }

  /** The pointers from p on form the tree t, and no node is met twice. */
  ghost predicate Rep<T(!new)>(p: Node?<T>, t: Shape<T>)
    reads Nodes(t)`left, Nodes(t)`right
  {
    match t
    case Leaf => p == null
    case Branch(n, l, r) =>
      && p == n && n !in Nodes(l) && n !in Nodes(r) && Nodes(l) !! Nodes(r)
      && Rep(n.left, l) && Rep(n.right, r)
  }

  /** The data in the order of the tree. */
  ghost function InOrder<T(!new)>(t: Shape<T>): seq<T> {
    match t
    case Leaf => []
    case Branch(n, l, r) => InOrder(l) + [n.data] + InOrder(r)
  }

  lemma {:induction false} InOrderNodes<T(!new)>(t: Shape<T>, x: T)
    ensures x in InOrder(t) <==> exists n :: n in Nodes(t) && n.data == x
  {
    match t
    case Leaf =>
    case Branch(n, l, r) =>
      InOrderNodes(l, x);
      InOrderNodes(r, x);
  }

  // ----- the order

  /** What the code expects of the comparison function it is given. */
  ghost predicate TotalOrder<T(!new)>(cmp: (T, T) -> int) {
    && (forall x, y :: cmp(x, y) < 0 <==> cmp(y, x) > 0)
    && (forall x, y, z :: cmp(x, y) <= 0 && cmp(y, z) <= 0 ==> cmp(x, z) <= 0)
  }

  ghost predicate Ascending<T(!new)>(s: seq<T>, cmp: (T, T) -> int) {
    forall i, j :: 0 <= i < j < |s| ==> cmp(s[i], s[j]) < 0
  }

  ghost predicate Search<T(!new)>(t: Shape<T>, cmp: (T, T) -> int) {
    Ascending(InOrder(t), cmp)
  }

  lemma SearchParts<T(!new)>(n: Node<T>, l: Shape<T>, r: Shape<T>, cmp: (T, T) -> int)
    requires Search(Branch(n, l, r), cmp)
    ensures Search(l, cmp) && Search(r, cmp)
    ensures forall x :: x in InOrder(l) ==> cmp(x, n.data) < 0
    ensures forall x :: x in InOrder(r) ==> cmp(n.data, x) < 0
  {
    AscendingParts(InOrder(l), n.data, InOrder(r), cmp);
  }

  lemma AscendingParts<T(!new)>(a: seq<T>, m: T, b: seq<T>, cmp: (T, T) -> int)
    requires Ascending(a + [m] + b, cmp)
    ensures Ascending(a, cmp) && Ascending(b, cmp)
    ensures forall x :: x in a ==> cmp(x, m) < 0
    ensures forall x :: x in b ==> cmp(m, x) < 0
  {
    var s, n := a + [m] + b, |a|;
    assert s[n] == m;
    forall i | 0 <= i < n
      ensures s[i] == a[i] && cmp(a[i], m) < 0
    {
      assert cmp(s[i], s[n]) < 0;
    }
    forall i | 0 <= i < |b|
      ensures s[n + 1 + i] == b[i] && cmp(m, b[i]) < 0
    {
      assert cmp(s[n], s[n + 1 + i]) < 0;
    }
    forall i, j | 0 <= i < j < |b|
      ensures cmp(b[i], b[j]) < 0
    {
      assert cmp(s[n + 1 + i], s[n + 1 + j]) < 0;
    }
  }

  /** Some datum of the sequence has the key of x. */
  ghost predicate HasKey<T(!new)>(s: seq<T>, x: T, cmp: (T, T) -> int) {
    exists y :: y in s && cmp(x, y) == 0
  }

  // ----- btree_search, btree_get

  /** `btree_search` with parent == 0: the node with the key of x, if and only if there is one. */
  function BtreeSearch<T(!new)>(root: Node?<T>, x: T, cmp: (T, T) -> int, ghost t: Shape<T>): (p: Node?<T>)
    requires TotalOrder(cmp) && Rep(root, t) && Search(t, cmp)
    reads Nodes(t)
    ensures p != null <==> HasKey(InOrder(t), x, cmp)
    ensures p != null ==> p in Nodes(t) && cmp(x, p.data) == 0
    decreases t
  {
    if root == null then null
    else
      SearchParts(root, t.left, t.right, cmp);
      assert root.data in InOrder(t);
      if cmp(x, root.data) < 0 then BtreeSearch(root.left, x, cmp, t.left)
      else if cmp(x, root.data) > 0 then BtreeSearch(root.right, x, cmp, t.right)
      else root
  }

  ghost function Hits<T(!new)>(t: Shape<T>): map<Node<T>, int>
    reads Nodes(t)`hits
  {
    map n | n in Nodes(t) :: n.hits
  }

  /** `btree_get`: as `btree_search`, and the hit counter of the node found goes up by one. */
  method BtreeGet<T(!new)>(root: Node?<T>, x: T, cmp: (T, T) -> int, ghost t: Shape<T>) returns (p: Node?<T>)
    requires TotalOrder(cmp) && Rep(root, t) && Search(t, cmp)
    modifies Nodes(t)`hits
    ensures p != null <==> HasKey(InOrder(t), x, cmp)
    ensures p != null ==> p in Nodes(t) && cmp(x, p.data) == 0
    ensures Hits(t) == if p == null then old(Hits(t)) else old(Hits(t))[p := old(Hits(t))[p] + 1]
    ensures Rep(root, t)
  {
    p := BtreeSearch(root, x, cmp, t);
    if p != null {
      p.hits := p.hits + 1;
    }
  }

  // ----- btree_insert, btree_add

  /** The sequence with x put in front of the first larger datum, unless its key is there. */
  ghost function InsertSorted<T(!new)>(s: seq<T>, x: T, cmp: (T, T) -> int): seq<T> {
    if s == [] then [x]
    else if cmp(x, s[0]) < 0 then [x] + s
    else if cmp(x, s[0]) == 0 then s
    else [s[0]] + InsertSorted(s[1..], x, cmp)
  }

  lemma AscendingCons<T(!new)>(x: T, s: seq<T>, cmp: (T, T) -> int)
    requires Ascending(s, cmp) && forall y :: y in s ==> cmp(x, y) < 0
    ensures Ascending([x] + s, cmp)
  {
  }

  lemma AscendingTail<T(!new)>(s: seq<T>, cmp: (T, T) -> int)
    requires Ascending(s, cmp) && s != []
    ensures Ascending(s[1..], cmp) && forall y :: y in s[1..] ==> cmp(s[0], y) < 0
  {
    assert forall i :: 0 <= i < |s| - 1 ==> s[1..][i] == s[i + 1];
  }

  lemma {:induction false} InsertSortedElements<T(!new)>(s: seq<T>, x: T, cmp: (T, T) -> int, y: T)
    ensures y in InsertSorted(s, x, cmp) ==> y in s || y == x
  {
    if s != [] {
      InsertSortedElements(s[1..], x, cmp, y);
    }
  }

  lemma {:induction false} InsertSortedAscends<T(!new)>(s: seq<T>, x: T, cmp: (T, T) -> int)
    requires TotalOrder(cmp) && Ascending(s, cmp)
    ensures Ascending(InsertSorted(s, x, cmp), cmp)
  {
    if s != [] {
      var rest := s[1..];
      AscendingTail(s, cmp);
      if cmp(x, s[0]) < 0 {
        forall y | y in s
          ensures cmp(x, y) < 0
        {
          assert cmp(s[0], y) <= 0;
          assert cmp(s[0], x) > 0;
        }
        AscendingCons(x, s, cmp);
      } else if cmp(x, s[0]) > 0 {
        InsertSortedAscends(rest, x, cmp);
        forall y | y in InsertSorted(rest, x, cmp)
          ensures cmp(s[0], y) < 0
        {
          InsertSortedElements(rest, x, cmp, y);
        }
        AscendingCons(s[0], InsertSorted(rest, x, cmp), cmp);
      }
    }
  }

  lemma {:induction false} InsertSortedAdds<T(!new)>(s: seq<T>, x: T, cmp: (T, T) -> int)
    requires TotalOrder(cmp) && Ascending(s, cmp)
    ensures if HasKey(s, x, cmp) then InsertSorted(s, x, cmp) == s
            else multiset(InsertSorted(s, x, cmp)) == multiset(s) + multiset{x}
  {
    if s != [] {
      var rest := s[1..];
      assert s == [s[0]] + rest;
      AscendingTail(s, cmp);
      if cmp(x, s[0]) < 0 {
        forall y | y in s
          ensures cmp(x, y) != 0
        {
          assert cmp(s[0], y) <= 0;
          assert cmp(s[0], x) > 0;
        }
      } else if cmp(x, s[0]) > 0 {
        InsertSortedAdds(rest, x, cmp);
        assert HasKey(s, x, cmp) <==> HasKey(rest, x, cmp);
      }
    }
  }

  /** Inserting keeps the order; it changes nothing exactly when the key is there. */
  lemma InsertSortedMeaning<T(!new)>(s: seq<T>, x: T, cmp: (T, T) -> int)
    requires TotalOrder(cmp) && Ascending(s, cmp)
    ensures Ascending(InsertSorted(s, x, cmp), cmp)
    ensures if HasKey(s, x, cmp) then InsertSorted(s, x, cmp) == s
            else multiset(InsertSorted(s, x, cmp)) == multiset(s) + multiset{x}
  {
    InsertSortedAscends(s, x, cmp);
    InsertSortedAdds(s, x, cmp);
  }

  /** The tree after `btree_insert` of the node p. */
  ghost function InsertShape<T(!new)>(t: Shape<T>, p: Node<T>, cmp: (T, T) -> int): Shape<T> {
    match t
    case Leaf => Branch(p, Leaf, Leaf)
    case Branch(n, l, r) =>
      if cmp(p.data, n.data) < 0 then Branch(n, InsertShape(l, p, cmp), r)
      else if cmp(p.data, n.data) > 0 then Branch(n, l, InsertShape(r, p, cmp))
      else t
  }

  lemma {:induction false} InsertShapeNodes<T(!new)>(t: Shape<T>, p: Node<T>, cmp: (T, T) -> int)
    ensures Nodes(t) <= Nodes(InsertShape(t, p, cmp)) <= Nodes(t) + {p}
  {
    match t
    case Leaf =>
    case Branch(n, l, r) =>
      InsertShapeNodes(l, p, cmp);
      InsertShapeNodes(r, p, cmp);
  }

  /** Inserting left of the middle. */
  lemma {:induction false} InsertSortedLeft<T(!new)>(a: seq<T>, m: T, b: seq<T>, x: T, cmp: (T, T) -> int)
    requires cmp(x, m) < 0
    ensures InsertSorted(a + [m] + b, x, cmp) == InsertSorted(a, x, cmp) + [m] + b
  {
    var s := a + [m] + b;
    if a == [] {
      assert s == [m] + b;
      assert [x] + ([m] + b) == [x] + [m] + b;
    } else {
      assert s[1..] == a[1..] + [m] + b;
      InsertSortedLeft(a[1..], m, b, x, cmp);
      if cmp(x, a[0]) < 0 {
        assert [x] + s == [x] + a + [m] + b;
      } else if cmp(x, a[0]) > 0 {
        assert [a[0]] + (InsertSorted(a[1..], x, cmp) + [m] + b) == [a[0]] + InsertSorted(a[1..], x, cmp) + [m] + b;
      }
    }
  }

  /** Inserting right of the middle. */
  lemma {:induction false} InsertSortedRight<T(!new)>(a: seq<T>, m: T, b: seq<T>, x: T, cmp: (T, T) -> int)
    requires TotalOrder(cmp) && cmp(x, m) > 0
    requires forall y :: y in a ==> cmp(y, m) < 0
    ensures InsertSorted(a + [m] + b, x, cmp) == a + [m] + InsertSorted(b, x, cmp)
  {
    var s := a + [m] + b;
    if a == [] {
      assert s == [m] + b && s[1..] == b;
    } else {
      assert s[1..] == a[1..] + [m] + b;
      InsertSortedRight(a[1..], m, b, x, cmp);
      assert cmp(a[0], m) < 0 && cmp(m, x) < 0;
      assert cmp(x, a[0]) <= 0 ==> cmp(x, m) <= 0;
      assert [a[0]] + (a[1..] + [m] + InsertSorted(b, x, cmp)) == a + [m] + InsertSorted(b, x, cmp);
    }
  }

  lemma {:induction false} InsertSortedThere<T(!new)>(a: seq<T>, m: T, b: seq<T>, x: T, cmp: (T, T) -> int)
    requires TotalOrder(cmp) && cmp(x, m) == 0
    requires forall y :: y in a ==> cmp(y, m) < 0
    ensures InsertSorted(a + [m] + b, x, cmp) == a + [m] + b
  {
    var s := a + [m] + b;
    if a == [] {
      assert s[0] == m;
    } else {
      assert s[1..] == a[1..] + [m] + b;
      InsertSortedThere(a[1..], m, b, x, cmp);
      assert cmp(a[0], m) < 0 < cmp(m, a[0]) && cmp(m, x) <= 0;
    }
  }

  /** Inserting into a search tree inserts into its sorted sequence, once at most. */
  lemma {:induction false} InsertShapeOrder<T(!new)>(t: Shape<T>, p: Node<T>, cmp: (T, T) -> int)
    requires TotalOrder(cmp) && Search(t, cmp)
    ensures InOrder(InsertShape(t, p, cmp)) == InsertSorted(InOrder(t), p.data, cmp)
  {
    match t
    case Leaf =>
    case Branch(n, l, r) =>
      SearchParts(n, l, r, cmp);
      InsertShapeOrder(l, p, cmp);
      InsertShapeOrder(r, p, cmp);
      var a, b := InOrder(l), InOrder(r);
      if cmp(p.data, n.data) < 0 {
        InsertSortedLeft(a, n.data, b, p.data, cmp);
      } else if cmp(p.data, n.data) > 0 {
        InsertSortedRight(a, n.data, b, p.data, cmp);
      } else {
        InsertSortedThere(a, n.data, b, p.data, cmp);
      }
  }

  /** `btree_insert` below an existing node.  S names the allocated nodes. */
  method BtreeInsert<T(!new)>(root: Node<T>, p: Node<T>, cmp: (T, T) -> int, ghost t: Shape<T>, ghost S: set<Node<T>>)
    requires Rep(root, t) && Nodes(t) <= S
    requires p !in Nodes(t) && p.left == null && p.right == null
    modifies Nodes(t)`left, Nodes(t)`right
    ensures Rep(root, InsertShape(t, p, cmp))
    decreases t
  {
    var ret := cmp(p.data, root.data);
    ghost var l, r := t.left, t.right;
    InsertShapeNodes(l, p, cmp);
    InsertShapeNodes(r, p, cmp);
    if ret < 0 {
      if root.left != null {
        BtreeInsert(root.left, p, cmp, l, S);
      } else {
        root.left := p;
      }
    } else if ret > 0 {
      if root.right != null {
        BtreeInsert(root.right, p, cmp, r, S);
      } else {
        root.right := p;
      }
    }
  }

  /** `btree_add`: the datum goes into the tree exactly if its key is not there yet. */
  method BtreeAdd<T(!new)>(root: Node?<T>, e: T, cmp: (T, T) -> int, ghost t: Shape<T>, ghost S: set<Node<T>>)
    returns (root': Node<T>, ghost t': Shape<T>)
    requires TotalOrder(cmp) && Rep(root, t) && Search(t, cmp) && Nodes(t) <= S
    modifies Nodes(t)`left, Nodes(t)`right
    ensures Rep(root', t') && Search(t', cmp)
    ensures InOrder(t') == InsertSorted(InOrder(t), e, cmp)
    ensures forall n :: n in Nodes(t') ==> n in Nodes(t) || fresh(n)
    ensures root != null ==> root' == root
  {
    var p := new Node(e);
    t' := InsertShape(t, p, cmp);
    InsertShapeOrder(t, p, cmp);
    InsertSortedMeaning(InOrder(t), e, cmp);
    InsertShapeNodes(t, p, cmp);
    if root == null {
      root' := p;
    } else {
      BtreeInsert(root, p, cmp, t, S);
      root' := root;
    }
  }

  // ----- btree_remove

  /** The leftmost node, and the tree without it. */
  ghost function Min<T(!new)>(t: Shape<T>): Node<T>
    requires t.Branch?
    ensures Min(t) in Nodes(t)
  {
    if t.left.Leaf? then t.node else Min(t.left)
  }

  ghost function DeleteMin<T(!new)>(t: Shape<T>): Shape<T>
    requires t.Branch?
  {
    if t.left.Leaf? then t.right else t.(left := DeleteMin(t.left))
  }

  lemma {:induction false} DeleteMinMeaning<T(!new)>(t: Shape<T>)
    requires t.Branch?
    ensures InOrder(t) == [Min(t).data] + InOrder(DeleteMin(t))
    ensures Nodes(t) == Nodes(DeleteMin(t)) + {Min(t)}
  {
    if t.left.Branch? {
      DeleteMinMeaning(t.left);
    }
  }

  /** The node whose left child is the leftmost node. */
  ghost function MinParent<T(!new)>(t: Shape<T>): Node<T>
    requires t.Branch? && t.left.Branch?
    ensures MinParent(t) in Nodes(t)
  {
    if t.left.left.Leaf? then t.node else MinParent(t.left)
  }

  /** What is found right of the leftmost node. */
  ghost function MinRight<T(!new)>(t: Shape<T>): Shape<T>
    requires t.Branch?
    ensures Nodes(MinRight(t)) <= Nodes(t)
  {
    if t.left.Leaf? then t.right else MinRight(t.left)
  }

  /** The tree after `btree_remove` of its root. */
  ghost function RemoveShape<T(!new)>(t: Shape<T>): Shape<T>
    requires t.Branch?
  {
    if t.right.Leaf? then t.left
    else if t.left.Leaf? then t.right
    else Branch(Min(t.right), t.left, DeleteMin(t.right))
  }

  /** Removing the root leaves the other data in order, on the other nodes. */
  lemma RemoveShapeMeaning<T(!new)>(t: Shape<T>)
    requires t.Branch?
    ensures InOrder(RemoveShape(t)) == InOrder(t.left) + InOrder(t.right)
    ensures Nodes(RemoveShape(t)) == Nodes(t.left) + Nodes(t.right)
  {
    if t.left.Branch? && t.right.Branch? {
      DeleteMinMeaning(t.right);
    }
  }

  lemma AscendingWithout<T(!new)>(a: seq<T>, m: T, b: seq<T>, cmp: (T, T) -> int, i: nat, j: nat)
    requires Ascending(a + [m] + b, cmp) && i < j < |a + b|
    ensures cmp((a + b)[i], (a + b)[j]) < 0
  {
    var s := a + [m] + b;
    var i', j' := if i < |a| then i else i + 1, if j < |a| then j else j + 1;
    assert s[i'] == (a + b)[i];
    assert s[j'] == (a + b)[j];
  }

  /** Removing the root keeps a search tree a search tree. */
  lemma RemoveKeepsSearch<T(!new)>(t: Shape<T>, cmp: (T, T) -> int)
    requires t.Branch? && Search(t, cmp)
    ensures Search(RemoveShape(t), cmp)
  {
    var a, b := InOrder(t.left), InOrder(t.right);
    forall i, j | 0 <= i < j < |a + b|
      ensures cmp((a + b)[i], (a + b)[j]) < 0
    {
      AscendingWithout(a, t.node.data, b, cmp, i, j);
    }
    RemoveShapeMeaning(t);
  }

  ghost function Root<T(!new)>(t: Shape<T>): Node?<T> {
    if t.Leaf? then null else t.node
  }

  /** As Rep, but the left pointer of the node f may lead anywhere. */
  ghost predicate RepExcept<T(!new)>(p: Node?<T>, t: Shape<T>, f: Node<T>)
    reads (Nodes(t) - {f})`left, Nodes(t)`right
  {
    match t
    case Leaf => p == null
    case Branch(n, l, r) =>
      && p == n && n !in Nodes(l) && n !in Nodes(r) && Nodes(l) !! Nodes(r)
      && (n != f ==> n.left == Root(l))
      && RepExcept(Root(l), l, f) && RepExcept(n.right, r, f)
  }

  lemma {:induction false} RepSplit<T(!new)>(p: Node?<T>, t: Shape<T>, f: Node<T>)
    requires Rep(p, t)
    ensures RepExcept(p, t, f) && p == Root(t)
  {
    match t
    case Leaf =>
    case Branch(n, l, r) =>
      RepSplit(n.left, l, f);
      RepSplit(n.right, r, f);
  }

  lemma {:induction false} RepElsewhere<T(!new)>(p: Node?<T>, t: Shape<T>, f: Node<T>)
    requires RepExcept(p, t, f) && f !in Nodes(t)
    ensures Rep(p, t)
  {
    match t
    case Leaf =>
    case Branch(n, l, r) =>
      RepElsewhere(n.left, l, f);
      RepElsewhere(n.right, r, f);
  }

  /** Once the left pointer of its parent leads to what was right of it, the leftmost node is out of
      the tree. */
  lemma {:induction false} LeftmostUnlinked<T(!new)>(p: Node<T>, t: Shape<T>, f: Node<T>)
    requires t.Branch? && t.left.Branch? && f == MinParent(t)
    requires RepExcept(p, t, f) && f.left == Root(MinRight(t))
    ensures Rep(p, DeleteMin(t))
  {
    var n, l, r := t.node, t.left, t.right;
    if l.left.Leaf? {
      assert RepExcept(l.node.right, l.right, f);
      assert l.node.right == Root(l.right);
      RepElsewhere(Root(l.right), l.right, f);
      RepElsewhere(n.right, r, f);
    } else {
      LeftmostUnlinked(l.node, l, f);
      DeleteMinMeaning(l);
      RepElsewhere(n.right, r, f);
    }
  }

  /** The pointers at the leftmost node. */
  lemma {:induction false} LeftmostPointers<T(!new)>(p: Node?<T>, t: Shape<T>)
    requires t.Branch? && Rep(p, t)
    ensures Min(t).left == null && Min(t).right == Root(MinRight(t))
    ensures Min(t) !in Nodes(DeleteMin(t))
  {
    if t.left.Leaf? {
      RepSplit(t.node.right, t.right, t.node);
    } else {
      LeftmostPointers(t.node.left, t.left);
    }
  }

  /** `btree_remove`: take the root out of its tree and return the new root. */
  method BtreeRemove<T(!new)>(p: Node?<T>, ghost t: Shape<T>) returns (rp: Node?<T>, ghost t': Shape<T>)
    requires Rep(p, t)
    modifies Nodes(t)`left, Nodes(t)`right
    ensures Rep(rp, t')
    ensures t' == if t.Leaf? then Leaf else RemoveShape(t)
  {
    rp, t' := null, Leaf;
    if p == null {
      return p, t;
    }
    t' := RemoveShape(t);
    if p.right != null {
      if p.left != null {
        ghost var l, r := t.left, t.right;
        var f: Node<T> := p;
        rp := p.right;
        ghost var c := r;
        while rp.left != null
          invariant rp != null && c.Branch? && Rep(rp, c) && Min(c) == Min(r) && MinRight(c) == MinRight(r)
          invariant if f == p then c == r
                    else r.left.Branch? && MinParent(r) == if c.left.Branch? then MinParent(c) else f
          invariant Nodes(c) <= Nodes(r) && (f != p ==> f in Nodes(r))
          decreases c
        {
          f := rp;
          rp := rp.left;
          c := c.left;
        }
        LeftmostPointers(p.right, r);
        DeleteMinMeaning(r);
        if f != p {
          RepSplit(p.right, r, f);
          f.left := rp.right;
          LeftmostUnlinked(p.right, r, f);
          rp.right := p.right;
          rp.left := p.left;
        } else {
          rp.left := p.left;
        }
      } else {
        rp := p.right;
      }
    } else {
      rp := p.left;
    }
  }

  // ----- btree_hittest

  ghost function PreOrder<T(!new)>(t: Shape<T>): (s: seq<Node<T>>)
    ensures forall i :: 0 <= i < |s| ==> s[i] in Nodes(t)
    ensures forall n :: n in Nodes(t) ==> n in s
  {
    match t
    case Leaf => []
    case Branch(n, l, r) => [n] + PreOrder(l) + PreOrder(r)
  }

  /** p is the first node, root first, with the most hits. */
  ghost predicate FirstHottest<T(!new)>(s: seq<Node<T>>, p: Node<T>)
    reads s
  {
    exists k :: 0 <= k < |s| && s[k] == p
      && (forall i :: 0 <= i < k ==> s[i].hits < p.hits)
      && (forall i :: k <= i < |s| ==> s[i].hits <= p.hits)
  }

  lemma HottestOfTwo<T(!new)>(s: seq<Node<T>>, p: Node<T>, u: seq<Node<T>>, q: Node<T>)
    requires FirstHottest(s, p) && FirstHottest(u, q)
    ensures FirstHottest(s + u, if q.hits > p.hits then q else p)
  {
    var k :| 0 <= k < |s| && s[k] == p
      && (forall i :: 0 <= i < k ==> s[i].hits < p.hits)
      && (forall i :: k <= i < |s| ==> s[i].hits <= p.hits);
    var j :| 0 <= j < |u| && u[j] == q
      && (forall i :: 0 <= i < j ==> u[i].hits < q.hits)
      && (forall i :: j <= i < |u| ==> u[i].hits <= q.hits);
    var at := if q.hits > p.hits then |s| + j else k;
    assert (s + u)[at] == if q.hits > p.hits then q else p;
  }

  lemma HottestOne<T(!new)>(p: Node<T>)
    ensures FirstHottest([p], p)
  {
    assert [p][0] == p;
  }

  /** The hotter of a node and the hottest node, if any, of what follows it. */
  function Hotter<T(!new)>(p: Node<T>, q: Node?<T>): Node<T>
    reads p, q
  {
    if q != null && q.hits > p.hits then q else p
  }

  lemma HottestNext<T(!new)>(s: seq<Node<T>>, p: Node<T>, u: seq<Node<T>>, q: Node?<T>)
    requires FirstHottest(s, p)
    requires if q == null then u == [] else FirstHottest(u, q)
    ensures FirstHottest(s + u, Hotter(p, q))
  {
    if q == null {
      assert s + u == s;
    } else {
      HottestOfTwo(s, p, u, q);
    }
  }

  /** `btree_hittest`: a node with the most hits, the first in pre-order if there are several. */
  function BtreeHittest<T(!new)>(root: Node?<T>, hn: Node?<T>, ghost t: Shape<T>): (p: Node?<T>)
    requires Rep(root, t)
    reads Nodes(t)
    ensures if p == null then root == null && PreOrder(t) == [] else FirstHottest(PreOrder(t), p)
    decreases t
  {
    if root == null then root
    else
      var ml := BtreeHittest(root.left, root, t.left);
      var mr := BtreeHittest(root.right, root, t.right);
      var p1 := Hotter(root, ml);
      HottestOne(root);
      HottestNext([root], root, PreOrder(t.left), ml);
      HottestNext([root] + PreOrder(t.left), p1, PreOrder(t.right), mr);
      Hotter(p1, mr)
  }
}
