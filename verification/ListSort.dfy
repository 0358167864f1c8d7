/** The in-place list sort that src/ranges.c and src/trace.c share.

    Both files run the same two nested `list_for_each_safe` walks over one list and move nodes
    while both walks hold saved successors.  The sort is written once here, over the key that each
    of them compares (`from` and `addr`).
 */
module ListSort {
  import opened Lists

  /** The entries behind the head, in list order. */
  ghost function Entries<T>(ring: seq<ListHead<T>>): (es: seq<T>)
    requires 0 < |ring|
    reads ring
    ensures |es| == |ring| - 1
    ensures forall i {:trigger es[i]} :: 0 <= i < |es| ==> es[i] == ring[i + 1].entry
  {
    seq(|ring| - 1, i requires 0 <= i < |ring| - 1 reads ring => ring[i + 1].entry)
  }

  predicate SortedBy<T>(es: seq<T>, key: T -> int) {
    forall i, j :: 0 <= i < j < |es| ==> key(es[i]) <= key(es[j])
  }

  /** The keys of a run of nodes. */
  ghost function Keys<T>(nodes: seq<ListHead<T>>, key: T -> int): (ks: seq<int>)
    reads nodes
    ensures |ks| == |nodes|
    ensures forall i {:trigger ks[i]} :: 0 <= i < |ks| ==> ks[i] == key(nodes[i].entry)
  {
    seq(|nodes|, i requires 0 <= i < |nodes| reads nodes => key(nodes[i].entry))
  }

  /** Where the inner walk has put the moved node, seen from the keys of the other nodes: it
      stands at gap g, and among the first k nodes everything from g on has a key of at least x,
      while the node in front of the gap has a smaller one unless the node never left its first
      gap g0. */
  ghost predicate Placed(keys: seq<int>, x: int, k: nat, g: nat, g0: nat, moved: bool) {
    && 1 <= k <= |keys| && 1 <= g <= |keys|
    && (if moved then
          && 2 <= g <= k
          && keys[g - 1] < x
          && forall j :: g <= j < k ==> keys[j] >= x
        else
          && g == g0
          && forall j :: 1 <= j < k ==> keys[j] >= x)
  }

  lemma PlacedStep(keys: seq<int>, x: int, k: nat, g: nat, g0: nat, moved: bool)
    requires Placed(keys, x, k, g, g0, moved) && k < |keys|
    ensures if x > keys[k] then Placed(keys, x, k + 1, k + 1, g0, true) else Placed(keys, x, k + 1, g, g0, moved)
  {
  }

  /** The node at position k of `base`, where position |base| is the head again. */
  ghost function At<T>(base: seq<ListHead<T>>, k: nat): ListHead<T>
    requires 1 <= k <= |base|
  {
    if k < |base| then base[k] else base[0]
  }

  /** What follows `pos2` in `base` with x put in at gap g, when `pos2` is x or the node at k. */
  ghost function Following<T>(base: seq<ListHead<T>>, x: ListHead<T>, g: nat, k: nat, pos2: ListHead<T>): ListHead<T>
    requires 1 <= g <= |base| && 1 <= k <= |base|
    requires pos2 == x || k < |base|
  {
    if pos2 == x then At(base, g) else if g == k + 1 then x else At(base, k + 1)
  }

  lemma NextAround<T>(base: seq<ListHead<T>>, x: ListHead<T>, g: nat, k: nat, pos2: ListHead<T>)
    requires 1 <= g <= |base| && 1 <= k <= |base|
    requires Ring(Insert(base, g, x))
    requires pos2 == x || (k < |base| && pos2 == base[k])
    ensures pos2 != base[0] && x !in base
    ensures pos2.next == Following(base, x, g, k, pos2)
  {
    var out := Insert(base, g, x);
    assert out[g] == x;
    assert forall i :: 0 <= i < g ==> base[i] == out[i];
    assert forall i :: g <= i < |base| ==> base[i] == out[i + 1];
    assert x.next == After(out, g);
    if pos2 == x {
    } else if k < g {
      assert out[k].next == After(out, k);
    } else {
      assert out[k + 1].next == After(out, k + 1);
    }
  }

  /** The inner walk is at `pos2`, the node at k of `base` or x itself in front of it, and has saved
      the successor `n2`; k == |base| means that it is back at the head. */
  ghost predicate Cursor<T>(base: seq<ListHead<T>>, x: ListHead<T>, g: nat, k: nat, pos2: ListHead<T>, n2: ListHead<T>)
    reads base, x
  {
    && 1 <= k <= |base| && 1 <= g <= |base|
    && Ring(Insert(base, g, x))
    && (pos2 == At(base, k) || (pos2 == x && g == k))
    && (pos2 != base[0] ==> (pos2 == x || k < |base|) && n2 == Following(base, x, g, k, pos2))
  }

  lemma AtStart<T>(ring: seq<ListHead<T>>, p: nat)
    requires Ring(ring) && 1 <= p < |ring|
    ensures Insert(Delete(ring, p), p, ring[p]) == ring
    ensures ring[0].next != null && ring[0].next.next != null
    ensures Cursor(Delete(ring, p), ring[p], p, 1, ring[0].next, ring[0].next.next)
  {
    var base, x := Delete(ring, p), ring[p];
    assert Insert(base, p, x) == ring;
    assert ring[0].next == After(ring, 0) == ring[1];
    NextAround(base, x, p, 1, ring[1]);
  }

  lemma {:induction false} KeysDelete<T>(ring: seq<ListHead<T>>, key: T -> int, p: nat)
    requires p < |ring|
    ensures Keys(Delete(ring, p), key) == Delete(Keys(ring, key), p)
  {
    forall i | 0 <= i < |ring| - 1
      ensures Keys(Delete(ring, p), key)[i] == Delete(Keys(ring, key), p)[i]
    {
      assert Delete(ring, p)[i] == ring[if i < p then i else i + 1];
    }
  }

  lemma AtEnd<T>(base: seq<ListHead<T>>, x: ListHead<T>, g: nat, k: nat, pos2: ListHead<T>, n2: ListHead<T>)
    requires Cursor(base, x, g, k, pos2, n2) && pos2 == base[0]
    ensures k == |base|
  {
    NextAround(base, x, g, |base|, x);
    if k < |base| {
      NextAround(base, x, g, k, base[k]);
    }
  }

  /** The `list_move` of the inner walk. */
  method MoveBehind<T>(pos: ListHead<T>, pos2: ListHead<T>, ghost key: T -> int,
                       ghost base: seq<ListHead<T>>, ghost g: nat, ghost k: nat)
    requires 1 <= g <= |base| && 1 <= k < |base| && base[k] == pos2
    requires Ring(Insert(base, g, pos))
    modifies (set x | x in base)`next, (set x | x in base)`prev, pos`next, pos`prev
    ensures Ring(Insert(base, k + 1, pos))
    ensures Keys(base, key) == old(Keys(base, key))
  {
    ghost var out := Insert(base, g, pos);
    DeleteInsert(base, g, pos);
    assert forall x :: x in out <==> x in base || x == pos;
    ListMove(pos, pos2, out, g, base, k);
    assert Keys(base, key) == old(Keys(base, key));
  }

  /** One visit of the inner walk: `list_move` the node behind `pos2` when that has a smaller key,
      then step to the saved successor. */
  method Visit<T>(pos: ListHead<T>, pos2: ListHead<T>, n2: ListHead<T>, key: T -> int, moved: bool,
                  ghost base: seq<ListHead<T>>, ghost g: nat, ghost k: nat, ghost g0: nat)
    returns (moved': bool, after: ListHead<T>, ghost g': nat, ghost k': nat)
    requires Cursor(base, pos, g, k, pos2, n2) && pos2 != base[0]
    requires Placed(Keys(base, key), key(pos.entry), k, g, g0, moved)
    modifies (set x | x in base)`next, (set x | x in base)`prev, pos`next, pos`prev
    ensures Keys(base, key) == old(Keys(base, key))
    ensures k' == if pos2 == pos then k else k + 1
    ensures Cursor(base, pos, g', k', n2, after) && after == n2.next
    ensures Placed(Keys(base, key), key(pos.entry), k', g', g0, moved')
  {
    NextAround(base, pos, g, k, pos2);
    moved', g', k' := moved, g, if pos2 == pos then k else k + 1;
    if pos != pos2 {
      PlacedStep(Keys(base, key), key(pos.entry), k, g, g0, moved);
      if key(pos.entry) > key(pos2.entry) {
        MoveBehind(pos, pos2, key, base, g, k);
        moved', g' := true, k + 1;
      }
    }
    if n2 != base[0] {
      NextAround(base, pos, g', k', n2);
    } else {
      assert base[0] == Insert(base, g', pos)[0];
    }
    after := n2.next;
  }

  /** The sequence with its element at position p taken out and put back at position g. */
  function Moved<X>(s: seq<X>, p: nat, g: nat): (r: seq<X>)
    requires p < |s| && g < |s|
    ensures |r| == |s|
  {
    Insert(Delete(s, p), g, s[p])
  }

  /** The inner walk of the sort: while going once around the list, move `pos` behind every node
      with a smaller key.  p is the position of `pos`; in the result it stands at position g. */
  method MovePass<T>(head: ListHead<T>, pos: ListHead<T>, key: T -> int, ghost ring: seq<ListHead<T>>, ghost p: nat)
    returns (moved: bool, ghost g: nat)
    requires Ring(ring) && ring[0] == head
    requires 1 <= p < |ring| && ring[p] == pos
    modifies (set x | x in ring)`next, (set x | x in ring)`prev
    ensures 1 <= g < |ring|
    ensures Ring(Moved(ring, p, g))
    ensures Keys(ring, key) == old(Keys(ring, key)) && Entries(ring) == old(Entries(ring))
    ensures Placed(Delete(Keys(ring, key), p), Keys(ring, key)[p], |ring| - 1, g, p, moved)
  {
    moved := false;
    g := p;
    ghost var base := Delete(ring, p);
    ghost var k := 1;
    AtStart(ring, p);
    var pos2: ListHead<T> := head.next;
    var n2: ListHead<T> := pos2.next;
    while pos2 != head
      invariant Cursor(base, pos, g, k, pos2, n2)
      invariant Placed(Keys(base, key), key(pos.entry), k, g, p, moved)
      decreases |base| - k, pos2 == pos
    {
      var after;
      moved, after, g, k := Visit(pos, pos2, n2, key, moved, base, g, k, p);
      pos2, n2 := n2, after;
    }
    AtEnd(base, pos, g, k, pos2, n2);
    KeysDelete(ring, key, p);
    assert Keys(ring, key) == old(Keys(ring, key));
  }

  /** Every visited node but the head has only keys of at least its own behind it. */
  ghost predicate Settled<X>(ring: seq<X>, keys: seq<int>, visited: set<X>)
    requires |ring| == |keys|
  {
    forall i, j :: 1 <= i < j < |ring| && ring[i] in visited ==> keys[i] <= keys[j]
  }

  lemma {:induction false} MovedElements<X>(s: seq<X>, p: nat, g: nat)
    requires p < |s| && g < |s|
    ensures multiset(Moved(s, p, g)) == multiset(s)
    ensures forall x :: x in Moved(s, p, g) <==> x in s
  {
    var base := Delete(s, p);
    assert s == s[..p] + [s[p]] + s[p + 1..];
    assert base == base[..g] + base[g..];
    assert multiset(Moved(s, p, g)) == multiset(base) + multiset{s[p]};
    forall x
      ensures x in Moved(s, p, g) <==> x in s
    {
      assert x in Moved(s, p, g) <==> x in multiset(Moved(s, p, g));
      assert x in s <==> x in multiset(s);
    }
  }

  /** Where the element at position i of Moved(s, p, g) stood before the move. */
  function Origin(p: nat, g: nat, i: nat): nat {
    if i == g then p
    else
      var b := if i < g then i else i - 1;
      if b < p then b else b + 1
  }

  lemma MovedAt<X>(s: seq<X>, p: nat, g: nat, i: nat)
    requires p < |s| && g < |s| && i < |s|
    ensures Origin(p, g, i) < |s| && Moved(s, p, g)[i] == s[Origin(p, g, i)]
  {
  }

  lemma SettledPair(keys: seq<int>, p: nat, g: nat, moved: bool, i: nat, j: nat)
    requires 1 <= p < |keys| && 1 <= g < |keys| && 1 <= i < j < |keys|
    requires Placed(Delete(keys, p), keys[p], |keys| - 1, g, p, moved)
    requires i != g ==> forall k :: Origin(p, g, i) < k < |keys| ==> keys[Origin(p, g, i)] <= keys[k]
    ensures Moved(keys, p, g)[i] <= Moved(keys, p, g)[j]
  {
    var base := Delete(keys, p);
    MovedAt(keys, p, g, i);
    MovedAt(keys, p, g, j);
    if i == g {
      assert base[j - 1] >= keys[p];
    } else if j == g && p < Origin(p, g, i) {
      assert moved && base[g - 1] < keys[p];
      MovedAt(keys, p, g, g - 1);
    }
  }

  /** One pass settles the node it moved and keeps all visited nodes settled. */
  lemma {:induction false} SettledAfterPass<X>(ring: seq<X>, keys: seq<int>, visited: set<X>,
                                               p: nat, g: nat, moved: bool)
    requires |ring| == |keys| && 1 <= p < |ring| && 1 <= g < |ring|
    requires forall i, j :: 0 <= i < j < |ring| ==> ring[i] != ring[j]
    requires Settled(ring, keys, visited)
    requires Placed(Delete(keys, p), keys[p], |ring| - 1, g, p, moved)
    ensures Settled(Moved(ring, p, g), Moved(keys, p, g), visited + {ring[p]})
  {
    var out := Moved(ring, p, g);
    forall i, j | 1 <= i < j < |out| && out[i] in visited + {ring[p]}
      ensures Moved(keys, p, g)[i] <= Moved(keys, p, g)[j]
    {
      MovedAt(ring, p, g, i);
      SettledPair(keys, p, g, moved, i, j);
    }
  }

  /** A visited node never moves towards the end. */
  lemma VisitedStays<X>(ring: seq<X>, keys: seq<int>, visited: set<X>, p: nat, g: nat, moved: bool)
    requires |ring| == |keys| && 1 <= p < |ring| && 1 <= g < |ring|
    requires Settled(ring, keys, visited) && ring[p] in visited
    requires Placed(Delete(keys, p), keys[p], |ring| - 1, g, p, moved)
    ensures g <= p
  {
    forall j | p <= j < |ring| - 1
      ensures keys[p] <= Delete(keys, p)[j]
    {
      assert Delete(keys, p)[j] == keys[j + 1];
    }
  }

  /** No visited node but the head has a key above another node's. */
  ghost predicate Lowest<X>(ring: seq<X>, keys: seq<int>, visited: set<X>)
    requires |ring| == |keys|
  {
    forall i, j :: 1 <= i < |ring| && 1 <= j < |ring| && ring[i] in visited ==> keys[i] <= keys[j]
  }

  /** A pass that moves nothing has seen no smaller key. */
  lemma LowestAfterQuietPass<X>(ring: seq<X>, keys: seq<int>, visited: set<X>, p: nat, g: nat)
    requires |ring| == |keys| && 1 <= p < |ring| && 1 <= g < |ring|
    requires forall i, j :: 0 <= i < j < |ring| ==> ring[i] != ring[j]
    requires Lowest(ring, keys, visited)
    requires Placed(Delete(keys, p), keys[p], |ring| - 1, g, p, false)
    ensures Moved(ring, p, g) == ring && Moved(keys, p, g) == keys
    ensures Lowest(ring, keys, visited + {ring[p]})
  {
    forall j | 1 <= j < |ring|
      ensures keys[p] <= keys[j]
    {
      if j != p {
        assert Delete(keys, p)[if j < p then j else j - 1] == keys[j];
      }
    }
  }

  /** Some two nodes carry different keys. */
  ghost predicate KeysDiffer<T>(nodes: set<ListHead<T>>, key: T -> int)
    reads nodes`entry
  {
    exists a, b :: a in nodes && b in nodes && key(a.entry) < key(b.entry)
  }

  /** What the outer walk knows: p is the position of its `pos`, everything in front of p has been
      visited, and visited nodes are settled. */
  ghost predicate Walked<X>(ring: seq<X>, keys: seq<int>, visited: set<X>, p: nat, changed: bool)
    requires |ring| == |keys|
  {
    && 1 <= p <= |ring|
    && (forall i :: 1 <= i < p ==> ring[i] in visited)
    && Settled(ring, keys, visited)
    && (!changed ==> Lowest(ring, keys, visited))
  }

  /** The position of the saved successor once the node at p has moved to g. */
  function NextPosition(p: nat, g: nat): nat {
    if g <= p then p + 1 else p
  }

  lemma {:induction false} WalkedStep<X>(ring: seq<X>, keys: seq<int>, visited: set<X>,
                                         p: nat, g: nat, changed: bool, moved: bool)
    requires |ring| == |keys| && p < |ring| && 1 <= g < |ring|
    requires forall i, j :: 0 <= i < j < |ring| ==> ring[i] != ring[j]
    requires Walked(ring, keys, visited, p, changed)
    requires Placed(Delete(keys, p), keys[p], |ring| - 1, g, p, moved)
    ensures Walked(Moved(ring, p, g), Moved(keys, p, g), visited + {ring[p]}, NextPosition(p, g), changed || moved)
    ensures ring[p] in visited ==> NextPosition(p, g) == p + 1
    ensures p + 1 < |ring| ==> NextPosition(p, g) < |ring| && Moved(ring, p, g)[NextPosition(p, g)] == ring[p + 1]
    ensures p + 1 == |ring| ==> NextPosition(p, g) == |ring|
  {
    var out := Moved(ring, p, g);
    SettledAfterPass(ring, keys, visited, p, g, moved);
    if ring[p] in visited {
      VisitedStays(ring, keys, visited, p, g, moved);
    }
    if !changed && !moved {
      LowestAfterQuietPass(ring, keys, visited, p, g);
    }
    forall i | 1 <= i < NextPosition(p, g)
      ensures out[i] in visited + {ring[p]}
    {
      MovedAt(ring, p, g, i);
    }
  }

  lemma {:induction false} KeysMoved<T>(ring: seq<ListHead<T>>, key: T -> int, p: nat, g: nat)
    requires p < |ring| && g < |ring|
    ensures Keys(Moved(ring, p, g), key) == Moved(Keys(ring, key), p, g)
  {
    var keys, movedKeys := Keys(ring, key), Keys(Moved(ring, p, g), key);
    forall i | 0 <= i < |ring|
      ensures movedKeys[i] == Moved(keys, p, g)[i]
    {
      MovedAt(ring, p, g, i);
      MovedAt(keys, p, g, i);
    }
  }

  lemma {:induction false} EntriesMoved<T>(ring: seq<ListHead<T>>, p: nat, g: nat)
    requires 1 <= p < |ring| && 1 <= g < |ring|
    ensures Entries(Moved(ring, p, g)) == Moved(Entries(ring), p - 1, g - 1)
  {
    var es, out := Entries(ring), Moved(ring, p, g);
    var movedEs, esMoved := Entries(out), Moved(es, p - 1, g - 1);
    forall i | 0 <= i < |es|
      ensures movedEs[i] == esMoved[i]
    {
      var o := Origin(p - 1, g - 1, i);
      MovedAt(ring, p, g, i + 1);
      MovedAt(es, p - 1, g - 1, i);
      assert out[i + 1] == ring[o + 1];
      assert movedEs[i] == out[i + 1].entry && es[o] == ring[o + 1].entry;
    }
  }

  lemma {:induction false} SameNodes<X>(a: seq<X>, b: seq<X>)
    requires multiset(a) == multiset(b) && |a| > 0 && |b| > 0 && a[0] == b[0]
    ensures forall x :: x in a <==> x in b
    ensures (set x | x in a[1..]) == (set x | x in b[1..])
  {
    assert multiset(a[1..]) == multiset(b[1..]) by {
      assert a == [a[0]] + a[1..] && b == [b[0]] + b[1..];
      assert multiset(a[1..]) == multiset(a) - multiset{a[0]} == multiset(b[1..]);
    }
    forall x
      ensures (x in a <==> x in b) && (x in a[1..] <==> x in b[1..])
    {
      assert x in a <==> x in multiset(a);
      assert x in b <==> x in multiset(b);
      assert x in a[1..] <==> x in multiset(a[1..]);
      assert x in b[1..] <==> x in multiset(b[1..]);
    }
  }

  lemma MovedKeysDiffer<T>(ring: seq<ListHead<T>>, key: T -> int, p: nat, g: nat, g0: nat)
    requires 1 <= p < |ring|
    requires Placed(Delete(Keys(ring, key), p), Keys(ring, key)[p], |ring| - 1, g, g0, true)
    ensures KeysDiffer((set x | x in ring[1..]), key)
  {
    var i := if g - 1 < p then g - 1 else g;
    assert Delete(Keys(ring, key), p)[g - 1] == Keys(ring, key)[i];
    assert ring[i] == ring[1..][i - 1];
    assert ring[p] == ring[1..][p - 1];
  }

  lemma WalkedAll<T>(ring: seq<ListHead<T>>, key: T -> int, visited: set<ListHead<T>>, changed: bool)
    requires |ring| > 0 && Walked(ring, Keys(ring, key), visited, |ring|, changed)
    ensures SortedBy(Entries(ring), key)
    ensures !changed ==> !KeysDiffer((set x | x in ring[1..]), key)
  {
    var keys := Keys(ring, key);
    forall i, j | 0 <= i < j < |ring| - 1
      ensures key(Entries(ring)[i]) <= key(Entries(ring)[j])
    {
      assert keys[i + 1] <= keys[j + 1];
    }
    if !changed {
      forall a, b | a in ring[1..] && b in ring[1..]
        ensures key(a.entry) <= key(b.entry)
      {
        var i :| 1 <= i < |ring| && ring[i] == a;
        var j :| 1 <= j < |ring| && ring[j] == b;
        assert keys[i] <= keys[j];
      }
    }
  }

  /** The inner walk permutes the nodes and their entries. */
  lemma {:induction false} PassPermutes<T>(ring: seq<ListHead<T>>, p: nat, g: nat)
    requires 1 <= p < |ring| && 1 <= g < |ring|
    ensures multiset(Moved(ring, p, g)) == multiset(ring)
    ensures multiset(Entries(Moved(ring, p, g))) == multiset(Entries(ring))
  {
    MovedElements(ring, p, g);
    EntriesPermuted(ring, p, g);
  }

  lemma {:induction false} EntriesPermuted<T>(ring: seq<ListHead<T>>, p: nat, g: nat)
    requires 1 <= p < |ring| && 1 <= g < |ring|
    ensures multiset(Entries(Moved(ring, p, g))) == multiset(Entries(ring))
  {
    var es, out := Entries(ring), Moved(ring, p, g);
    EntriesMoved(ring, p, g);
    MovedElements(es, p - 1, g - 1);
    assert Entries(out) == Moved(es, p - 1, g - 1);
  }

  /** One turn of the outer walk: run the inner walk for the node at position p.  The new ring and
      the position of the node that followed it come out along with what the walk now knows. */
  method Settle<T>(head: ListHead<T>, pos: ListHead<T>, key: T -> int, ghost ring: seq<ListHead<T>>,
                   ghost visited: set<ListHead<T>>, ghost p: nat, ghost changed: bool)
    returns (moved: bool, ghost out: seq<ListHead<T>>, ghost p': nat)
    requires Ring(ring) && ring[0] == head
    requires p < |ring| && Walked(ring, Keys(ring, key), visited, p, changed) && ring[p] == pos
    modifies (set x | x in ring)`next, (set x | x in ring)`prev
    ensures Ring(out) && out[0] == head && |out| == |ring|
    ensures multiset(out) == multiset(ring)
    ensures multiset(Entries(out)) == multiset(old(Entries(ring)))
    ensures Walked(out, Keys(out, key), visited + {pos}, p', changed || moved)
    ensures At(out, p') == At(ring, p + 1)
    ensures pos in visited ==> p' == p + 1
    ensures moved ==> KeysDiffer((set x | x in ring[1..]), key)
  {
    ghost var g: nat;
    moved, g := MovePass(head, pos, key, ring, p);
    out, p' := Moved(ring, p, g), NextPosition(p, g);
    PassPermutes(ring, p, g);
    assert Walked(out, Keys(out, key), visited + {pos}, p', changed || moved)
      && At(out, p') == At(ring, p + 1)
      && (pos in visited ==> p' == p + 1)
    by {
      WalkedStep(ring, Keys(ring, key), visited, p, g, changed, moved);
      KeysMoved(ring, key, p, g);
    }
    if moved {
      MovedKeysDiffer(ring, key, p, g, p);
    }
  }

  /** `ranges_sort` and `trace_sort` once past their changed-flag test.  The list comes out as a
      ring of the same nodes in ascending key order, and the returned flag says whether any node
      was relinked, which is whether not all keys are equal. */
  method SortByKey<T>(head: ListHead<T>, key: T -> int, ghost ring: seq<ListHead<T>>)
    returns (changed: bool, ghost out: seq<ListHead<T>>)
    requires Ring(ring) && ring[0] == head
    modifies (set x | x in ring)`next, (set x | x in ring)`prev
    ensures Ring(out) && out[0] == head
    ensures multiset(out) == multiset(ring)
    ensures multiset(Entries(out)) == multiset(old(Entries(ring)))
    ensures SortedBy(Entries(out), key)
    ensures changed <==> KeysDiffer((set x | x in ring[1..]), key)
  {
    changed := false;
    out := ring;
    ghost var nodes := set x | x in ring[1..];
    ghost var visited: set<ListHead<T>> := {};
    ghost var todo := nodes;
    ghost var p: nat := 1;
    var pos := head.next;
    var n := pos.next;
    while pos != head
      invariant Ring(out) && out[0] == head
      invariant multiset(out) == multiset(ring)
      invariant multiset(Entries(out)) == multiset(old(Entries(ring)))
      invariant Walked(out, Keys(out, key), visited, p, changed)
      invariant pos == At(out, p) && n == pos.next
      invariant changed ==> KeysDiffer(nodes, key)
      invariant todo == nodes - visited && |out| == |ring|
      decreases todo, |ring| - p
    {
      ghost var x, after := out[p], At(out, p + 1);
      SameNodes(out, ring);
      assert n == after && x in out[1..] by {
        assert x == out[1..][p - 1];
      }
      var moved: bool;
      moved, out, p := Settle(head, pos, key, out, visited, p, changed);
      assert x in visited ==> todo - {x} == todo;
      assert x !in visited ==> x in todo;
      visited, todo := visited + {x}, todo - {x};
      changed := changed || moved;
      pos := n;
      n := pos.next;
    }
    SameNodes(out, ring);
    WalkedAll(out, key, visited, changed);
  }
}
