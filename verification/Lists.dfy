/** The intrusive circular list of src/list.h, at the level of its next/prev pointers.

    A C structure that embeds a `struct list_head` is one `ListHead<T>` object here:
    `list_entry(pos, ...)` is `pos.entry`.  A list is described by its ring: the sequence of
    nodes met when following `next` once around, starting anywhere (usually at the list head).
 */
module Lists {

  class ListHead<T> {
    var next: ListHead?<T>
    var prev: ListHead?<T>
    var entry: T

    /** INIT_LIST_HEAD on a fresh node: a ring of its own.  The entry of a node that serves as a
        list head is never read. */
    constructor (entry: T)
      ensures this.entry == entry
      ensures Ring([this])
    {
      this.entry := entry;
      next := this;
      prev := this;
    }
  }

  /** The node that follows position i when going around. */
  ghost function After<T>(ring: seq<ListHead<T>>, i: nat): ListHead<T>
    requires i < |ring|
  {
    if i + 1 == |ring| then ring[0] else ring[i + 1]
  }

  /** The node that precedes position i when going around. */
  ghost function Before<T>(ring: seq<ListHead<T>>, i: nat): ListHead<T>
    requires i < |ring|
  {
    if i == 0 then ring[|ring| - 1] else ring[i - 1]
  }

  /** The nodes are distinct and their next and prev pointers form exactly this cycle. */
  ghost predicate Ring<T>(ring: seq<ListHead<T>>)
    reads ring
  {
    && |ring| > 0
    && (forall i, j :: 0 <= i < j < |ring| ==> ring[i] != ring[j])
    && (forall i {:trigger ring[i].next} :: 0 <= i < |ring| ==> ring[i].next == After(ring, i))
    && (forall i {:trigger ring[i].prev} :: 0 <= i < |ring| ==> ring[i].prev == Before(ring, i))
  }

  /** The sequence with x put in at position i. */
  function Insert<X>(s: seq<X>, i: nat, x: X): (r: seq<X>)
    requires i <= |s|
    ensures |r| == |s| + 1
  {
    s[..i] + [x] + s[i..]
  }

  /** The sequence without its element at position i. */
  function Delete<X>(s: seq<X>, i: nat): (r: seq<X>)
    requires i < |s|
    ensures |r| == |s| - 1
  {
    s[..i] + s[i + 1..]
  }

  lemma {:induction false} DeleteInsert<X>(s: seq<X>, i: nat, x: X)
    requires i <= |s|
    ensures Delete(Insert(s, i, x), i) == s
  {
    assert Insert(s, i, x)[..i] == s[..i] && Insert(s, i, x)[i + 1..] == s[i..];
  }

  /** `__list_add`: link `node` between two consecutive nodes. */
  method LinkBetween<T>(node: ListHead<T>, prev: ListHead<T>, next: ListHead<T>)
    requires node != prev && node != next
    modifies node`next, node`prev, prev`next, next`prev
    ensures prev.next == node && node.next == next
    ensures next.prev == node && node.prev == prev
  {
    next.prev := node;
    node.next := next;
    node.prev := prev;
    prev.next := node;
  }

  /** `list_add`: `node` becomes the successor of `head`. */
  method ListAdd<T>(node: ListHead<T>, head: ListHead<T>, ghost ring: seq<ListHead<T>>, ghost k: nat)
    requires Ring(ring) && k < |ring| && ring[k] == head
    requires node !in ring
    modifies node`next, node`prev, head`next, After(ring, k)`prev
    ensures Ring(Insert(ring, k + 1, node))
  {
    LinkBetween(node, head, head.next);
  }

  /** `list_add_tail`: `node` becomes the predecessor of `head`; for the ring's first node that is
      the end of the ring. */
  method ListAddTail<T>(node: ListHead<T>, head: ListHead<T>, ghost ring: seq<ListHead<T>>, ghost k: nat)
    requires Ring(ring) && k < |ring| && ring[k] == head
    requires node !in ring
    modifies node`next, node`prev, head`prev, Before(ring, k)`next
    ensures Ring(Insert(ring, if k == 0 then |ring| else k, node))
  {
    LinkBetween(node, head.prev, head);
  }

  /** `__list_del`, called with the neighbours of one node: the other nodes close up around it. */
  method Unlink<T>(prev: ListHead<T>, next: ListHead<T>, ghost ring: seq<ListHead<T>>, ghost k: nat)
    requires Ring(ring) && 1 < |ring| && k < |ring|
    requires prev == Before(ring, k) && next == After(ring, k)
    modifies prev`next, next`prev
    ensures Ring(Delete(ring, k))
  {
    next.prev := prev;
    prev.next := next;
  }

  /** `list_del`: the other nodes stay linked in the same order and the entry is detached. */
  method ListDel<T>(entry: ListHead<T>, ghost ring: seq<ListHead<T>>, ghost k: nat)
    requires Ring(ring) && 1 < |ring| && k < |ring| && ring[k] == entry
    modifies entry`next, entry`prev, Before(ring, k)`next, After(ring, k)`prev
    ensures Ring(Delete(ring, k))
    ensures entry.next == null && entry.prev == null
  {
    Unlink(entry.prev, entry.next, ring, k);
    entry.next := null;
    entry.prev := null;
  }

  /** `list_del_init`: as `list_del`, but the entry is left as a ring of its own. */
  method ListDelInit<T>(entry: ListHead<T>, ghost ring: seq<ListHead<T>>, ghost k: nat)
    requires Ring(ring) && 1 < |ring| && k < |ring| && ring[k] == entry
    modifies entry`next, entry`prev, Before(ring, k)`next, After(ring, k)`prev
    ensures Ring(Delete(ring, k)) && Ring([entry])
  {
    Unlink(entry.prev, entry.next, ring, k);
    entry.next := entry;
    entry.prev := entry;
  }

  /** `list_move`: the node at position i is taken out of its list and put back right behind the node
      `head`, which is at position j of the same list without the node, or of another list. */
  method ListMove<T>(list: ListHead<T>, head: ListHead<T>, ghost ring: seq<ListHead<T>>, ghost i: nat,
                     ghost to: seq<ListHead<T>>, ghost j: nat)
    requires Ring(ring) && 1 < |ring| && i < |ring| && ring[i] == list
    requires to == Delete(ring, i) || (Ring(to) && forall x :: x in to ==> x !in ring)
    requires j < |to| && to[j] == head
    modifies list`next, list`prev, Before(ring, i)`next, After(ring, i)`prev, head`next, After(to, j)`prev
    ensures Ring(Insert(to, j + 1, list))
    ensures to != Delete(ring, i) ==> Ring(Delete(ring, i))
  {
    ghost var rest := Delete(ring, i);
    assert forall x :: x in rest ==> x in ring && x != list by {
      assert forall k :: 0 <= k < |rest| ==> rest[k] == ring[if k < i then k else k + 1];
    }
    assert Before(ring, i) in ring && After(ring, i) in ring && list in ring;
    Unlink(list.prev, list.next, ring, i);
    assert Ring(to) && After(to, j) in to;
    ListAdd(list, head, to, j);
  }

  /** `list_empty`. */
  method ListEmpty<T>(head: ListHead<T>, ghost ring: seq<ListHead<T>>) returns (empty: bool)
    requires Ring(ring) && ring[0] == head
    ensures empty <==> ring == [head]
  {
    empty := head.next == head;
  }

  /** The ring after `list_splice`: the entries of `from`, without its head, come right behind
      the head of `ring`. */
  ghost function Spliced<X>(from: seq<X>, ring: seq<X>): (all: seq<X>)
    requires 0 < |from| && 0 < |ring|
    ensures |all| == |from| + |ring| - 1
    ensures all[0] == ring[0]
    ensures forall i :: 1 <= i < |from| ==> all[i] == from[i]
    ensures forall i :: |from| <= i < |all| ==> all[i] == ring[i - |from| + 1]
  {
    ring[..1] + from[1..] + ring[1..]
  }

  lemma SplicedDistinct<X>(from: seq<X>, ring: seq<X>)
    requires 0 < |from| && 0 < |ring|
    requires forall i, j :: 0 <= i < j < |from| ==> from[i] != from[j]
    requires forall i, j :: 0 <= i < j < |ring| ==> ring[i] != ring[j]
    requires forall x :: x in from ==> x !in ring
    ensures forall i, j :: 0 <= i < j < |Spliced(from, ring)| ==> Spliced(from, ring)[i] != Spliced(from, ring)[j]
    ensures from[0] !in Spliced(from, ring)
  {
    var all := Spliced(from, ring);
    assert forall i :: 0 <= i < |ring| ==> ring[i] !in from;
    assert forall i, j :: 1 <= i < |from| && |from| <= j < |all| ==> all[i] != all[j];
    assert forall i :: 0 < i < |all| ==> all[i] != from[0];
  }

  /** `__list_splice`. */
  method Splice<T>(list: ListHead<T>, head: ListHead<T>, ghost from: seq<ListHead<T>>, ghost ring: seq<ListHead<T>>)
    requires Ring(from) && from[0] == list && 1 < |from|
    requires Ring(ring) && ring[0] == head
    requires forall x :: x in from ==> x !in ring
    modifies After(from, 0)`prev, Before(from, 0)`next, head`next, After(ring, 0)`prev
    ensures Ring(Spliced(from, ring)) && list !in Spliced(from, ring)
  {
    var first := list.next;
    var last := list.prev;
    var at := head.next;
    first.prev := head;
    head.next := first;
    last.next := at;
    at.prev := last;
    SplicedDistinct(from, ring);
    ghost var all := Spliced(from, ring);
    assert forall i :: 1 <= i < |from| ==> from[i] !in ring;
    assert forall i :: 0 <= i < |ring| ==> ring[i] !in from;
  }

  /** `list_splice`: nothing happens when the spliced list is empty. */
  method ListSplice<T>(list: ListHead<T>, head: ListHead<T>, ghost from: seq<ListHead<T>>, ghost ring: seq<ListHead<T>>)
    requires Ring(from) && from[0] == list
    requires Ring(ring) && ring[0] == head
    requires forall x :: x in from ==> x !in ring
    modifies After(from, 0)`prev, Before(from, 0)`next, head`next, After(ring, 0)`prev
    ensures Ring(Spliced(from, ring))
    ensures |from| == 1 ==> unchanged(ring) && unchanged(list)
  {
    var empty := ListEmpty(list, from);
    if !empty {
      Splice(list, head, from, ring);
    } else {
      assert Spliced(from, ring) == ring;
    }
  }

  /** `list_splice_init`: as `list_splice`, and the spliced list is left empty. */
  method ListSpliceInit<T>(list: ListHead<T>, head: ListHead<T>,
                           ghost from: seq<ListHead<T>>, ghost ring: seq<ListHead<T>>)
    requires Ring(from) && from[0] == list
    requires Ring(ring) && ring[0] == head
    requires forall x :: x in from ==> x !in ring
    modifies After(from, 0)`prev, Before(from, 0)`next, head`next, After(ring, 0)`prev, list`next, list`prev
    ensures Ring(Spliced(from, ring))
    ensures Ring([list])
  {
    var empty := ListEmpty(list, from);
    if !empty {
      Splice(list, head, from, ring);
      list.next := list;
      list.prev := list;
    } else {
      assert Spliced(from, ring) == ring;
    }
  }
}
