/** `program_block_split_new` of src/rdb.c as a function on the list of blocks. */
module BlockSplit {
  import opened Collections
  import opened Machine

  /** `BLK_TYPE_*`. */
  datatype BlockKind = Head | Body | Last | Foot

  /** The fields of `struct block_t`. */
  datatype BlockData = BlockData(addr: U64, size: nat, bytes: seq<Byte>, tnext: U64, fnext: U64, kind: BlockKind,
                                 calls: seq<U64>)

  /** `block_new`. */
  function NewBlock(addr: U64): BlockData {
    BlockData(addr, 0, [], 0, 0, Head, [])
  }

  function Wrap(a: nat): U64 {
    a % (U64_MAX + 1)
  }

  /** The end of a block in 64-bit arithmetic. */
  function End(b: BlockData): (e: U64)
    ensures b.addr + b.size <= U64_MAX ==> e == b.addr + b.size
  {
    Wrap(b.addr + b.size)
  }

  predicate StrictlyInside(b: BlockData, a: U64) {
    a > b.addr && a < End(b)
  }

  /** The block holds at least as many bytes as it says, and is smaller than the address space.  It may reach past
      the last address; then its end wraps around, and no address counts as strictly inside. */
  predicate Sound(b: BlockData) {
    b.size <= |b.bytes| && b.size <= U64_MAX
  }

  predicate AllSound(s: seq<BlockData>) {
    forall i :: 0 <= i < |s| ==> Sound(s[i])
  }

  predicate UniqueAddr(s: seq<BlockData>) {
    forall i, j :: 0 <= i < j < |s| ==> s[i].addr != s[j].addr
  }

  /** The last of the first k blocks that has the address strictly inside, or -1. */
  function FindInside(s: seq<BlockData>, a: U64, k: nat): (i: int)
    requires k <= |s|
    ensures -1 <= i < k
    ensures i >= 0 ==> StrictlyInside(s[i], a)
    ensures forall j :: i < j < k ==> !StrictlyInside(s[j], a)
  {
    if k == 0 then -1 else if StrictlyInside(s[k - 1], a) then k - 1 else FindInside(s, a, k - 1)
  }

  /** The last of the first k blocks that starts at the address, or -1. */
  function FindStart(s: seq<BlockData>, a: U64, k: nat): (i: int)
    requires k <= |s|
    ensures -1 <= i < k
    ensures i >= 0 ==> s[i].addr == a
    ensures forall j :: i < j < k ==> s[j].addr != a
  {
    if k == 0 then -1 else if s[k - 1].addr == a then k - 1 else FindStart(s, a, k - 1)
  }

  /** The front part of the split block. */
  function Front(b: BlockData, a: U64): BlockData
    requires a >= b.addr
  {
    b.(size := a - b.addr, tnext := a, fnext := 0, kind := Head)
  }

  /** The block at the split point once it has taken over the tail of b. */
  function Tail(b: BlockData, a: U64, old': BlockData): BlockData
    requires b.addr < a < b.addr + b.size && b.size <= |b.bytes|
  {
    old'.(size := b.size - (a - b.addr), tnext := b.tnext, fnext := b.fnext, bytes := b.bytes[a - b.addr..b.size])
  }

  /** The list after `program_block_split_new`. */
  function Split(s: seq<BlockData>, a: U64): seq<BlockData>
    requires AllSound(s)
  {
    var i := FindInside(s, a, |s|);
    if i < 0 then s
    else
      var j := FindStart(s, a, |s|);
      var front := s[i := Front(s[i], a)];
      if j < 0 then front + [Tail(s[i], a, NewBlock(a))] else front[j := Tail(s[i], a, s[j])]
  }

  // ----- bytes

  /** The bytes of every block are those of one memory. */
  ghost predicate Imaged(s: seq<BlockData>, mem: int -> Byte) {
    forall i, k :: 0 <= i < |s| && 0 <= k < s[i].size && s[i].size <= |s[i].bytes| ==>
      s[i].bytes[k] == mem(s[i].addr + k)
  }

  lemma {:induction false} SplitKeepsSound(s: seq<BlockData>, a: U64)
    requires AllSound(s)
    ensures AllSound(Split(s, a))
  {
  }

  /** Splitting copies bytes to where they belong. */
  lemma {:induction false} SplitKeepsImage(s: seq<BlockData>, a: U64, mem: int -> Byte)
    requires AllSound(s) && Imaged(s, mem)
    ensures AllSound(Split(s, a)) && Imaged(Split(s, a), mem)
  {
    SplitKeepsSound(s, a);
    var t := Split(s, a);
    var i, j := FindInside(s, a, |s|), FindStart(s, a, |s|);
    if i >= 0 {
      var e := if j < 0 then |s| else j;
      forall k, m | 0 <= k < |t| && 0 <= m < t[k].size
        ensures t[k].bytes[m] == mem(t[k].addr + m)
      {
        if k == e {
          assert t[k].bytes[m] == s[i].bytes[a - s[i].addr + m];
        } else if k == i {
          assert t[k] == Front(s[i], a);
        } else {
          assert t[k] == s[k];
        }
      }
    }
  }

  lemma SplitKeepsUnique(s: seq<BlockData>, a: U64)
    requires AllSound(s) && UniqueAddr(s)
    ensures UniqueAddr(Split(s, a))
  {
  }

  // ----- coverage

  predicate CoversAddr(b: BlockData, x: int) {
    b.addr <= x < b.addr + b.size
  }

  ghost predicate Covered(s: seq<BlockData>, x: int) {
    exists i :: 0 <= i < |s| && CoversAddr(s[i], x)
  }

  /** The addresses that splitting may uncover: behind the split block, in the block that started at
      the split point, and in no other block. */
  ghost predicate Exposed(s: seq<BlockData>, a: U64, x: int) {
    var i, j := FindInside(s, a, |s|), FindStart(s, a, |s|);
    && i >= 0 && j >= 0
    && s[i].addr + s[i].size <= x && CoversAddr(s[j], x)
    && forall k :: 0 <= k < |s| && k != j ==> !CoversAddr(s[k], x)
  }

  /** Splitting uncovers exactly the exposed addresses, and covers none. */
  lemma SplitCovers(s: seq<BlockData>, a: U64, x: int)
    requires AllSound(s)
    ensures Covered(Split(s, a), x) <==> Covered(s, x) && !Exposed(s, a, x)
  {
    var t := Split(s, a);
    var i, j := FindInside(s, a, |s|), FindStart(s, a, |s|);
    if i >= 0 {
      var e := if j < 0 then |s| else j;
      assert forall k :: 0 <= k < |s| && k != i && k != j ==> t[k] == s[k];
      assert t[i] == Front(s[i], a);
      assert CoversAddr(s[i], x) <==> CoversAddr(t[i], x) || CoversAddr(t[e], x);
      if Covered(t, x) {
        var k :| 0 <= k < |t| && CoversAddr(t[k], x);
        if k != e {
          assert CoversAddr(s[k], x);
        } else {
          assert CoversAddr(s[i], x);
        }
      }
      if Covered(s, x) && !Exposed(s, a, x) {
        var k :| 0 <= k < |s| && CoversAddr(s[k], x);
        if CoversAddr(s[i], x) {
        } else if k != j {
          assert CoversAddr(t[k], x);
        } else if x < s[i].addr + s[i].size {
          assert false;
        } else {
          var k2 :| 0 <= k2 < |s| && k2 != j && CoversAddr(s[k2], x);
          assert CoversAddr(t[k2], x);
        }
      }
    }
  }

  /** Splitting leaves the covered addresses alone if and only if every address behind the split
      block that the block at the split point covers is covered by a third block too. */
  lemma SplitKeepsCoverage(s: seq<BlockData>, a: U64)
    requires AllSound(s)
    ensures (forall x :: Covered(Split(s, a), x) <==> Covered(s, x)) <==> (forall x :: !Exposed(s, a, x))
  {
    forall x
      ensures Covered(Split(s, a), x) <==> Covered(s, x) && !Exposed(s, a, x)
    {
      SplitCovers(s, a, x);
    }
    forall x | Exposed(s, a, x)
      ensures Covered(s, x)
    {
      assert CoversAddr(s[FindStart(s, a, |s|)], x);
    }
  }

  /** In particular when the block at the split point ends where the split block ends, or there is
      none. */
  lemma SplitAtSameEnd(s: seq<BlockData>, a: U64, x: int)
    requires AllSound(s)
    requires var i, j := FindInside(s, a, |s|), FindStart(s, a, |s|);
             i >= 0 && j >= 0 ==> s[j].addr + s[j].size == s[i].addr + s[i].size
    ensures Covered(Split(s, a), x) <==> Covered(s, x)
  {
    SplitCovers(s, a, x);
  }

  // ----- overlaps

  /** The blocks that start strictly between two addresses. */
  ghost function Starts(s: seq<BlockData>, lo: int, hi: int): set<nat> {
    set k | 0 <= k < |s| && lo < s[k].addr < hi
  }

  function Sum(w: seq<nat>): nat {
    if w == [] then 0 else w[0] + Sum(w[1..])
  }

  lemma {:induction false} SumUpdate(w: seq<nat>, i: nat, x: nat)
    requires i < |w|
    ensures Sum(w[i := x]) == Sum(w) - w[i] + x
  {
    if i == 0 {
      assert w[i := x][1..] == w[1..];
    } else {
      assert w[i := x][1..] == w[1..][i - 1 := x];
      SumUpdate(w[1..], i - 1, x);
    }
  }

  /** For every block, how many blocks start strictly inside it. */
  ghost function Weights(s: seq<BlockData>): (w: seq<nat>)
    ensures |w| == |s|
    ensures forall i {:trigger w[i]} :: 0 <= i < |s| ==> w[i] == |Starts(s, s[i].addr, s[i].addr + s[i].size)|
  {
    seq(|s|, i requires 0 <= i < |s| => |Starts(s, s[i].addr, s[i].addr + s[i].size)|)
  }

  /** The number of pairs of a block and another block's start strictly inside it. */
  ghost function Overlaps(s: seq<BlockData>): nat {
    Sum(Weights(s))
  }

  lemma StartsSplit(s: seq<BlockData>, lo: int, mid: int, hi: int, j: nat)
    requires lo < mid < hi && j < |s| && s[j].addr == mid
    ensures |Starts(s, lo, mid)| + |Starts(s, mid, hi)| + 1 <= |Starts(s, lo, hi)|
  {
    var a, b := Starts(s, lo, mid), Starts(s, mid, hi);
    assert a * b == {} && j !in a && j !in b;
    assert |a + b + {j}| == |a| + |b| + 1;
    SubsetSize(a + b + {j}, Starts(s, lo, hi));
  }

  lemma StartsOfAddresses(s: seq<BlockData>, t: seq<BlockData>, lo: int, hi: int)
    requires |s| == |t| && forall k :: 0 <= k < |s| ==> s[k].addr == t[k].addr
    ensures Starts(s, lo, hi) == Starts(t, lo, hi)
  {
  }

  /** Where the blocks are once one has been split at the start of another. */
  lemma SplitExtents(s: seq<BlockData>, a: U64, i: nat, j: nat)
    requires AllSound(s) && FindInside(s, a, |s|) == i && FindStart(s, a, |s|) == j
    ensures i != j && s[i].addr < a < s[i].addr + s[i].size && s[j].addr == a && |Split(s, a)| == |s|
    ensures forall k {:trigger Split(s, a)[k]} :: 0 <= k < |s| ==>
              && Split(s, a)[k].addr == s[k].addr
              && Split(s, a)[k].size == if k == j then s[i].addr + s[i].size - a
                                        else if k == i then a - s[i].addr
                                        else s[k].size
  {
  }

  lemma WeightsAfter(s: seq<BlockData>, t: seq<BlockData>, a: int, i: nat, j: nat, x: nat, y: nat)
    requires i < |s| && j < |s| && i != j && s[j].addr == a && |t| == |s|
    requires forall k {:trigger t[k]} :: 0 <= k < |s| ==>
               && t[k].addr == s[k].addr
               && t[k].size == if k == j then s[i].addr + s[i].size - a else if k == i then a - s[i].addr else s[k].size
    requires x == |Starts(s, s[i].addr, a)| && y == |Starts(s, a, s[i].addr + s[i].size)|
    ensures Weights(t) == Weights(s)[i := x][j := y]
  {
    forall k | 0 <= k < |s|
      ensures Weights(t)[k] == Weights(s)[i := x][j := y][k]
    {
      StartsOfAddresses(s, t, t[k].addr, t[k].addr + t[k].size);
    }
  }

  /** Splitting a block at the start of another one reduces the number of overlaps, so that splitting
      again and again comes to an end. */
  lemma SplitReducesOverlaps(s: seq<BlockData>, a: U64)
    requires AllSound(s) && FindInside(s, a, |s|) >= 0 && FindStart(s, a, |s|) >= 0
    ensures Overlaps(Split(s, a)) < Overlaps(s)
  {
    var i, j := FindInside(s, a, |s|), FindStart(s, a, |s|);
    SplitExtents(s, a, i, j);
    OverlapsAfter(s, Split(s, a), a, i, j);
  }

  lemma OverlapsAfter(s: seq<BlockData>, t: seq<BlockData>, a: int, i: nat, j: nat)
    requires i < |s| && j < |s| && i != j && s[j].addr == a && |t| == |s|
    requires s[i].addr < a < s[i].addr + s[i].size
    requires forall k {:trigger t[k]} :: 0 <= k < |s| ==>
               && t[k].addr == s[k].addr
               && t[k].size == if k == j then s[i].addr + s[i].size - a else if k == i then a - s[i].addr else s[k].size
    ensures Overlaps(t) < Overlaps(s)
  {
    var lo, hi, w := s[i].addr, s[i].addr + s[i].size, Weights(s);
    var x, y := |Starts(s, lo, a)|, |Starts(s, a, hi)|;
    WeightsAfter(s, t, a, i, j, x, y);
    SumUpdate(w, i, x);
    SumUpdate(w[i := x], j, y);
    StartsSplit(s, lo, a, hi, j);
  }

  lemma TailUncovered(s: seq<BlockData>)
    requires AllSound(s) && |s| == 2
    requires s[0].addr == 0 && s[0].size == 4 && s[1].addr == 2 && s[1].size == 4
    ensures Covered(s, 5) && !Covered(Split(s, 2), 5)
  {
    assert !StrictlyInside(s[1], 2) && StrictlyInside(s[0], 2);
    assert FindInside(s, 2, 2) == 0 && FindStart(s, 2, 2) == 1;
    assert CoversAddr(s[1], 5) && !CoversAddr(s[0], 5);
    SplitCovers(s, 2, 5);
  }

  /** Splitting at the start of a longer block: its end is no longer covered. */
  lemma SplitUncovers()
    ensures var s := [BlockData(0, 4, [1, 2, 3, 4], 0, 0, Head, []), BlockData(2, 4, [3, 4, 5, 6], 0, 0, Head, [])];
            AllSound(s) && Covered(s, 5) && !Covered(Split(s, 2), 5)
  {
    TailUncovered([BlockData(0, 4, [1, 2, 3, 4], 0, 0, Head, []), BlockData(2, 4, [3, 4, 5, 6], 0, 0, Head, [])]);
  }
}
