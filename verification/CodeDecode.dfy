/** The decoding loop of `code_analyze_r_nosplit` (src/analyze.c) as a function: the block that belongs at an
    address, and what that block is in terms of the opcodes.
 */
module CodeDecode {
  import opened BlockSplit
  import opened CodeWalk
  import opened Machine

  /** The opcode types that the walk tells apart. */
  datatype Kind = JmpOp | CallOp | PushOp | RetOp | OtherOp

  /** An opcode size as `arch_aop` returns it, an `int` that is not negative. */
  type OpSize = x: int | 0 <= x < 0x8000_0000

  /** `struct aop_t` as filled by `arch_aop`, with the size that it returns (0 for no opcode). */
  datatype Op = Op(size: OpSize, kind: Kind, jump: U64, fail: U64, ref: U64, eob: bool)

  /** The processor, the memory, and the settings `graph.callblocks` and `graph.refblocks`.  What is
      decoded at an address is left open. */
  datatype Arch = Arch(decode: U64 -> Op, image: U64 -> Byte, callBlocks: bool, refBlocks: bool)

  /** The read block that `code_analyze` sets up before the walk. */
  const BLOCK_SIZE := 4096

  /** The bytes in memory from an address on. */
  function Bytes(arch: Arch, a: U64, n: nat): (bs: seq<Byte>)
    ensures |bs| == n
  {
    seq<Byte>(n, i requires 0 <= i < n => arch.image(Wrap(a + i)))
  }

  /** What the walk makes of the opcode at offset bsz of a block, and the call it notes. */
  function Adjust(arch: Arch, seek: U64, bsz: nat): (Op, seq<U64>) {
    var op := arch.decode(Wrap(seek + bsz));
    match op.kind
    case JmpOp => (op.(eob := true), [])
    case CallOp => (op.(eob := arch.callBlocks), [op.jump])
    case PushOp =>
      if op.ref != 0 && arch.refBlocks then
        (op.(eob := true, jump := op.ref, fail := Wrap(seek + bsz + op.size)), [op.ref])
      else (op, [])
    case _ => (op, [])
  }

  /** The end of a block: its length, its last opcode, and the calls in it. */
  datatype Scan = Scan(size: nat, last: Op, calls: seq<U64>)

  function ScanFrom(arch: Arch, seek: U64, bsz: nat): Scan
    requires bsz + 4 < BLOCK_SIZE
    decreases BLOCK_SIZE - bsz
  {
    var raw := arch.decode(Wrap(seek + bsz));
    if raw.size == 0 then Scan(bsz, raw, [])
    else
      var (op, calls) := Adjust(arch, seek, bsz);
      var next := bsz + raw.size;
      if op.eob || next + 4 >= BLOCK_SIZE then Scan(next, op, calls)
      else
        var rest := ScanFrom(arch, seek, next);
        rest.(calls := calls + rest.calls)
  }

  lemma BytesAppend(arch: Arch, a: U64, m: nat, n: nat)
    ensures Bytes(arch, a, m) + Bytes(arch, Wrap(a + m), n) == Bytes(arch, a, m + n)
  {
    var ahead, all := Bytes(arch, Wrap(a + m), n), Bytes(arch, a, m + n);
    forall i | 0 <= i < n
      ensures ahead[i] == all[m + i]
    {
      WrapAdd(a + m, i);
    }
  }

  lemma WrapAdd(x: nat, i: nat)
    ensures Wrap(Wrap(x) + i) == Wrap(x + i)
  {
    var m := U64_MAX + 1;
    assert x == m * (x / m) + x % m;
    ModAddMultiple(x % m + i, x / m);
  }

  lemma ModAddMultiple(y: nat, k: nat)
    ensures (y + (U64_MAX + 1) * k) % (U64_MAX + 1) == y % (U64_MAX + 1)
  {
  }

  /** The decoding loop has arrived at offset bsz with the last opcode aop and these calls noted. */
  ghost predicate Scanning(arch: Arch, seek: U64, bsz: nat, aop: Op, calls: seq<U64>) {
    if !aop.eob && bsz + 4 < BLOCK_SIZE then
      var rest := ScanFrom(arch, seek, bsz);
      ScanFrom(arch, seek, 0) == rest.(calls := calls + rest.calls)
    else ScanFrom(arch, seek, 0) == Scan(bsz, aop, calls)
  }

  lemma ScanStep(arch: Arch, seek: U64, bsz: nat, aop: Op, calls: seq<U64>)
    requires Scanning(arch, seek, bsz, aop, calls) && !aop.eob && bsz + 4 < BLOCK_SIZE
    ensures var raw := arch.decode(Wrap(seek + bsz));
            if raw.size == 0 then ScanFrom(arch, seek, 0) == Scan(bsz, raw, calls)
            else Scanning(arch, seek, bsz + raw.size, Adjust(arch, seek, bsz).0, calls + Adjust(arch, seek, bsz).1)
  {
    var (_, more) := Adjust(arch, seek, bsz);
    var raw := arch.decode(Wrap(seek + bsz));
    if raw.size != 0 && bsz + raw.size + 4 < BLOCK_SIZE {
      var rest := ScanFrom(arch, seek, bsz + raw.size);
      assert calls + (more + rest.calls) == calls + more + rest.calls;
    }
  }

  /** The block that belongs at an address. */
  function Expected(arch: Arch, seek: U64): BlockData {
    var scan := ScanFrom(arch, seek, 0);
    var kind := if scan.last.jump != 0 then Body else if scan.last.kind == RetOp then Last else Head;
    BlockData(seek, scan.size, Bytes(arch, seek, scan.size), scan.last.jump, scan.last.fail, kind, scan.calls)
  }

  function GraphOf(arch: Arch): Graph {
    (a: U64) => (Expected(arch, a).tnext, Expected(arch, a).fnext)
  }

  lemma {:induction false} ScanSize(arch: Arch, seek: U64, bsz: nat)
    requires bsz + 4 < BLOCK_SIZE
    ensures ScanFrom(arch, seek, bsz).size < BLOCK_SIZE + 0x8000_0000
    decreases BLOCK_SIZE - bsz
  {
    var next := bsz + arch.decode(Wrap(seek + bsz)).size;
    if next != bsz && next + 4 < BLOCK_SIZE {
      ScanSize(arch, seek, next);
    }
  }

  // ----- what the block is

  /** The opcode at an offset of the block, as it was decoded. */
  function OpAt(arch: Arch, seek: U64, o: nat): Op {
    arch.decode(Wrap(seek + o))
  }

  /** A push of a reference, where references are followed. */
  predicate FollowedPush(arch: Arch, op: Op) {
    op.kind == PushOp && op.ref != 0 && arch.refBlocks
  }

  /** The block ends behind the opcode: a jump, a followed push, a call if calls end blocks, or another opcode of which
      the decoder says so. */
  predicate Ends(arch: Arch, op: Op) {
    if op.kind == CallOp then arch.callBlocks else op.kind == JmpOp || FollowedPush(arch, op) || op.eob
  }

  /** The offsets o of the opcodes of a block, from the start o[0] to the end of the last opcode. */
  ghost predicate Opcodes(arch: Arch, seek: U64, o: seq<nat>) {
    && |o| > 0
    && (forall i :: 0 <= i < |o| - 1 ==> Follows(arch, seek, o[i], o[i + 1]))
    && forall i :: 0 <= i < |o| - 2 ==> GoesOn(arch, seek, o[i], o[i + 1])
  }

  /** The opcode at one offset reaches up to the next one. */
  ghost predicate Follows(arch: Arch, seek: U64, here: nat, next: nat) {
    OpAt(arch, seek, here).size > 0 && next == here + OpAt(arch, seek, here).size
  }

  /** The opcode does not end the block, and there is room behind it. */
  ghost predicate GoesOn(arch: Arch, seek: U64, here: nat, next: nat) {
    !Ends(arch, OpAt(arch, seek, here)) && next + 4 < BLOCK_SIZE
  }

  /** The last opcode ends the block, or there is no room for another one. */
  ghost predicate EndsItself(arch: Arch, seek: U64, o: seq<nat>)
    requires |o| > 0
  {
    |o| > 1 && !GoesOn(arch, seek, o[|o| - 2], o[|o| - 1])
  }

  /** The opcode that the edges and the kind of the block are taken from: the last one of the block, or the one behind
      it that could not be decoded. */
  ghost function LastOp(arch: Arch, seek: U64, o: seq<nat>): Op
    requires |o| > 0
  {
    OpAt(arch, seek, if EndsItself(arch, seek, o) then o[|o| - 2] else o[|o| - 1])
  }

  /** The targets of the calls, and of the followed pushes, in order. */
  ghost function CallTargets(arch: Arch, seek: U64, o: seq<nat>): seq<U64> {
    if |o| < 2 then []
    else
      CallTarget(arch, OpAt(arch, seek, o[0])) + CallTargets(arch, seek, o[1..])
  }

  /** The edges of a block that ends at the offset `end`. */
  ghost function Edges(arch: Arch, seek: U64, op: Op, end: nat): (U64, U64) {
    if op.size > 0 && FollowedPush(arch, op) then (op.ref, Wrap(seek + end)) else (op.jump, op.fail)
  }

  /** The opcodes follow each other to the end of the block; the last one ends it, or fills it, or the next one
      cannot be decoded; and the rest is taken from these opcodes. */
  ghost predicate MadeOf(arch: Arch, seek: U64, scan: Scan, o: seq<nat>) {
    && Opcodes(arch, seek, o) && scan.size == o[|o| - 1]
    && (!EndsItself(arch, seek, o) ==> LastOp(arch, seek, o).size == 0)
    && (scan.last.jump, scan.last.fail) == Edges(arch, seek, LastOp(arch, seek, o), scan.size)
    && scan.last.kind == LastOp(arch, seek, o).kind
    && scan.calls == CallTargets(arch, seek, o)
  }

  /** The call that one opcode notes. */
  ghost function CallTarget(arch: Arch, op: Op): seq<U64> {
    if op.kind == CallOp then [op.jump] else if FollowedPush(arch, op) then [op.ref] else []
  }

  /** One more opcode in front. */
  lemma MadeOfCons(arch: Arch, seek: U64, here: nat, scan: Scan, rest: seq<nat>)
    requires MadeOf(arch, seek, scan, rest) && Follows(arch, seek, here, rest[0]) && GoesOn(arch, seek, here, rest[0])
    ensures var calls := CallTarget(arch, OpAt(arch, seek, here)) + scan.calls;
            MadeOf(arch, seek, scan.(calls := calls), [here] + rest)
  {
    var o := [here] + rest;
    assert o[1..] == rest;
    forall i | 0 <= i < |o| - 1
      ensures Follows(arch, seek, o[i], o[i + 1])
      ensures i < |o| - 2 ==> GoesOn(arch, seek, o[i], o[i + 1])
    {
      if i > 0 {
        assert o[i] == rest[i - 1] && o[i + 1] == rest[i];
      }
    }
  }

  /** The opcode that ends the block. */
  lemma MadeOfLast(arch: Arch, seek: U64, here: nat, next: nat)
    requires here + 4 < BLOCK_SIZE && Follows(arch, seek, here, next) && !GoesOn(arch, seek, here, next)
    ensures MadeOf(arch, seek, ScanFrom(arch, seek, here), [here, next])
  {
    var o := [here, next];
    assert o[1..] == [next];
    assert CallTargets(arch, seek, o) == CallTarget(arch, OpAt(arch, seek, here)) + [];
  }

  lemma {:induction false} ScanMeaning(arch: Arch, seek: U64, bsz: nat) returns (o: seq<nat>)
    requires bsz + 4 < BLOCK_SIZE
    ensures MadeOf(arch, seek, ScanFrom(arch, seek, bsz), o) && o[0] == bsz
    decreases BLOCK_SIZE - bsz
  {
    var raw := OpAt(arch, seek, bsz);
    var next := bsz + raw.size;
    if raw.size == 0 {
      o := [bsz];
    } else if !GoesOn(arch, seek, bsz, next) {
      o := [bsz, next];
      MadeOfLast(arch, seek, bsz, next);
    } else {
      var rest := ScanMeaning(arch, seek, next);
      MadeOfCons(arch, seek, bsz, ScanFrom(arch, seek, next), rest);
      o := [bsz] + rest;
    }
  }

  /** The block that belongs at an address: its opcodes, bytes, edges, kind and calls, in terms of the decoder. */
  lemma BlockMeaning(arch: Arch, seek: U64) returns (o: seq<nat>)
    ensures Opcodes(arch, seek, o) && o[0] == 0
    ensures !EndsItself(arch, seek, o) ==> LastOp(arch, seek, o).size == 0
    ensures var b, op := Expected(arch, seek), LastOp(arch, seek, o);
            && b.addr == seek && b.size == o[|o| - 1] == |b.bytes|
            && (forall k :: 0 <= k < b.size ==> b.bytes[k] == arch.image(Wrap(seek + k)))
            && (b.tnext, b.fnext) == Edges(arch, seek, op, b.size)
            && b.calls == CallTargets(arch, seek, o)
            && b.kind == if b.tnext != 0 then Body else if op.kind == RetOp then Last else Head
  {
    o := ScanMeaning(arch, seek, 0);
  }

  /** A conditional jump of two bytes. */
  lemma ConditionalJump(arch: Arch, seek: U64, jump: U64, fail: U64)
    requires arch.decode(seek) == Op(2, OtherOp, jump, fail, 0, true)
    ensures var b := Expected(arch, seek); b.size == 2 && b.tnext == jump && b.fnext == fail && b.calls == []
  {
    assert Wrap(seek + 0) == seek;
    assert Adjust(arch, seek, 0) == (Op(2, OtherOp, jump, fail, 0, true), []);
  }
}
