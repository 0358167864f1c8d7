/** The block store of src/rdb.c and the nosplit walk of src/analyze.c that fills it. */
module CodeBlocks {
  import opened Bits
  import opened Machine
  import opened CodeWalk
  import opened BlockSplit
  import opened CodeDecode

  // ----- the store

  /** `struct block_t`. */
  class Block {
    const addr: U64
    var size: nat
    var bytes: seq<Byte>
    var tnext: U64
    var fnext: U64
    var kind: BlockKind
    var calls: seq<U64>

    /** `block_new`. */
    constructor (addr: U64)
      ensures Data() == NewBlock(addr)
    {
      this.addr := addr;
      size, bytes, tnext, fnext, kind, calls := 0, [], 0, 0, Head, [];
    }

    function Data(): BlockData
      reads this
    {
      BlockData(addr, size, bytes, tnext, fnext, kind, calls)
    }
  }

  /** `struct program_t`. */
  class Program {
    var blocks: seq<Block>
    var nBlocks: nat
    /** For every block, the depth that the walk had left when it created the block. */
    ghost var visits: seq<Visit>

    ghost predicate Valid()
      reads this
    {
      && nBlocks == |blocks| == |visits|
      && (forall i :: 0 <= i < |blocks| ==> blocks[i].addr == visits[i].addr)
      && Unique(visits)
    }

    constructor ()
      ensures Valid() && blocks == []
    {
      blocks, nBlocks, visits := [], 0, [];
    }

    /** All blocks in list order. */
    ghost function Model(): (s: seq<BlockData>)
      reads this, blocks
      ensures |s| == |blocks|
      ensures forall i {:trigger s[i]} :: 0 <= i < |s| ==> s[i] == blocks[i].Data()
    {
      seq(|blocks|, i requires 0 <= i < |blocks| reads this, blocks => blocks[i].Data())
    }

    /** `program_block_get`. */
    method BlockGet(addr: U64) returns (b: Block?)
      requires Valid()
      ensures b == null <==> !Has(visits, addr)
      ensures b != null ==> b in blocks && b.addr == addr
    {
      var i: nat := |blocks|;
      while i > 0
        invariant i <= |blocks|
        invariant forall j :: i <= j < |blocks| ==> blocks[j].addr != addr
      {
        i := i - 1;
        if blocks[i].addr == addr {
          assert visits[i].addr == addr;
          return blocks[i];
        }
      }
      b := null;
    }

    /** `program_block_new`. */
    method BlockNew(addr: U64, ghost depth: int := 0) returns (b: Block)
      requires Valid() && !Has(visits, addr)
      modifies this
      ensures Valid() && fresh(b) && b.Data() == NewBlock(addr)
      ensures blocks == old(blocks) + [b] && visits == old(visits) + [Visit(addr, depth)]
    {
      b := new Block(addr);
      nBlocks := nBlocks + 1;
      blocks := blocks + [b];
      visits := visits + [Visit(addr, depth)];
    }

    /** `program_block_get_new`. */
    method BlockGetNew(addr: U64, ghost depth: int := 0) returns (b: Block)
      requires Valid()
      modifies this
      ensures Valid() && b in blocks && b.addr == addr
      ensures old(Has(visits, addr)) ==> b in old(blocks) && blocks == old(blocks) && visits == old(visits)
      ensures !old(Has(visits, addr)) ==> fresh(b) && b.Data() == NewBlock(addr)
      ensures !old(Has(visits, addr)) ==> blocks == old(blocks) + [b] && visits == old(visits) + [Visit(addr, depth)]
    {
      var found := BlockGet(addr);
      if found == null {
        b := BlockNew(addr, depth);
      } else {
        b := found;
      }
    }

    /** `program_block_add_call`. */
    method AddCall(addr: U64, dest: U64, ghost depth: int := 0) returns (b: Block)
      requires Valid()
      modifies this, (set x | x in blocks && x.addr == addr)
      ensures Valid() && b in blocks && b.addr == addr
      ensures old(Has(visits, addr)) ==> b in old(blocks) && blocks == old(blocks) && visits == old(visits)
      ensures old(Has(visits, addr)) ==> b.Data() == old(b.Data()).(calls := old(b.calls) + [dest])
      ensures !old(Has(visits, addr)) ==> fresh(b) && b.Data() == NewBlock(addr).(calls := [dest])
      ensures !old(Has(visits, addr)) ==> blocks == old(blocks) + [b] && visits == old(visits) + [Visit(addr, depth)]
    {
      b := BlockGetNew(addr, depth);
      b.calls := b.calls + [dest];
    }

    /** The store after the calls of a block under construction have been noted: the block is made at
        the first call. */
    ghost predicate Noted(blocks0: seq<Block>, visits0: seq<Visit>, v: Visit, calls: seq<U64>)
      reads this, blocks
    {
      if calls == [] then blocks == blocks0 && visits == visits0
      else
        && |blocks| == |blocks0| + 1 && blocks[..|blocks0|] == blocks0 && visits == visits0 + [v]
        && blocks[|blocks0|].Data() == NewBlock(v.addr).(calls := calls)
    }

    /** `program_block_add_call` for the block under construction. */
    method NoteCalls(addr: U64, more: seq<U64>, ghost v: Visit,
                     ghost blocks0: seq<Block>, ghost visits0: seq<Visit>, ghost calls: seq<U64>)
      requires Valid() && |blocks0| == |visits0| && !Has(visits0, v.addr)
      requires Noted(blocks0, visits0, v, calls) && |more| <= 1 && v.addr == addr
      modifies this, (set x | x in blocks && x.addr == addr)
      ensures Valid() && Noted(blocks0, visits0, v, calls + more)
      ensures if calls != [] then blocks == old(blocks) else more != [] ==> fresh(blocks[|blocks0|])
    {
      if more == [] {
        assert calls + more == calls;
        return;
      }
      if calls != [] {
        assert visits[|visits0|].addr == addr;
      }
      var b := AddCall(addr, more[0], v.depth);
    }

    /** Decode the opcode at offset bsz0 and append its bytes; one of size 0 ends the block. */
    static method Fetch(arch: Arch, seek: U64, bsz0: nat, buf0: seq<Byte>, ghost aop0: Op, ghost calls0: seq<U64>)
      returns (bsz: nat, buf: seq<Byte>, aop: Op, more: seq<U64>, stop: bool)
      requires buf0 == Bytes(arch, seek, bsz0)
      requires Scanning(arch, seek, bsz0, aop0, calls0) && !aop0.eob && bsz0 + 4 < BLOCK_SIZE
      ensures buf == Bytes(arch, seek, bsz) && |more| <= 1
      ensures if stop then ScanFrom(arch, seek, 0) == Scan(bsz, aop, calls0 + more)
              else bsz > bsz0 && Scanning(arch, seek, bsz, aop, calls0 + more)
    {
      ScanStep(arch, seek, bsz0, aop0, calls0);
      bsz, buf, more, stop := bsz0, buf0, [], false;
      aop := arch.decode(Wrap(seek + bsz));
      if aop.size == 0 {
        stop := true;
        assert calls0 + more == calls0;
        return;
      }
      var size := aop.size;
      var (op, noted) := Adjust(arch, seek, bsz);
      aop, more := op, noted;
      BytesAppend(arch, seek, bsz, size);
      buf := buf + Bytes(arch, Wrap(seek + bsz), size);
      bsz := bsz + size;
    }

    /** One round of the decoding loop. */
    method DecodeOne(arch: Arch, seek: U64, bsz0: nat, buf0: seq<Byte>, ghost aop0: Op, ghost v: Visit,
                     ghost blocks0: seq<Block>, ghost visits0: seq<Visit>, ghost calls0: seq<U64>)
      returns (bsz: nat, buf: seq<Byte>, aop: Op, stop: bool, ghost calls: seq<U64>)
      requires Valid() && |blocks0| == |visits0| && !Has(visits0, seek) && v.addr == seek
      requires buf0 == Bytes(arch, seek, bsz0) && Noted(blocks0, visits0, v, calls0)
      requires Scanning(arch, seek, bsz0, aop0, calls0) && !aop0.eob && bsz0 + 4 < BLOCK_SIZE
      modifies this, (set x | x in blocks && x.addr == seek)
      ensures Valid() && buf == Bytes(arch, seek, bsz) && Noted(blocks0, visits0, v, calls)
      ensures if calls0 != [] then blocks == old(blocks) && calls != [] else calls != [] ==> fresh(blocks[|blocks0|])
      ensures if stop then ScanFrom(arch, seek, 0) == Scan(bsz, aop, calls)
              else bsz > bsz0 && Scanning(arch, seek, bsz, aop, calls)
    {
      var more;
      bsz, buf, aop, more, stop := Fetch(arch, seek, bsz0, buf0, aop0, calls0);
      calls := calls0 + more;
      NoteCalls(seek, more, v, blocks0, visits0, calls0);
    }

    /** The decoding loop of `code_analyze_r_nosplit`. */
    method Decode(arch: Arch, seek: U64, ghost depth: int) returns (bsz: nat, buf: seq<Byte>, aop: Op)
      requires Valid() && !Has(visits, seek)
      modifies this
      ensures Valid() && buf == Bytes(arch, seek, bsz)
      ensures var scan := ScanFrom(arch, seek, 0);
              bsz == scan.size && aop == scan.last
              && Noted(old(blocks), old(visits), Visit(seek, depth), scan.calls)
              && (scan.calls != [] ==> fresh(blocks[|old(blocks)|]))
    {
      ghost var v := Visit(seek, depth);
      aop := Op(0, OtherOp, 0, 0, 0, false);
      bsz, buf := 0, [];
      ghost var calls: seq<U64> := [];
      var stop := false;
      while !stop && !aop.eob && bsz + 4 < BLOCK_SIZE
        invariant Valid() && buf == Bytes(arch, seek, bsz)
        invariant Noted(old(blocks), old(visits), v, calls)
        invariant calls != [] ==> fresh(blocks[|old(blocks)|])
        invariant if stop then ScanFrom(arch, seek, 0) == Scan(bsz, aop, calls)
                  else Scanning(arch, seek, bsz, aop, calls)
        decreases !stop, BLOCK_SIZE - bsz
      {
        bsz, buf, aop, stop, calls := DecodeOne(arch, seek, bsz, buf, aop, v, old(blocks), old(visits), calls);
      }
    }

    /** The part of `code_analyze_r_nosplit` that makes one block. */
    method MakeBlock(arch: Arch, seek: U64, ghost depth: int) returns (blk: Block)
      requires Valid() && !Has(visits, seek)
      modifies this
      ensures Valid() && fresh(blk) && blk.Data() == Expected(arch, seek)
      ensures (blk.tnext, blk.fnext) == GraphOf(arch)(seek)
      ensures blocks == old(blocks) + [blk] && visits == old(visits) + [Visit(seek, depth)]
    {
      ghost var n := |blocks|;
      var bsz, buf, aop := Decode(arch, seek, depth);
      ghost var calls := ScanFrom(arch, seek, 0).calls;
      if calls != [] {
        assert visits[n].addr == seek;
      }
      blk := BlockGetNew(seek, depth);
      assert blocks == blocks[..n] + [blocks[n]];
      assert blk == blocks[n] by {
        assert forall i :: 0 <= i < n ==> visits[i].addr != seek;
      }
      blk.size := bsz;
      blk.bytes := buf;
      blk.tnext := aop.jump;
      blk.fnext := aop.fail;
      blk.kind := Head;
      if aop.jump != 0 && aop.fail == 0 {
        blk.kind := Body;
      } else if aop.jump != 0 && aop.fail != 0 {
        blk.kind := Body;
      } else if aop.kind == RetOp {
        blk.kind := Last;
      }
    }

    /** The blocks from position n on are new and are those that belong at their addresses. */
    ghost predicate Right(arch: Arch, n: nat)
      reads this, blocks
    {
      forall i :: n <= i < |blocks| ==> blocks[i].Data() == Expected(arch, blocks[i].addr)
    }

    /** Since the store had the blocks b0, only blocks that belong at their addresses were added. */
    twostate predicate Grown(arch: Arch)
      reads this, blocks
    {
      && old(blocks) <= blocks && Right(arch, |old(blocks)|)
      && forall i :: |old(blocks)| <= i < |blocks| ==> fresh(blocks[i])
    }

    /** The walk to one successor, if there is one. */
    method Next(arch: Arch, next: U64, depth: int)
      requires Valid()
      modifies this
      ensures Valid() && visits == Follow(GraphOf(arch), old(visits), next, depth) && Grown(arch)
      decreases depth, 1
    {
      if next != 0 {
        Analyze(arch, next, depth);
      }
    }

    /** The walk to both successors of a new block. */
    method Successors(arch: Arch, tnext: U64, fnext: U64, depth: int)
      requires Valid()
      modifies this
      ensures Valid() && Grown(arch)
      ensures visits == Follow(GraphOf(arch), Follow(GraphOf(arch), old(visits), tnext, depth), fnext, depth)
      decreases depth, 2
    {
      Next(arch, tnext, depth);
      label Half:
      Next(arch, fnext, depth);
      assert forall i :: 0 <= i < |old@Half(blocks)| ==> blocks[i] == old@Half(blocks)[i];
    }

    /** `code_analyze_r_nosplit`.  The new blocks are those of CodeWalk.Walk on the graph of all blocks
        that could be decoded, each is the block that belongs at its address, and the blocks
        that were there before are not changed. */
    method Analyze(arch: Arch, seek: U64, depth: int)
      requires Valid()
      modifies this
      ensures Valid() && visits == Walk(GraphOf(arch), old(visits), seek, depth) && Grown(arch)
      decreases depth, 0
    {
      if depth <= 0 {
        return;
      }
      var found := BlockGet(seek);
      if found != null {
        return;
      }
      WalkUnfold(GraphOf(arch), visits, seek, depth);
      var blk := MakeBlock(arch, seek, depth);
      Successors(arch, blk.tnext, blk.fnext, depth - 1);
    }

    /** One walk on a program that may hold blocks already, as RunKeepsImage describes it. */
    method WalkFrom(arch: Arch, seek: U64, depth: int)
      requires Valid()
      modifies this
      ensures Valid() && visits == Walk(GraphOf(arch), old(visits), seek, depth)
      ensures Step(arch, old(Model()), DoWalk(seek, depth), Model())
    {
      Analyze(arch, seek, depth);
      assert forall i :: 0 <= i < |blocks| ==> Model()[i].addr == visits[i].addr;
      assert forall i :: 0 <= i < |old(blocks)| ==> Model()[i] == old(Model())[i];
    }

    /** `code_analyze`, without `graph.split`: a new program with one walk, whose depth is limited to 29. */
    static method CodeAnalyze(arch: Arch, seek: U64, depth: int) returns (prg: Program)
      ensures fresh(prg) && prg.Valid()
      ensures prg.visits == Walk(GraphOf(arch), [], seek, (if depth > 30 then 30 else depth) - 1)
      ensures Step(arch, [], DoWalk(seek, (if depth > 30 then 30 else depth) - 1), prg.Model())
      ensures prg.nBlocks < Pow2(29)
    {
      prg := new Program();
      var d := depth;
      if d > 30 {
        d := 30;
      }
      d := d - 1;
      prg.WalkFrom(arch, seek, d);
      if d >= 0 {
        WalkBound(GraphOf(arch), [], seek, d);
        Pow2Grows(d, 29);
      }
    }

    /** The assignments of `program_block_split_new` once both blocks are at hand. */
    method MoveTail(bt: Block, bta: Block, addr: U64)
      requires bt != bta && bta.addr == addr
      requires bt.addr < addr < bt.addr + bt.size && bt.size <= |bt.bytes|
      modifies bt, bta
      ensures bt.Data() == Front(old(bt.Data()), addr)
      ensures bta.Data() == Tail(old(bt.Data()), addr, old(bta.Data()))
    {
      bta.size := bt.size - (addr - bt.addr);
      bta.tnext := bt.tnext;
      bta.fnext := bt.fnext;
      bt.size := addr - bt.addr;
      bt.tnext := bta.addr;
      bt.fnext := 0;
      bt.kind := Head;
      bta.bytes := bt.bytes[bt.size..bt.size + bta.size];
    }

    /** The newest block that has the address strictly inside. */
    method FindBlock(addr: U64) returns (bt: Block?, ghost i: int)
      requires Valid()
      ensures i == FindInside(Model(), addr, |blocks|)
      ensures bt == null <==> i < 0
      ensures bt == null ==> forall b :: b in blocks ==> !StrictlyInside(b.Data(), addr)
      ensures bt != null ==> bt == blocks[i] && StrictlyInside(bt.Data(), addr)
    {
      var k: nat := |blocks|;
      ghost var s := Model();
      while k > 0
        invariant k <= |blocks| && FindInside(s, addr, |blocks|) == FindInside(s, addr, k)
      {
        k := k - 1;
        var b := blocks[k];
        assert s[k] == b.Data();
        if addr > b.addr && addr < Wrap(b.addr + b.size) {
          return b, k;
        }
      }
      assert forall j :: 0 <= j < |blocks| ==> !StrictlyInside(s[j], addr) && s[j] == blocks[j].Data();
      return null, -1;
    }

    /** `program_block_get_new` for the split point: the newest block that starts there, or a new one. */
    method GetStart(addr: U64) returns (bta: Block, ghost j: int)
      requires Valid()
      modifies this
      ensures Valid() && old(blocks) <= blocks
      ensures var f := FindStart(old(Model()), addr, |old(blocks)|); j == if f < 0 then |old(blocks)| else f
      ensures 0 <= j < |blocks| && bta == blocks[j] && bta.addr == addr && (j == |old(blocks)| ==> fresh(bta))
      ensures Model() == if j == |old(blocks)| then old(Model()) + [NewBlock(addr)] else old(Model())
    {
      ghost var s, n := Model(), |blocks|;
      j := FindStart(s, addr, n);
      bta := BlockGetNew(addr);
      assert forall k :: 0 <= k < n ==> s[k].addr == visits[k].addr;
      if j < 0 {
        j := n;
      }
    }

    /** MoveTail between the blocks at positions i and j, and only there. */
    method HandOver(bt: Block, bta: Block, addr: U64, ghost i: int, ghost j: int)
      requires Valid() && 0 <= i < |blocks| && bt == blocks[i]
      requires 0 <= j < |blocks| && bta == blocks[j] && bta.addr == addr
      requires bt.addr < addr < bt.addr + bt.size && bt.size <= |bt.bytes|
      modifies bt, bta
      ensures Valid()
      ensures var t := old(Model());
              Model() == t[i := Front(t[i], addr)][j := Tail(t[i], addr, t[j])]
    {
      ghost var t := Model();
      MoveTail(bt, bta, addr);
      assert forall k :: 0 <= k < |blocks| && k != i && k != j ==> blocks[k] != bt && blocks[k] != bta by {
        assert forall k :: 0 <= k < |blocks| ==> blocks[k].addr == visits[k].addr;
      }
      assert Model() == t[i := Front(t[i], addr)][j := Tail(t[i], addr, t[j])];
    }

    /** `program_block_split_new`. */
    method SplitNew(addr: U64) returns (bta: Block?)
      requires Valid() && AllSound(Model())
      modifies this, blocks
      ensures Valid() && Model() == Split(old(Model()), addr)
      ensures forall arch :: Step(arch, old(Model()), DoSplit(addr), Model())
      ensures bta == null <==> FindInside(old(Model()), addr, |old(Model())|) < 0
      ensures bta != null ==> bta in blocks && bta.addr == addr
    {
      ghost var s := Model();
      var bt, i := FindBlock(addr);
      if bt == null {
        return null;
      }
      assert s[i] == bt.Data();
      ghost var j;
      bta, j := GetStart(addr);
      ghost var t := Model();
      HandOver(bt, bta, addr, i, j);
    }
  }

  // ----- whole runs

  /** A walk, or the split of a block. */
  datatype Command = DoWalk(seek: U64, depth: int) | DoSplit(addr: U64)

  /** What Program.Analyze and Program.SplitNew do to the list of blocks. */
  ghost predicate Step(arch: Arch, s: seq<BlockData>, c: Command, t: seq<BlockData>) {
    match c
    case DoWalk(_, _) =>
      s <= t && (UniqueAddr(s) ==> UniqueAddr(t)) && forall i :: |s| <= i < |t| ==> t[i] == Expected(arch, t[i].addr)
    case DoSplit(addr) =>
      AllSound(s) ==> t == Split(s, addr)
  }

  lemma {:induction false} Pow2Grows(m: nat, n: nat)
    requires m <= n
    ensures Pow2(m) <= Pow2(n)
  {
    if m < n {
      Pow2Grows(m, n - 1);
    }
  }

  function Memory(arch: Arch): int -> Byte {
    (a: int) => arch.image(Wrap(if a < 0 then 0 else a))
  }

  /** Over any run of walks and splits from the empty program, every block holds the bytes of the memory
      that was decoded, and no two blocks start at one address. */
  lemma {:induction false} RunKeepsImage(arch: Arch, states: seq<seq<BlockData>>, commands: seq<Command>, n: nat)
    requires |states| == |commands| + 1 && n < |states| && states[0] == []
    requires forall i :: 0 <= i < |commands| ==> Step(arch, states[i], commands[i], states[i + 1])
    ensures AllSound(states[n]) && UniqueAddr(states[n]) && Imaged(states[n], Memory(arch))
  {
    if n > 0 {
      var s, t := states[n - 1], states[n];
      RunKeepsImage(arch, states, commands, n - 1);
      assert Step(arch, s, commands[n - 1], t);
      match commands[n - 1]
      case DoWalk(_, _) =>
        forall i | 0 <= i < |t|
          ensures Sound(t[i]) && (i < |s| ==> t[i] == s[i])
        {
          ScanSize(arch, t[i].addr, 0);
          assert i >= |s| ==> t[i] == Expected(arch, t[i].addr);
        }
      case DoSplit(addr) =>
        SplitKeepsImage(s, addr, Memory(arch));
        SplitKeepsUnique(s, addr);
    }
  }
}
