/** Where the next block and the next object lie, told from those handed out before. */
module HeapLaws {
  import opened Words
  import opened HeapSpec

  /** a is the first word boundary at or after x. */
  predicate WordAfter(a: int, x: int) { a % 4 == 0 && x <= a < x + 4 }

  /** Where the first i blocks end. */
  function Reached(start: nat, blocks: seq<Block>, i: nat): int
    requires i <= |blocks|
  {
    if i == 0 then start else Stop(blocks[i - 1])
  }

  /** Each block starts at the word boundary after the one before. */
  predicate Stacked(start: nat, blocks: seq<Block>) {
    forall i :: 0 <= i < |blocks| ==> WordAfter(blocks[i].start, Reached(start, blocks, i))
  }

  /** The end of the heap is where the blocks end, up to alignment. */
  predicate Tight(m: Memory) {
    && Blocks(m) && Stacked(m.start, m.blocks)
    && WordAfter(Aligned(m.end), Reached(m.start, m.blocks, |m.blocks|))
  }

  lemma StackedMore(start: nat, blocks: seq<Block>, b: Block)
    requires Stacked(start, blocks) && WordAfter(b.start, Reached(start, blocks, |blocks|))
    ensures Stacked(start, blocks + [b])
  {
    var more := blocks + [b];
    forall i | 0 <= i < |more| ensures WordAfter(more[i].start, Reached(start, more, i)) {
      if i < |blocks| { assert WordAfter(blocks[i].start, Reached(start, blocks, i)); }
    }
  }

  lemma AlignedIs(x: Word)
    requires x <= 0x8000_0000
    ensures WordAfter(Aligned(x), x) && Aligned(Aligned(x)) == Aligned(x)
  {
  }

  /** A block put at the aligned end. */
  lemma BlockTight(start: nat, blocks: seq<Block>, b: Block, end: Word)
    requires Stacked(start, blocks) && WordAfter(b.start, Reached(start, blocks, |blocks|))
    requires end == Stop(b) && end <= 0x8000_0000
    ensures var more := blocks + [b]; Stacked(start, more) && WordAfter(Aligned(end), Reached(start, more, |more|))
  {
    StackedMore(start, blocks, b);
    AlignedIs(end);
  }

  /** What a call does to the end and the blocks, without the wrapping. */
  lemma SbrkIs(m: Memory, incr: int, slab: bool)
    requires m.end <= 0x8000_0000 && m.limit <= 0x8000_0000 && 0 <= incr < 0x8000_0000
    ensures var m' := Sbrk(m, incr, slab);
            && m'.start == m.start
            && if Aligned(m.end) + incr <= m.limit
               then m'.end == Aligned(m.end) + incr && m'.blocks == m.blocks + [Block(Aligned(m.end), incr, slab)]
               else m'.end == Aligned(m.end) && m'.blocks == m.blocks
  {
  }

  lemma SbrkStacked(m: Memory, incr: int, slab: bool)
    requires m.end <= 0x8000_0000 && m.limit <= 0x8000_0000 && 0 <= incr < 0x8000_0000
    requires Stacked(m.start, m.blocks) && WordAfter(Aligned(m.end), Reached(m.start, m.blocks, |m.blocks|))
    ensures var m' := Sbrk(m, incr, slab);
            Stacked(m.start, m'.blocks) && WordAfter(Aligned(m'.end), Reached(m.start, m'.blocks, |m'.blocks|))
  {
    SbrkIs(m, incr, slab);
    var m' := Sbrk(m, incr, slab);
    if Aligned(m.end) + incr <= m.limit {
      BlockTight(m.start, m.blocks, Block(Aligned(m.end), incr, slab), m'.end);
    } else {
      AlignedIs(m.end);
    }
  }

  lemma SbrkTight(m: Memory, incr: int, slab: bool)
    requires Inv(m) && Tight(m) && 0 <= incr < 0x8000_0000 && (slab ==> incr == SLAB)
    ensures Tight(Sbrk(m, incr, slab))
  {
    SbrkKeeps(m, incr, slab);
    SbrkStacked(m, incr, slab);
  }

  lemma AllocateTight(m: Memory, size: Word)
    requires Inv(m) && Tight(m) && size > 0
    ensures Inv(Allocate(m, size)) && Tight(Allocate(m, size))
  {
    AllocateKeeps(m, size);
    SbrkTight(m, SLAB, true);
  }

  lemma ApplyTight(m: Memory, op: Op)
    requires Inv(m) && Tight(m) && Growing(op)
    ensures Tight(Apply(m, op))
  {
    match op {
      case DoSbrk(incr) => SbrkTight(m, incr, false);
      case DoAllocate(size) => AllocateTight(m, size);
      case DoRecord(newFunction) =>
        AllocateTight(m, RECORD);
        if newFunction { AllocateTight(Allocate(m, RECORD), RECORD); }
    }
  }

  lemma {:induction false} RunTight(m: Memory, ops: seq<Op>)
    requires Inv(m) && Tight(m) && forall k :: 0 <= k < |ops| ==> Growing(ops[k])
    ensures Tight(Run(m, ops))
    decreases |ops|
  {
    if ops != [] {
      ApplyKeeps(m, ops[0]);
      ApplyTight(m, ops[0]);
      RunTight(Apply(m, ops[0]), ops[1..]);
    }
  }

  lemma FromStart(start: Word, limit: Word, ops: seq<Op>)
    requires start <= limit <= 0x8000_0000 && forall k :: 0 <= k < |ops| ==> Growing(ops[k])
    ensures var m := Run(Initial(start, limit), ops);
            Inv(m) && Tight(m) && m.start == start && m.limit == limit
  {
    InitialInv(start, limit);
    AlignedIs(start);
    RunKeeps(Initial(start, limit), ops);
    RunTight(Initial(start, limit), ops);
    RunSameHeap(Initial(start, limit), ops);
  }

  /** Over every run of growing requests, nothing is skipped: the first block starts at the
      first word boundary of the heap and every other one at the first after the block
      before it. */
  lemma BlocksAreStacked(start: Word, limit: Word, ops: seq<Op>)
    requires start <= limit <= 0x8000_0000 && forall k :: 0 <= k < |ops| ==> Growing(ops[k])
    ensures var bs := Run(Initial(start, limit), ops).blocks;
            && (bs != [] ==> WordAfter(bs[0].start, start))
            && (forall i :: 0 < i < |bs| ==> WordAfter(bs[i].start, bs[i - 1].start + bs[i - 1].size))
  {
    RunStacked(start, limit, ops);
    StackedIs(start, Run(Initial(start, limit), ops).blocks);
  }

  lemma RunStacked(start: Word, limit: Word, ops: seq<Op>)
    requires start <= limit <= 0x8000_0000 && forall k :: 0 <= k < |ops| ==> Growing(ops[k])
    ensures Stacked(start, Run(Initial(start, limit), ops).blocks)
  {
    FromStart(start, limit, ops);
  }

  lemma StackedIs(start: nat, bs: seq<Block>)
    requires Stacked(start, bs)
    ensures bs != [] ==> WordAfter(bs[0].start, start)
    ensures forall i :: 0 < i < |bs| ==> WordAfter(bs[i].start, bs[i - 1].start + bs[i - 1].size)
  {
    forall i | 0 < i < |bs| ensures WordAfter(bs[i].start, bs[i - 1].start + bs[i - 1].size) {
      assert WordAfter(bs[i].start, Reached(start, bs, i));
    }
  }

  /** After every run of growing requests: a further one is granted if and only if it fits
      between the first word boundary after the last block and the limit, and then it gets
      just that. A refusal leaves the blocks as they are. */
  lemma GrantedIff(start: Word, limit: Word, ops: seq<Op>, incr: nat, a: nat)
    requires start <= limit <= 0x8000_0000 && forall k :: 0 <= k < |ops| ==> Growing(ops[k])
    requires var bs := Run(Initial(start, limit), ops).blocks; WordAfter(a, Reached(start, bs, |bs|))
    requires incr < 0x8000_0000
    ensures var m := Run(Initial(start, limit), ops);
            && SbrkResult(m, incr) == (if a + incr <= limit then a else 0xFFFF_FFFF)
            && Apply(m, DoSbrk(incr)).blocks == m.blocks + if a + incr <= limit then [Block(a, incr, false)] else []
  {
    FromStart(start, limit, ops);
    GrantedAt(Run(Initial(start, limit), ops), incr, a);
  }

  lemma GrantedAt(m: Memory, incr: nat, a: nat)
    requires Tight(m) && WordAfter(a, Reached(m.start, m.blocks, |m.blocks|)) && incr < 0x8000_0000
    ensures a == Aligned(m.end) && (Fits(m, incr) <==> a + incr <= m.limit)
    ensures SbrkResult(m, incr) == if a + incr <= m.limit then a else 0xFFFF_FFFF
    ensures forall slab :: Sbrk(m, incr, slab).blocks
                           == m.blocks + if a + incr <= m.limit then [Block(a, incr, slab)] else []
  {
    FitsIff(m, incr);
    SameWord(a, Aligned(m.end), Reached(m.start, m.blocks, |m.blocks|));
  }

  lemma SameWord(a: int, b: int, x: int)
    requires WordAfter(a, x) && WordAfter(b, x)
    ensures a == b
  {
  }

  /** Giving back what was just obtained restores the heap's end if and only if it was whole
      words. Otherwise the end stays up to three bytes too high. */
  lemma GivingBack(m: Memory, n: int)
    requires Blocks(m) && 0 <= n < 0x8000_0000 && Fits(m, n)
    ensures var m1 := Sbrk(m, n, false);
            var m2 := Sbrk(m1, -n, false);
            && (Fits(m1, -n) && m2.end == Aligned(m.end) <==> n % 4 == 0)
            && (n % 4 != 0 && Fits(m1, -n) ==> Aligned(m.end) < m2.end < Aligned(m.end) + 4)
  {
    SbrkIs(m, n, false);
    FitsIff(m, n);
    AlignedIs(Aligned(m.end) + n);
    WholeWords(Aligned(m.end), n, Aligned(Aligned(m.end) + n));
  }

  lemma WholeWords(x: nat, n: nat, y: int)
    requires x % 4 == 0 && WordAfter(y, x + n)
    ensures if n % 4 == 0 then y - n == x else x < y - n < x + 4
  {
  }

  // ---------------------------------------------------------------- objects

  /** The last object ends where what is left of its slab begins. */
  predicate Packed(m: Memory) {
    m.objects != [] ==> var o := m.objects[|m.objects| - 1]; o.home == m.home && o.start + o.size == m.slab
  }

  /** A slab is only taken for an object. */
  predicate NoIdleSlab(m: Memory) { m.objects == [] ==> m.home == -1 }

  lemma AllocatePacked(m: Memory, size: Word)
    requires Inv(m) && !m.spoilt && size > 0 && Served(m, size)
    ensures Packed(Allocate(m, size)) && NoIdleSlab(Allocate(m, size))
  {
    AllocateKeeps(m, size);
    AllocateServedIff(m, size);
    var m' := Allocate(m, size);
    assert ObjectOk(m', m'.objects[|m.objects|]);
    CarvePacked(if NeedsSlab(m, size) then Refill(m) else m, size);
  }

  lemma CarvePacked(m: Memory, size: Word)
    requires m.slab + size < U32
    ensures Packed(Carve(m, size)) && NoIdleSlab(Carve(m, size))
  {
  }

  lemma ApplyPacked(m: Memory, op: Op)
    requires Inv(m) && !m.spoilt && Packed(m) && NoIdleSlab(m) && Growing(op) && ServedOp(m, op)
    ensures Packed(Apply(m, op)) && NoIdleSlab(Apply(m, op))
  {
    match op {
      case DoSbrk(_) =>
      case DoAllocate(size) => AllocatePacked(m, size);
      case DoRecord(newFunction) =>
        AllocatePacked(m, RECORD);
        if newFunction {
          AllocateKeeps(m, RECORD);
          AllocateServedIff(m, RECORD);
          AllocatePacked(Allocate(m, RECORD), RECORD);
        }
    }
  }

  lemma {:induction false} RunPacked(m: Memory, ops: seq<Op>)
    requires Inv(m) && !m.spoilt && Packed(m) && NoIdleSlab(m)
    requires (forall k :: 0 <= k < |ops| ==> Growing(ops[k])) && AllServed(m, ops)
    ensures Packed(Run(m, ops)) && NoIdleSlab(Run(m, ops))
    decreases |ops|
  {
    if ops != [] {
      ApplyKeeps(m, ops[0]);
      OpSpoilsIff(m, ops[0]);
      ApplyPacked(m, ops[0]);
      RunPacked(Apply(m, ops[0]), ops[1..]);
    }
  }

  /** The slab of the last object has room for size more bytes. */
  predicate RoomBehind(m: Memory, size: Word) {
    m.objects != [] && var o := m.objects[|m.objects| - 1];
                       IsSlab(m, o.home) && o.start + o.size + size <= Stop(m.blocks[o.home])
  }

  /** One allocation of a packed memory. */
  lemma AllocateNext(m: Memory, size: Word, a: nat)
    requires Inv(m) && Tight(m) && !m.spoilt && Packed(m) && NoIdleSlab(m) && size > 0
    requires WordAfter(a, Reached(m.start, m.blocks, |m.blocks|))
    ensures var m' := Allocate(m, size);
            && |m'.objects| == |m.objects| + 1 && m.objects <= m'.objects
            && var o := m'.objects[|m.objects|];
            && o.size == size
            && if RoomBehind(m, size) then
                 m'.blocks == m.blocks && o.start == m.objects[|m.objects| - 1].start + m.objects[|m.objects| - 1].size
               else if a + 1020 <= m.limit then
                 m'.blocks == m.blocks + [Block(a, 1020, true)] && o.start == a
               else
                 m'.blocks == m.blocks && o.start == 0xFFFF_FFFF
  {
    RoomIff(m, size);
    GrantedAt(m, SLAB, a);
    CarveIs(if NeedsSlab(m, size) then Refill(m) else m, size);
  }

  lemma CarveIs(m: Memory, size: Word)
    ensures var m' := Carve(m, size);
            m'.blocks == m.blocks && m'.objects == m.objects + [Object(m.slab, size, m.home)]
  {
  }

  lemma RoomIff(m: Memory, size: Word)
    requires Inv(m) && !m.spoilt && Packed(m) && NoIdleSlab(m) && size > 0
    ensures NeedsSlab(m, size) <==> !RoomBehind(m, size)
  {
  }

  /** After every run of growing requests whose allocations were served, the next object
      follows the last one directly when its slab has room, and starts a new slab when it has
      not; the new slab is the next block of 1020 bytes when the heap has room for one. */
  lemma NextObject(start: Word, limit: Word, ops: seq<Op>, size: Word, a: nat)
    requires start <= limit <= 0x8000_0000 && forall k :: 0 <= k < |ops| ==> Growing(ops[k])
    requires AllServed(Initial(start, limit), ops) && size > 0
    requires var bs := Run(Initial(start, limit), ops).blocks; WordAfter(a, Reached(start, bs, |bs|))
    ensures var m := Run(Initial(start, limit), ops);
            var m' := Apply(m, DoAllocate(size));
            && |m'.objects| == |m.objects| + 1 && m.objects <= m'.objects
            && var o := m'.objects[|m.objects|];
            && o.size == size
            && if RoomBehind(m, size) then
                 m'.blocks == m.blocks && o.start == m.objects[|m.objects| - 1].start + m.objects[|m.objects| - 1].size
               else if a + 1020 <= limit then
                 m'.blocks == m.blocks + [Block(a, 1020, true)] && o.start == a
               else
                 m'.blocks == m.blocks && o.start == 0xFFFF_FFFF
  {
    FromStart(start, limit, ops);
    InitialInv(start, limit);
    RunSpoilsIff(Initial(start, limit), ops);
    RunPacked(Initial(start, limit), ops);
    AllocateNext(Run(Initial(start, limit), ops), size, a);
  }

  /** A record takes 12 bytes, and a new function's comes right before its first arc's. */
  lemma RecordsAre(m: Memory, newFunction: bool)
    ensures var m' := Record(m, newFunction);
            && |m'.objects| == |m.objects| + (if newFunction then 2 else 1) && m.objects <= m'.objects
            && forall i :: |m.objects| <= i < |m'.objects| ==> m'.objects[i].size == 12
    ensures newFunction ==> Record(m, true) == Apply(Apply(m, DoAllocate(12)), DoAllocate(12))
    ensures Record(m, false) == Apply(m, DoAllocate(12))
  {
  }
}
