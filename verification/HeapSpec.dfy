/** Two-level allocation: sbrk hands out word-aligned blocks from the end of the heap, and the
    profiler carves its records out of 1020-byte slabs it gets from sbrk. Addresses are
    32-bit; the additions wrap as on the machine. */
module HeapSpec {
  import opened Words

  const SLAB := 1020
  const RECORD := 12
  const FAILED := 0xFFFF_FFFF

  /** A block that sbrk handed out, to the profiler or to anyone else. */
  datatype Block = Block(start: nat, size: int, slab: bool)

  /** A record; `home` is the index of the block that was the slab at the time. */
  datatype Object = Object(start: nat, size: nat, home: int)

  /** The program's variables `end`, `slab` and `left`, and the history of what was handed
      out. `home` is the block that is the slab now, and `spoilt` says that the slab pointer
      was not, or is no longer, inside a slab. */
  datatype Memory = Memory(start: nat, limit: nat, end: Word, slab: Word, left: int,
                           home: int, spoilt: bool, blocks: seq<Block>, objects: seq<Object>)

  function Initial(start: Word, limit: Word): Memory {
    Memory(start, limit, start, 0, 0, -1, false, [], [])
  }

  /** Rounds up to a word boundary; wraps at the top of memory. */
  function Aligned(x: Word): (r: Word)
    ensures r % 4 == 0
    ensures x <= FAILED - 3 ==> x <= r <= x + 3
  {
    (x + 3) % U32 / 4 * 4
  }

  /** The test on the new end of the heap. */
  predicate Fits(m: Memory, incr: int) { (Aligned(m.end) + incr) % U32 <= m.limit }

  function SbrkResult(m: Memory, incr: int): Word {
    if Fits(m, incr) then Aligned(m.end) else FAILED
  }

  /** A call of sbrk. The end is aligned even when the call fails. */
  function Sbrk(m: Memory, incr: int, slab: bool): Memory {
    if Fits(m, incr)
    then m.(end := (Aligned(m.end) + incr) % U32, blocks := m.blocks + [Block(Aligned(m.end), incr, slab)])
    else m.(end := Aligned(m.end))
  }

  /** A new slab. The result of sbrk is not looked at. */
  function Refill(m: Memory): Memory {
    var fits := Fits(m, SLAB);
    Sbrk(m, SLAB, true).(slab := SbrkResult(m, SLAB), left := SLAB,
                         home := if fits then |m.blocks| else -1, spoilt := m.spoilt || !fits)
  }

  /** The comparison is unsigned. */
  predicate NeedsSlab(m: Memory, size: Word) { size > m.left % U32 }

  function Carve(m: Memory, size: Word): Memory {
    m.(slab := (m.slab + size) % U32, left := Signed(m.left - size), spoilt := m.spoilt || size > SLAB,
       objects := m.objects + [Object(m.slab, size, m.home)])
  }

  function Allocate(m: Memory, size: Word): Memory {
    Carve(if NeedsSlab(m, size) then Refill(m) else m, size)
  }

  /** Recording a call arc takes one record for the arc, and one more before it for a
      function that is called for the first time. */
  function Record(m: Memory, newFunction: bool): Memory {
    Allocate(if newFunction then Allocate(m, RECORD) else m, RECORD)
  }

  datatype Op = DoSbrk(incr: int) | DoAllocate(size: Word) | DoRecord(newFunction: bool)

  function Apply(m: Memory, op: Op): Memory {
    match op
    case DoSbrk(incr) => Sbrk(m, incr, false)
    case DoAllocate(size) => Allocate(m, size)
    case DoRecord(newFunction) => Record(m, newFunction)
  }

  function Run(m: Memory, ops: seq<Op>): Memory
    decreases |ops|
  {
    if ops == [] then m else Run(Apply(m, ops[0]), ops[1..])
  }

  /** Growing requests that the machine can represent, and records that are not empty. */
  predicate Growing(op: Op) {
    match op
    case DoSbrk(incr) => 0 <= incr < 0x8000_0000
    case DoAllocate(size) => size > 0
    case DoRecord(_) => true
  }

  // ---------------------------------------------------------------- what every call keeps

  function Stop(b: Block): int { b.start + b.size }

  /** A block is aligned and lies inside the heap. */
  predicate BlockOk(m: Memory, b: Block) {
    b.start % 4 == 0 && m.start <= b.start && 0 <= b.size && Stop(b) <= m.limit && Stop(b) <= m.end
        && (b.slab ==> b.size == SLAB)
  }

  /** The address space has 31 bits. Blocks lie one after the other. */
  predicate Blocks(m: Memory) {
    && m.start <= m.end <= 0x8000_0000 && m.limit <= 0x8000_0000
    && (forall i :: 0 <= i < |m.blocks| ==> BlockOk(m, m.blocks[i]))
    && (forall i, j :: 0 <= i < j < |m.blocks| ==> Stop(m.blocks[i]) <= m.blocks[j].start)
  }

  predicate IsSlab(m: Memory, home: int) { 0 <= home < |m.blocks| && m.blocks[home].slab }

  /** An object lies inside the slab it came from. */
  predicate InSlab(m: Memory, o: Object) {
    IsSlab(m, o.home) && m.blocks[o.home].start <= o.start && o.size > 0 && o.start + o.size <= Stop(m.blocks[o.home])
  }

  /** What is left of the slab is its end. */
  predicate Slab(m: Memory) {
    0 <= m.left <= SLAB
    && if m.home == -1 then m.left == 0 && m.objects == []
        else IsSlab(m, m.home) && m.slab + m.left == Stop(m.blocks[m.home])
  }

  /** An object of the current or an earlier slab, and not in the part still left. */
  predicate ObjectOk(m: Memory, o: Object) {
    InSlab(m, o) && o.home <= m.home && (o.home == m.home ==> o.start + o.size <= m.slab)
  }

  predicate Objects(m: Memory) {
    && (forall i :: 0 <= i < |m.objects| ==> ObjectOk(m, m.objects[i]))
    && (forall i, j :: 0 <= i < j < |m.objects| ==> m.objects[i].start + m.objects[i].size <= m.objects[j].start)
  }

  predicate Inv(m: Memory) { Blocks(m) && (!m.spoilt ==> Slab(m) && Objects(m)) }

  lemma InitialInv(start: Word, limit: Word)
    requires start <= limit <= 0x8000_0000
    ensures Inv(Initial(start, limit))
  {
  }

  /** The machine's test is the real one: no request wraps around. */
  lemma FitsIff(m: Memory, incr: int)
    requires Blocks(m) && 0 <= incr < 0x8000_0000
    ensures Fits(m, incr) <==> Aligned(m.end) + incr <= m.limit
    ensures Fits(m, incr) ==> (Aligned(m.end) + incr) % U32 == Aligned(m.end) + incr
    ensures m.end <= Aligned(m.end) <= 0x8000_0000
  {
  }

  lemma SbrkKeeps(m: Memory, incr: int, slab: bool)
    requires Inv(m) && 0 <= incr < 0x8000_0000 && (slab ==> incr == SLAB)
    ensures Inv(Sbrk(m, incr, slab))
  {
    FitsIff(m, incr);
    var m' := Sbrk(m, incr, slab);
    forall i | 0 <= i < |m'.blocks| ensures BlockOk(m', m'.blocks[i]) {
      if i < |m.blocks| { assert BlockOk(m, m.blocks[i]); }
    }
    if !m.spoilt {
      forall i | 0 <= i < |m'.objects| ensures ObjectOk(m', m'.objects[i]) { assert ObjectOk(m, m.objects[i]); }
    }
  }

  lemma RefillKeeps(m: Memory)
    requires Inv(m)
    ensures Inv(Refill(m)) && Refill(m).left == SLAB
  {
    FitsIff(m, SLAB);
    SbrkKeeps(m, SLAB, true);
    var m1, m' := Sbrk(m, SLAB, true), Refill(m);
    assert m'.blocks == m1.blocks && m'.objects == m1.objects && m'.end == m1.end;
    forall i | 0 <= i < |m'.blocks| ensures BlockOk(m', m'.blocks[i]) { assert BlockOk(m1, m1.blocks[i]); }
    if !m'.spoilt {
      forall i | 0 <= i < |m'.objects| ensures ObjectOk(m', m'.objects[i]) { assert ObjectOk(m1, m1.objects[i]); }
    }
  }

  lemma CarveKeeps(m: Memory, size: Word)
    requires Inv(m) && size > 0 && (!m.spoilt ==> size <= m.left || size > SLAB)
    ensures Inv(Carve(m, size))
  {
    var m' := Carve(m, size);
    forall i | 0 <= i < |m'.blocks| ensures BlockOk(m', m'.blocks[i]) { assert BlockOk(m, m.blocks[i]); }
    if !m'.spoilt { CarveFromSlab(m, size); }
  }

  lemma CarveFromSlab(m: Memory, size: Word)
    requires Inv(m) && !m.spoilt && 0 < size <= m.left
    ensures Slab(Carve(m, size)) && Objects(Carve(m, size))
  {
    var m' := Carve(m, size);
    assert BlockOk(m, m.blocks[m.home]);
    assert m'.slab == m.slab + size && m'.left == m.left - size;
    forall i | 0 <= i < |m'.objects| ensures ObjectOk(m', m'.objects[i]) {
      if i < |m.objects| { BeforeSlab(m, i); }
    }
    forall i, j | 0 <= i < j < |m'.objects| ensures m'.objects[i].start + m'.objects[i].size <= m'.objects[j].start {
      if j == |m.objects| { BeforeSlab(m, i); }
    }
  }

  /** Everything carved so far lies before what is left of the slab. */
  lemma BeforeSlab(m: Memory, i: nat)
    requires Inv(m) && !m.spoilt && i < |m.objects|
    ensures ObjectOk(m, m.objects[i]) && m.objects[i].start + m.objects[i].size <= m.slab
  {
    var o := m.objects[i];
    assert ObjectOk(m, o) && BlockOk(m, m.blocks[m.home]);
    if o.home < m.home {
      assert Stop(m.blocks[o.home]) <= m.blocks[m.home].start;
    }
  }

  lemma AllocateKeeps(m: Memory, size: Word)
    requires Inv(m) && size > 0
    ensures Inv(Allocate(m, size))
  {
    if NeedsSlab(m, size) {
      RefillKeeps(m);
      CarveKeeps(Refill(m), size);
    } else {
      CarveKeeps(m, size);
    }
  }

  lemma ApplyKeeps(m: Memory, op: Op)
    requires Inv(m) && Growing(op)
    ensures Inv(Apply(m, op))
  {
    match op {
      case DoSbrk(incr) => SbrkKeeps(m, incr, false);
      case DoAllocate(size) => AllocateKeeps(m, size);
      case DoRecord(newFunction) =>
        if newFunction {
          AllocateKeeps(m, RECORD);
          AllocateKeeps(Allocate(m, RECORD), RECORD);
        } else {
          AllocateKeeps(m, RECORD);
        }
    }
  }

  lemma {:induction false} RunKeeps(m: Memory, ops: seq<Op>)
    requires Inv(m) && forall k :: 0 <= k < |ops| ==> Growing(ops[k])
    ensures Inv(Run(m, ops))
    decreases |ops|
  {
    if ops != [] {
      ApplyKeeps(m, ops[0]);
      RunKeeps(Apply(m, ops[0]), ops[1..]);
    }
  }

  // ---------------------------------------------------------------- when an allocation is good

  /** The condition under which an allocation is served, to be checked before the call. */
  predicate Served(m: Memory, size: Word) { size <= SLAB && (size <= m.left || Fits(m, SLAB)) }

  ghost predicate InSomeSlab(m: Memory, o: Object) {
    exists h :: IsSlab(m, h) && m.blocks[h].start <= o.start && o.start + o.size <= Stop(m.blocks[h])
  }

  /** What Allocate hands out lies in a slab if and only if the request was no larger than a
      slab and there was room, in the slab or for a new one. */
  lemma AllocateServedIff(m: Memory, size: Word)
    requires Inv(m) && !m.spoilt && size > 0
    ensures var m' := Allocate(m, size);
            && |m'.objects| == |m.objects| + 1
            && (InSomeSlab(m', m'.objects[|m.objects|]) <==> Served(m, size))
            && (m'.spoilt <==> !Served(m, size))
  {
    AllocateKeeps(m, size);
    FitsIff(m, SLAB);
    var m' := Allocate(m, size);
    var o := m'.objects[|m.objects|];
    if Served(m, size) {
      assert ObjectOk(m', o);
      assert IsSlab(m', o.home);
    } else {
      forall h | IsSlab(m', h) ensures !(m'.blocks[h].start <= o.start && o.start + o.size <= Stop(m'.blocks[h])) {
        assert BlockOk(m', m'.blocks[h]);
      }
    }
  }

  /** A call of which every allocation is served. */
  predicate ServedOp(m: Memory, op: Op) {
    match op
    case DoSbrk(_) => true
    case DoAllocate(size) => Served(m, size)
    case DoRecord(newFunction) =>
      (newFunction ==> Served(m, RECORD)) && Served(if newFunction then Allocate(m, RECORD) else m, RECORD)
  }

  predicate AllServed(m: Memory, ops: seq<Op>)
    decreases |ops|
  {
    ops == [] || (ServedOp(m, ops[0]) && AllServed(Apply(m, ops[0]), ops[1..]))
  }

  lemma OpSpoilsIff(m: Memory, op: Op)
    requires Inv(m) && !m.spoilt && Growing(op)
    ensures Apply(m, op).spoilt <==> !ServedOp(m, op)
  {
    match op {
      case DoSbrk(_) =>
      case DoAllocate(size) => AllocateServedIff(m, size);
      case DoRecord(newFunction) =>
        AllocateServedIff(m, RECORD);
        if newFunction && Served(m, RECORD) {
          AllocateKeeps(m, RECORD);
          AllocateServedIff(Allocate(m, RECORD), RECORD);
        }
    }
  }

  lemma {:induction false} SpoiltStays(m: Memory, ops: seq<Op>)
    requires m.spoilt
    ensures Run(m, ops).spoilt
    decreases |ops|
  {
    if ops != [] { SpoiltStays(Apply(m, ops[0]), ops[1..]); }
  }

  /** A run spoils the slab if and only if some allocation in it was not served. */
  lemma {:induction false} RunSpoilsIff(m: Memory, ops: seq<Op>)
    requires Inv(m) && !m.spoilt && forall k :: 0 <= k < |ops| ==> Growing(ops[k])
    ensures Run(m, ops).spoilt <==> !AllServed(m, ops)
    decreases |ops|
  {
    if ops != [] {
      OpSpoilsIff(m, ops[0]);
      ApplyKeeps(m, ops[0]);
      if Apply(m, ops[0]).spoilt {
        SpoiltStays(Apply(m, ops[0]), ops[1..]);
      } else {
        RunSpoilsIff(Apply(m, ops[0]), ops[1..]);
      }
    }
  }

  // ---------------------------------------------------------------- the results over runs

  predicate Apart(a: int, n: int, b: int, k: int) { a + n <= b || b + k <= a }

  /** Over every run of growing requests: blocks are word-aligned, inside the heap and
      pairwise disjoint. */
  lemma BlocksOverRuns(start: Word, limit: Word, ops: seq<Op>)
    requires start <= limit <= 0x8000_0000 && forall k :: 0 <= k < |ops| ==> Growing(ops[k])
    ensures var bs := Run(Initial(start, limit), ops).blocks;
            && (forall i :: 0 <= i < |bs| ==> bs[i].start % 4 == 0 && start <= bs[i].start && Stop(bs[i]) <= limit)
            && (forall i, j :: 0 <= i < j < |bs| ==> Apart(bs[i].start, bs[i].size, bs[j].start, bs[j].size))
  {
    InitialInv(start, limit);
    RunKeeps(Initial(start, limit), ops);
    RunSameHeap(Initial(start, limit), ops);
    var m := Run(Initial(start, limit), ops);
    forall i | 0 <= i < |m.blocks| ensures BlockOk(m, m.blocks[i]) {}
  }

  lemma {:induction false} RunSameHeap(m: Memory, ops: seq<Op>)
    ensures Run(m, ops).start == m.start && Run(m, ops).limit == m.limit
    decreases |ops|
  {
    if ops != [] { RunSameHeap(Apply(m, ops[0]), ops[1..]); }
  }

  /** As long as every allocation was served: objects lie in slabs, are pairwise disjoint, and
      are disjoint from every block that is not a slab. */
  lemma ObjectsOverRuns(start: Word, limit: Word, ops: seq<Op>)
    requires start <= limit <= 0x8000_0000 && forall k :: 0 <= k < |ops| ==> Growing(ops[k])
    requires AllServed(Initial(start, limit), ops)
    ensures var m := Run(Initial(start, limit), ops);
            && (forall i :: 0 <= i < |m.objects| ==> InSlab(m, m.objects[i]))
            && (forall i, j :: 0 <= i < j < |m.objects| ==>
                  Apart(m.objects[i].start, m.objects[i].size, m.objects[j].start, m.objects[j].size))
            && (forall i, b :: 0 <= i < |m.objects| && 0 <= b < |m.blocks| && !m.blocks[b].slab ==>
                  Apart(m.objects[i].start, m.objects[i].size, m.blocks[b].start, m.blocks[b].size))
  {
    InitialInv(start, limit);
    RunKeeps(Initial(start, limit), ops);
    RunSpoilsIff(Initial(start, limit), ops);
    var m := Run(Initial(start, limit), ops);
    forall i | 0 <= i < |m.objects| ensures InSlab(m, m.objects[i]) { assert ObjectOk(m, m.objects[i]); }
    forall i, b | 0 <= i < |m.objects| && 0 <= b < |m.blocks| && !m.blocks[b].slab
      ensures Apart(m.objects[i].start, m.objects[i].size, m.blocks[b].start, m.blocks[b].size)
    {
      AwayFromBlock(m, m.objects[i], b);
    }
  }

  lemma AwayFromBlock(m: Memory, o: Object, b: nat)
    requires Inv(m) && InSlab(m, o) && b < |m.blocks| && !m.blocks[b].slab
    ensures Apart(o.start, o.size, m.blocks[b].start, m.blocks[b].size)
  {
    if o.home < b {
      assert Stop(m.blocks[o.home]) <= m.blocks[b].start;
    } else {
      assert Stop(m.blocks[b]) <= m.blocks[o.home].start;
    }
  }

  // ---------------------------------------------------------------- when every object is good

  /** Too large for a slab, or above all addresses of the heap. */
  predicate Misplaced(o: Object) { o.size > SLAB || o.start > 0x8000_0000 }

  ghost predicate HasMisplaced(objects: seq<Object>) { exists i :: 0 <= i < |objects| && Misplaced(objects[i]) }

  lemma MisplacedIsOutside(m: Memory, o: Object)
    requires Blocks(m) && Misplaced(o)
    ensures !InSomeSlab(m, o)
  {
    forall h | IsSlab(m, h) ensures !(m.blocks[h].start <= o.start && o.start + o.size <= Stop(m.blocks[h])) {
      assert BlockOk(m, m.blocks[h]);
    }
  }

  /** What was handed out stays recorded. */
  lemma {:induction false} ObjectsPersist(m: Memory, ops: seq<Op>)
    ensures m.objects <= Run(m, ops).objects
    decreases |ops|
  {
    if ops != [] { ObjectsPersist(Apply(m, ops[0]), ops[1..]); }
  }

  lemma MisplacedPersists(some: seq<Object>, more: seq<Object>)
    requires some <= more && HasMisplaced(some)
    ensures HasMisplaced(more)
  {
    var i :| 0 <= i < |some| && Misplaced(some[i]);
    assert Misplaced(more[i]);
  }

  lemma UnservedMisplaces(m: Memory, size: Word)
    requires 0 <= m.left <= SLAB && !Served(m, size)
    ensures HasMisplaced(Allocate(m, size).objects)
  {
    assert Misplaced(Allocate(m, size).objects[|m.objects|]);
  }

  lemma UnservedOpMisplaces(m: Memory, op: Op)
    requires Inv(m) && !m.spoilt && Growing(op) && !ServedOp(m, op)
    ensures HasMisplaced(Apply(m, op).objects)
  {
    match op {
      case DoAllocate(size) => UnservedMisplaces(m, size);
      case DoRecord(newFunction) =>
        if newFunction && !Served(m, RECORD) {
          UnservedMisplaces(m, RECORD);
          MisplacedPersists(Allocate(m, RECORD).objects, Record(m, true).objects);
        } else if newFunction {
          AllocateKeeps(m, RECORD);
          AllocateServedIff(m, RECORD);
          UnservedMisplaces(Allocate(m, RECORD), RECORD);
        } else {
          UnservedMisplaces(m, RECORD);
        }
    }
  }

  lemma {:induction false} UnservedRunMisplaces(m: Memory, ops: seq<Op>)
    requires Inv(m) && !m.spoilt && (forall k :: 0 <= k < |ops| ==> Growing(ops[k])) && !AllServed(m, ops)
    ensures HasMisplaced(Run(m, ops).objects)
    decreases |ops|
  {
    var m1 := Apply(m, ops[0]);
    if ServedOp(m, ops[0]) {
      ApplyKeeps(m, ops[0]);
      OpSpoilsIff(m, ops[0]);
      UnservedRunMisplaces(m1, ops[1..]);
    } else {
      UnservedOpMisplaces(m, ops[0]);
      ObjectsPersist(m1, ops[1..]);
      MisplacedPersists(m1.objects, Run(m1, ops[1..]).objects);
    }
  }

  ghost predicate AllInSlabs(m: Memory) { forall i :: 0 <= i < |m.objects| ==> InSomeSlab(m, m.objects[i]) }

  lemma UnspoiltIsInSlabs(m: Memory)
    requires Inv(m) && !m.spoilt
    ensures AllInSlabs(m)
  {
    forall i | 0 <= i < |m.objects| ensures InSomeSlab(m, m.objects[i]) {
      assert ObjectOk(m, m.objects[i]);
      assert IsSlab(m, m.objects[i].home);
    }
  }

  lemma MisplacedIsNotInSlabs(m: Memory)
    requires Blocks(m) && HasMisplaced(m.objects)
    ensures !AllInSlabs(m)
  {
    var i :| 0 <= i < |m.objects| && Misplaced(m.objects[i]);
    MisplacedIsOutside(m, m.objects[i]);
  }

  /** Over every run of growing requests: all objects lie in slabs if and only if every
      allocation found room when it was made, and asked for no more than a slab. */
  lemma ObjectsInSlabsIff(start: Word, limit: Word, ops: seq<Op>)
    requires start <= limit <= 0x8000_0000 && forall k :: 0 <= k < |ops| ==> Growing(ops[k])
    ensures AllInSlabs(Run(Initial(start, limit), ops)) <==> AllServed(Initial(start, limit), ops)
  {
    InitialInv(start, limit);
    RunKeeps(Initial(start, limit), ops);
    if AllServed(Initial(start, limit), ops) {
      RunSpoilsIff(Initial(start, limit), ops);
      UnspoiltIsInSlabs(Run(Initial(start, limit), ops));
    } else {
      UnservedRunMisplaces(Initial(start, limit), ops);
      MisplacedIsNotInSlabs(Run(Initial(start, limit), ops));
    }
  }

  /** The storage of a served allocation lies after everything handed out before. */
  lemma ServedIsNew(m: Memory, size: Word)
    requires Inv(m) && !m.spoilt && size > 0 && Served(m, size)
    ensures var m' := Allocate(m, size);
            && Inv(m') && !m'.spoilt && |m'.objects| == |m.objects| + 1 && m.objects <= m'.objects
            && var o := m'.objects[|m.objects|];
               o.size == size && m.start <= o.start
               && forall i :: 0 <= i < |m.objects| ==> m.objects[i].start + m.objects[i].size <= o.start
  {
    AllocateKeeps(m, size);
    AllocateServedIff(m, size);
    var m' := Allocate(m, size);
    var o := m'.objects[|m.objects|];
    assert ObjectOk(m', o);
    assert BlockOk(m', m'.blocks[o.home]);
    forall i | 0 <= i < |m.objects| ensures m.objects[i].start + m.objects[i].size <= o.start {
      assert m'.objects[i] == m.objects[i];
    }
  }

  // ---------------------------------------------------------------- what goes wrong

  /** A full heap: the first record is put at the top of memory, and wraps around to its
      bottom. */
  lemma UncheckedRefill()
    ensures var m := Record(Initial(0x1000, 0x1000), false);
            m.objects == [Object(FAILED, RECORD, -1)] && m.slab == 11
  {
    assert Aligned(0x1000) == 0x1000 && !Fits(Initial(0x1000, 0x1000), SLAB);
  }

  /** For a heap end inside a limit anywhere in memory, the machine's test is the real one if
      and only if the new end does not wrap. */
  lemma TestIsRealIff(m: Memory, incr: Word)
    requires Aligned(m.end) <= m.limit < U32
    ensures (Fits(m, incr) <==> Aligned(m.end) + incr <= m.limit) <==> Aligned(m.end) + incr < U32
  {
  }

  /** Beyond 31-bit addresses the test could be fooled: a request that wraps is granted. */
  lemma WrapIsGranted()
    ensures Fits(Initial(0x9000_0000, 0xA000_0000), 0x7FFF_FFFC)
  {
    assert Aligned(0x9000_0000) == 0x9000_0000;
    TestIsRealIff(Initial(0x9000_0000, 0xA000_0000), 0x7FFF_FFFC);
  }
}
