/** The program's side of the allocator: the static variables of sbrk and of the profiler. */
module Heap {
  import opened Words
  import opened HeapSpec
  import opened CallGraph
  import opened CallCounts

  class Allocator {
    const heapStart: Word
    const heapLimit: Word
    var heapEnd: Word
    var slabPtr: Word
    var slabSize: int
    ghost var home: int
    ghost var spoilt: bool
    ghost var blocks: seq<Block>
    ghost var objects: seq<Object>
    var graph: Graph
    ghost var lists: Lists
    ghost var calls: multiset<Call>

    ghost function View(): Memory
      reads this
    {
      Memory(heapStart, heapLimit, heapEnd, slabPtr, slabSize, home, spoilt, blocks, objects)
    }

    ghost function Profile(): CallCounts.Profile
      reads this
    {
      CallCounts.Profile(View(), graph, lists)
    }

    constructor (start: Word, limit: Word)
      ensures View() == Initial(start, limit)
      ensures 0 < start <= limit <= 0x8000_0000 ==> GraphOk()
      ensures 0 < start <= limit <= 0x8000_0000 ==> Good(Profile(), calls) && Shape(Profile()) && calls == multiset{}
    {
      heapStart, heapLimit, heapEnd, slabPtr, slabSize := start, limit, start, 0, 0;
      home, spoilt, blocks, objects := -1, false, [], [];
      graph := Graph(map[], seq(BUCKETS, _ => NULL));
      lists := Lists(seq(BUCKETS, _ => []), map[]);
      calls := multiset{};
    }

    method Sbrk(incr: int, ghost forSlab: bool) returns (address: Word)
      modifies this`heapEnd, this`blocks
      ensures View() == HeapSpec.Sbrk(old(View()), incr, forSlab) && address == SbrkResult(old(View()), incr)
    {
      heapEnd := (heapEnd + 3) % U32 / 4 * 4;
      if (heapEnd + incr) % U32 > heapLimit {
        return FAILED;
      }
      var prevHeapEnd := heapEnd;
      heapEnd := (heapEnd + incr) % U32;
      blocks := blocks + [Block(prevHeapEnd, incr, forSlab)];
      return prevHeapEnd;
    }

    /** A new slab, whether or not there is one to be had. */
    method NextSlab()
      modifies this`heapEnd, this`slabPtr, this`slabSize, this`home, this`spoilt, this`blocks
      ensures View() == Refill(old(View()))
    {
      ghost var fits := Fits(View(), SLAB);
      home := if fits then |blocks| else -1;
      spoilt := spoilt || !fits;
      slabPtr := Sbrk(SLAB, true);
      slabSize := SLAB;
    }

    method McountAllocate(size: Word) returns (data: Word)
      modifies this`heapEnd, this`slabPtr, this`slabSize, this`home, this`spoilt, this`blocks, this`objects
      ensures View() == HeapSpec.Allocate(old(View()), size)
      ensures |objects| == |old(objects)| + 1 && data == objects[|old(objects)|].start
    {
      if size > slabSize % U32 {
        NextSlab();
      }
      data := slabPtr;
      slabPtr := (slabPtr + size) % U32;
      slabSize := Signed(slabSize - size);
      objects := objects + [Object(data, size, home)];
      spoilt := spoilt || size > SLAB;
    }

    ghost predicate GraphOk()
      reads this
    {
      Sound(View(), graph, lists)
    }

    /** Storage for a record that is new to the graph. */
    method NewRecord() returns (at: Word)
      modifies this`heapEnd, this`slabPtr, this`slabSize, this`home, this`spoilt, this`blocks, this`objects
      ensures View() == HeapSpec.Allocate(old(View()), RECORD)
      ensures |objects| == |old(objects)| + 1 && at == objects[|old(objects)|].start == NextRecord(old(View()))
      ensures old(GraphOk()) && Served(old(View()), RECORD) ==> GraphOk() && Unused(View(), graph, at)
    {
      if GraphOk() && Served(View(), RECORD) {
        RecordIsUnused(View(), graph, lists);
      }
      at := McountAllocate(RECORD);
    }

    /** Puts a function into new storage, at the head of its bucket's list. */
    method NewFunction(bucket: nat, selfPc: Word) returns (at: Word)
      requires |graph.heads| == BUCKETS && bucket < BUCKETS
      modifies this
      ensures View() == HeapSpec.Allocate(old(View()), RECORD) && at == NextRecord(old(View()))
      ensures graph == AddFunction(old(graph), bucket, at, selfPc)
      ensures old(GraphOk() && Served(View(), RECORD)) ==> GraphOk() && lists == WithFunction(old(lists), bucket, at)
      ensures calls == old(calls)
    {
      at := NewRecord();
      if GraphOk() && Unused(View(), graph, at) {
        FunctionIsSound(View(), graph, lists, bucket, at, selfPc);
        lists := WithFunction(lists, bucket, at);
      }
      graph := Graph(graph.cells[at := Cell(graph.heads[bucket], selfPc, NULL)], graph.heads[bucket := at]);
    }

    /** Puts an arc into new storage, at the head of its function's list. */
    method NewArc(entry: Word, fromPc: Word) returns (at: Word)
      requires entry in graph.cells
      modifies this
      ensures View() == HeapSpec.Allocate(old(View()), RECORD) && at == NextRecord(old(View()))
      ensures graph == AddArc(old(graph), entry, at, fromPc)
      ensures old(GraphOk() && Served(View(), RECORD) && entry in lists.arcs) ==>
              GraphOk() && lists == WithArc(old(lists), entry, at) && at !in old(graph.cells)
      ensures calls == old(calls)
    {
      at := NewRecord();
      assert old(GraphOk() && Served(View(), RECORD)) ==> at !in graph.cells;
      LinkArc(entry, at, fromPc);
    }

    method LinkArc(entry: Word, at: Word, fromPc: Word)
      requires entry in graph.cells
      modifies this`graph, this`lists
      ensures graph == AddArc(old(graph), entry, at, fromPc)
      ensures old(GraphOk() && Unused(View(), graph, at) && entry in lists.arcs) ==>
              GraphOk() && lists == WithArc(old(lists), entry, at)
    {
      if GraphOk() && Unused(View(), graph, at) && entry in lists.arcs {
        ArcIsSound(View(), graph, lists, entry, at, fromPc);
        lists := WithArc(lists, entry, at);
      }
      var cells := graph.cells[at := Cell(graph.cells[entry].last, fromPc, 1)];
      graph := graph.(cells := cells[entry := cells[entry].(last := at)]);
    }

    /** Records a call arc; `fnEntry` is the function's record, or NULL when it has none. As
        long as the allocations are served, a new function comes first in its bucket's list
        and the arc first in its function's, and all other lists are as they were. */
    method McountRecord(selfPc: Word, fromPc: Word, fnEntry: Word, bucket: nat) returns (entry: Word, arc: Word)
      requires |graph.heads| == BUCKETS && bucket < BUCKETS && (fnEntry != NULL ==> fnEntry in graph.cells)
      modifies this
      ensures View() == HeapSpec.Record(old(View()), fnEntry == NULL)
      ensures entry == if fnEntry != NULL then fnEntry else NextRecord(old(View()))
      ensures arc == NextRecord(if fnEntry != NULL then old(View()) else HeapSpec.Allocate(old(View()), RECORD))
      ensures var g := if fnEntry == NULL then AddFunction(old(graph), bucket, entry, selfPc) else old(graph);
              graph == AddArc(g, entry, arc, fromPc)
      ensures old(GraphOk() && ServedOp(View(), DoRecord(fnEntry == NULL))
              && (fnEntry != NULL ==> fnEntry in lists.arcs)) ==>
        var l := if fnEntry == NULL then WithFunction(old(lists), bucket, entry) else old(lists);
        GraphOk() && lists == WithArc(l, entry, arc) && arc != entry
      ensures arc != entry ==> graph.cells[arc].pc == fromPc && graph.cells[arc].last == 1
      ensures fnEntry == NULL && arc != entry ==> graph.cells[entry].pc == selfPc
      ensures calls == old(calls)
    {
      entry := fnEntry;
      ghost var m := View();
      if fnEntry == NULL {
        entry := NewFunction(bucket, selfPc);
        m := View();
      }
      assert old(ServedOp(View(), DoRecord(fnEntry == NULL))) ==> Served(m, RECORD);
      ghost var g := graph;
      arc := NewArc(entry, fromPc);
      if arc != entry { ArcHolds(g, entry, arc, fromPc); }
    }

    /** The lists can be looked up in. */
    ghost predicate Linkable()
      reads this
    {
      && Shape(Profile()) && Represents(graph, lists)
      && forall f :: f in lists.arcs ==> lists.arcs[f] != []
    }

    /** Follows the links of a list, from its head, to the first record with this pc. */
    method FindFunction(head: Word, ghost records: seq<Word>, pc: Word) returns (p: Word)
      requires Chain(graph.cells, head, records)
      ensures p == Find(graph.cells, records, pc)
    {
      p := head;
      ghost var rest := records;
      while p != NULL
        invariant Chain(graph.cells, p, rest) && Find(graph.cells, records, pc) == Find(graph.cells, rest, pc)
        decreases |rest|
      {
        if graph.cells[p].pc == pc {
          return;
        }
        p, rest := graph.cells[p].next, rest[1..];
      }
    }

    /** The same for a list that is not empty, which is not looked at first. */
    method FindArc(head: Word, ghost records: seq<Word>, pc: Word) returns (p: Word)
      requires Chain(graph.cells, head, records) && records != []
      ensures p == Find(graph.cells, records, pc)
    {
      p := head;
      ghost var rest := records;
      while graph.cells[p].pc != pc
        invariant Chain(graph.cells, p, rest) && rest != []
        invariant Find(graph.cells, records, pc) == Find(graph.cells, rest, pc)
        decreases |rest|
      {
        p, rest := graph.cells[p].next, rest[1..];
        if p == NULL {
          return;
        }
      }
    }

    /** The records of a call, as far as there are any. */
    method Lookup(selfPc: Word, fromPc: Word, bucket: nat) returns (f: Word, a: Word)
      requires Linkable() && bucket == Bucket(selfPc)
      ensures f == FunctionOf(Profile(), Call(selfPc, fromPc)) && a == ArcOf(Profile(), Call(selfPc, fromPc))
      ensures f != NULL ==> f in lists.arcs
    {
      a := NULL;
      f := FindFunction(graph.heads[bucket], lists.functions[bucket], selfPc);
      if f != NULL {
        ListedIn(lists, bucket, f);
        a := FindArc(graph.cells[f].last, lists.arcs[f], fromPc);
      }
    }

    /** A call whose arc is not known yet. */
    method RecordNew(f: Word, c: Call, bucket: nat)
      requires GraphOk() && Shape(Profile()) && bucket == Bucket(c.self)
      requires ArcOf(Profile(), c) == NULL && f == FunctionOf(Profile(), c) && (f != NULL ==> f in lists.arcs)
      modifies this
      ensures old(Room(Profile(), c)) ==> Profile() == Enter(old(Profile()), c)
      ensures calls == old(calls)
    {
      var entry, arc := McountRecord(c.self, c.from, f, bucket);
    }

    /** A call whose arc is known. */
    method Recount(a: Word, ghost c: Call)
      requires Shape(Profile()) && a == ArcOf(Profile(), c) != NULL
      modifies this`graph
      ensures Profile() == Enter(old(Profile()), c)
    {
      graph := graph.(cells := graph.cells[a := graph.cells[a].(last := (graph.cells[a].last + 1) % U32)]);
    }

    /** A call of a profiled function. As long as there is storage for it, it enters the
        profile, which stays the exact record of all calls. */
    method Mcount(selfPc: Word, fromPc: Word)
      requires Good(Profile(), calls) && Shape(Profile())
      modifies this
      ensures calls == old(calls) + multiset{Call(selfPc, fromPc)}
      ensures old(Room(Profile(), Call(selfPc, fromPc))) ==>
              Profile() == Enter(old(Profile()), Call(selfPc, fromPc)) && Good(Profile(), calls)
    {
      GoodAfter(Profile(), calls, Call(selfPc, fromPc));
      BucketBits(selfPc);
      var bucket := selfPc / 8 % 256 / 4;
      EnterCall(selfPc, fromPc, bucket);
      calls := calls + multiset{Call(selfPc, fromPc)};
    }

    method EnterCall(selfPc: Word, fromPc: Word, bucket: nat)
      requires Linkable() && GraphOk() && bucket == Bucket(selfPc)
      modifies this
      ensures calls == old(calls)
      ensures old(Room(Profile(), Call(selfPc, fromPc))) ==>
              Profile() == Enter(old(Profile()), Call(selfPc, fromPc))
    {
      var f, a := Lookup(selfPc, fromPc, bucket);
      if a != NULL {
        Recount(a, Call(selfPc, fromPc));
      } else {
        RecordNew(f, Call(selfPc, fromPc), bucket);
      }
    }
  }

  /** The machine shifts the address and masks it to get the offset of a word. */
  lemma BucketBits(pc: Word)
    ensures pc / 8 % 256 / 4 == Bucket(pc)
  {
  }

  lemma GoodAfter(p: CallCounts.Profile, calls: multiset<Call>, c: Call)
    requires Good(p, calls) && Shape(p)
    ensures Room(p, c) ==> Good(Enter(p, c), calls + multiset{c})
  {
    if Room(p, c) { EnterKeeps(p, calls, c); }
  }
}
