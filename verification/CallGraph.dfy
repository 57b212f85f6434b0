/** The lists of functions and call arcs that the profiler builds in its records: a chain of
    functions for each hash bucket, and a chain of arcs for each function. */
module CallGraph {
  import opened Words
  import opened HeapSpec

  const BUCKETS := 64
  const NULL := 0

  /** A record of three words. In a function's record the last one points to its first arc;
      in an arc's record it counts the calls. */
  datatype Cell = Cell(next: Word, pc: Word, last: Word)

  datatype Graph = Graph(cells: map<Word, Cell>, heads: seq<Word>)

  /** A new function, at the head of its bucket's chain. */
  function AddFunction(g: Graph, bucket: nat, at: Word, selfPc: Word): Graph
    requires bucket < |g.heads|
  {
    Graph(g.cells[at := Cell(g.heads[bucket], selfPc, NULL)], g.heads[bucket := at])
  }

  /** A new arc, at the head of its function's chain. */
  function AddArc(g: Graph, entry: Word, at: Word, fromPc: Word): Graph
    requires entry in g.cells
  {
    var cells := g.cells[at := Cell(g.cells[entry].last, fromPc, 1)];
    g.(cells := cells[entry := cells[entry].(last := at)])
  }

  /** What the two records hold. */
  lemma ArcHolds(g: Graph, entry: Word, at: Word, fromPc: Word)
    requires entry in g.cells && at != entry
    ensures var cells := AddArc(g, entry, at, fromPc).cells;
            && at in cells && cells[at] == Cell(g.cells[entry].last, fromPc, 1)
            && entry in cells && cells[entry] == Cell(g.cells[entry].next, g.cells[entry].pc, at)
  {
  }

  /** The addresses of the functions of each bucket, and of the arcs of each function. */
  datatype Lists = Lists(functions: seq<seq<Word>>, arcs: map<Word, seq<Word>>)

  /** Following the links from p gives these records, one after the other, and ends. */
  ghost predicate Chain(cells: map<Word, Cell>, p: Word, records: seq<Word>)
    decreases |records|
  {
    if records == [] then p == NULL
    else p == records[0] && p != NULL && p in cells && Chain(cells, cells[p].next, records[1..])
  }

  ghost predicate AllListed(l: Lists) {
    forall b, k :: 0 <= b < |l.functions| && 0 <= k < |l.functions[b]| ==> l.functions[b][k] in l.arcs
  }

  /** No record is both a function and an arc. */
  ghost predicate KindsApart(l: Lists) {
    forall f, a :: f in l.arcs && a in l.arcs[f] ==> a !in l.arcs
  }

  /** The memory holds exactly these lists. */
  ghost predicate Represents(g: Graph, l: Lists) {
    && |g.heads| == |l.functions|
    && (forall b :: 0 <= b < |g.heads| ==> Chain(g.cells, g.heads[b], l.functions[b]))
    && (forall f :: f in l.arcs ==> f in g.cells && Chain(g.cells, g.cells[f].last, l.arcs[f]))
    && AllListed(l) && KindsApart(l)
  }

  function WithFunction(l: Lists, bucket: nat, at: Word): Lists
    requires bucket < |l.functions|
  {
    Lists(l.functions[bucket := [at] + l.functions[bucket]], l.arcs[at := []])
  }

  function WithArc(l: Lists, entry: Word, at: Word): Lists
    requires entry in l.arcs
  {
    l.(arcs := l.arcs[entry := [at] + l.arcs[entry]])
  }

  /** Memory with more records, in which the links of the old ones are the same. */
  ghost predicate SameLinks(cells: map<Word, Cell>, more: map<Word, Cell>) {
    forall p :: p in cells ==> p in more && more[p].next == cells[p].next
  }

  lemma {:induction false} ChainStays(cells: map<Word, Cell>, more: map<Word, Cell>, p: Word, records: seq<Word>)
    requires SameLinks(cells, more) && Chain(cells, p, records)
    ensures Chain(more, p, records)
    decreases |records|
  {
    if records != [] { ChainStays(cells, more, cells[p].next, records[1..]); }
  }

  lemma {:induction false} ChainInside(cells: map<Word, Cell>, p: Word, records: seq<Word>)
    requires Chain(cells, p, records)
    ensures forall a :: a in records ==> a in cells
    decreases |records|
  {
    if records != [] { ChainInside(cells, cells[p].next, records[1..]); }
  }

  lemma ChainGrows(cells: map<Word, Cell>, at: Word, records: seq<Word>)
    requires at in cells && at != NULL && Chain(cells, cells[at].next, records)
    ensures Chain(cells, at, [at] + records)
  {
    assert ([at] + records)[1..] == records;
  }

  /** A function put into memory that is not used yet extends its bucket's list, and leaves
      every other list as it is. */
  lemma AddFunctionKeeps(g: Graph, l: Lists, bucket: nat, at: Word, selfPc: Word)
    requires Represents(g, l) && bucket < |g.heads| && at != NULL && at !in g.cells
    ensures Represents(AddFunction(g, bucket, at, selfPc), WithFunction(l, bucket, at))
  {
    var g', l' := AddFunction(g, bucket, at, selfPc), WithFunction(l, bucket, at);
    assert SameLinks(g.cells, g'.cells);
    forall b | 0 <= b < |g'.heads| ensures Chain(g'.cells, g'.heads[b], l'.functions[b]) {
      ChainStays(g.cells, g'.cells, g.heads[b], l.functions[b]);
      if b == bucket { ChainGrows(g'.cells, at, l.functions[b]); }
    }
    forall f | f in l'.arcs ensures f in g'.cells && Chain(g'.cells, g'.cells[f].last, l'.arcs[f]) {
      if f != at { ChainStays(g.cells, g'.cells, g.cells[f].last, l.arcs[f]); }
    }
    forall f, a | f in l'.arcs && a in l'.arcs[f] ensures a !in l'.arcs {
      if f != at { ChainInside(g.cells, g.cells[f].last, l.arcs[f]); }
    }
  }

  /** And so does an arc. Only its function's pointer changes in what was there before. */
  lemma AddArcKeeps(g: Graph, l: Lists, entry: Word, at: Word, fromPc: Word)
    requires Represents(g, l) && entry in l.arcs && at != NULL && at !in g.cells
    ensures Represents(AddArc(g, entry, at, fromPc), WithArc(l, entry, at))
    ensures forall p :: p in g.cells ==>
            AddArc(g, entry, at, fromPc).cells[p] == if p == entry then g.cells[p].(last := at) else g.cells[p]
  {
    var g', l' := AddArc(g, entry, at, fromPc), WithArc(l, entry, at);
    assert SameLinks(g.cells, g'.cells);
    forall b | 0 <= b < |g'.heads| ensures Chain(g'.cells, g'.heads[b], l'.functions[b]) {
      ChainStays(g.cells, g'.cells, g.heads[b], l.functions[b]);
    }
    forall f | f in l'.arcs ensures f in g'.cells && Chain(g'.cells, g'.cells[f].last, l'.arcs[f]) {
      ChainStays(g.cells, g'.cells, g.cells[f].last, l.arcs[f]);
      if f == entry { ChainGrows(g'.cells, at, l.arcs[f]); }
    }
    forall f, a | f in l'.arcs && a in l'.arcs[f] ensures a !in l'.arcs {
      ChainInside(g.cells, g.cells[f].last, l.arcs[f]);
    }
  }

  // ---------------------------------------------------------------- the graph in its storage

  ghost predicate IsRecord(objects: seq<Object>, p: Word) {
    exists i :: 0 <= i < |objects| && objects[i].start == p && objects[i].size == RECORD
  }

  /** Every record of the graph has been handed out as one. */
  ghost predicate Stored(cells: map<Word, Cell>, objects: seq<Object>) {
    forall p :: p in cells ==> IsRecord(objects, p)
  }

  /** The graph is well formed, and its records are good storage. */
  ghost predicate Sound(m: Memory, g: Graph, l: Lists) {
    Inv(m) && !m.spoilt && m.start > 0 && |g.heads| == BUCKETS && Represents(g, l) && Stored(g.cells, m.objects)
  }

  ghost predicate Unused(m: Memory, g: Graph, at: Word) {
    at != NULL && at !in g.cells && IsRecord(m.objects, at)
  }

  /** A served allocation of a record gives storage that the graph does not use. */
  lemma RecordIsUnused(m: Memory, g: Graph, l: Lists)
    requires Sound(m, g, l) && Served(m, RECORD)
    ensures var m' := Allocate(m, RECORD);
            |m'.objects| == |m.objects| + 1 && Sound(m', g, l) && Unused(m', g, m'.objects[|m.objects|].start)
  {
    ServedIsNew(m, RECORD);
    var m' := Allocate(m, RECORD);
    var at := m'.objects[|m.objects|].start;
    forall p | p in g.cells ensures IsRecord(m'.objects, p) && p != at {
      var i :| 0 <= i < |m.objects| && m.objects[i].start == p && m.objects[i].size == RECORD;
      assert m'.objects[i] == m.objects[i];
    }
    assert IsRecord(m'.objects, at);
  }

  lemma FunctionIsSound(m: Memory, g: Graph, l: Lists, bucket: nat, at: Word, selfPc: Word)
    requires Sound(m, g, l) && bucket < BUCKETS && Unused(m, g, at)
    ensures Sound(m, AddFunction(g, bucket, at, selfPc), WithFunction(l, bucket, at))
  {
    AddFunctionKeeps(g, l, bucket, at, selfPc);
  }

  lemma ArcIsSound(m: Memory, g: Graph, l: Lists, entry: Word, at: Word, fromPc: Word)
    requires Sound(m, g, l) && entry in l.arcs && Unused(m, g, at)
    ensures Sound(m, AddArc(g, entry, at, fromPc), WithArc(l, entry, at))
  {
    AddArcKeeps(g, l, entry, at, fromPc);
    ArcIsStored(m.objects, g, entry, at, fromPc);
  }

  lemma ArcIsStored(objects: seq<Object>, g: Graph, entry: Word, at: Word, fromPc: Word)
    requires Stored(g.cells, objects) && IsRecord(objects, at) && entry in g.cells
    ensures Stored(AddArc(g, entry, at, fromPc).cells, objects)
  {
    var cells := AddArc(g, entry, at, fromPc).cells;
    forall p | p in cells ensures IsRecord(objects, p) {
      assert p in g.cells || p == at;
    }
  }
}
