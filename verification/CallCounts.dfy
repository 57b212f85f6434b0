/** What the profiler counts: each call looks its arc up and adds one, or makes a record for
    it. Over every run the arcs are exactly the calls made, each with their number. */
module CallCounts {
  import opened Words
  import opened HeapSpec
  import opened CallGraph

  /** A call: the function that was called and where from. */
  datatype Call = Call(self: Word, from: Word)

  /** Bits 5 to 10 of the address. */
  function Bucket(pc: Word): nat { pc / 32 % BUCKETS }

  /** Code within 32 bytes shares a bucket, and 2048 consecutive bytes use all 64 of them. */
  lemma BucketsSpread(line: nat, i: nat, line': nat, i': nat)
    requires line * 32 + 31 < U32 && i < 32 && line' * 32 + 31 < U32 && i' < 32
    ensures Bucket(line * 32 + i) == Bucket(line' * 32 + i') <==> line % 64 == line' % 64
    ensures Bucket(line * 32 + i) < 64
  {
    assert (line * 32 + i) / 32 == line && (line' * 32 + i') / 32 == line';
  }

  /** The first record with this program counter, or NULL. */
  function Find(cells: map<Word, Cell>, records: seq<Word>, pc: Word): (r: Word)
    ensures r != NULL ==> r in records && r in cells && cells[r].pc == pc
    decreases |records|
  {
    if records == [] then NULL
    else if records[0] in cells && cells[records[0]].pc == pc then records[0]
    else Find(cells, records[1..], pc)
  }

  lemma {:induction false} FindsNone(cells: map<Word, Cell>, records: seq<Word>, pc: Word)
    requires Find(cells, records, pc) == NULL && NULL !in records
    ensures forall r :: r in records && r in cells ==> cells[r].pc != pc
    decreases |records|
  {
    if records != [] { FindsNone(cells, records[1..], pc); }
  }

  /** One more call along a known arc. The count has 32 bits. */
  function Bump(g: Graph, arc: Word): Graph
    requires arc in g.cells
  {
    g.(cells := g.cells[arc := g.cells[arc].(last := (g.cells[arc].last + 1) % U32)])
  }

  // ---------------------------------------------------------------- the record of some calls

  /** An arc of the function f. */
  ghost predicate Listed(l: Lists, f: Word, a: Word) { f in l.arcs && a in l.arcs[f] }

  /** Lists of records that are there. */
  ghost predicate Inside(g: Graph, l: Lists) {
    && |g.heads| == |l.functions| == BUCKETS && AllListed(l)
    && (forall f :: f in l.arcs ==> f in g.cells)
    && (forall f, a :: Listed(l, f, a) ==> a in g.cells)
  }

  /** A function is in the list of its bucket and in no other. */
  ghost predicate Hashed(g: Graph, l: Lists)
    requires Inside(g, l)
  {
    forall f, b :: f in l.arcs && 0 <= b < BUCKETS ==> (f in l.functions[b] <==> b == Bucket(g.cells[f].pc))
  }

  /** Every function has one record, and every caller one arc for it. */
  ghost predicate OneEach(g: Graph, l: Lists)
    requires Inside(g, l)
  {
    && (forall f, f' :: f in l.arcs && f' in l.arcs && g.cells[f].pc == g.cells[f'].pc ==> f == f')
    && (forall f, a, a' :: Listed(l, f, a) && Listed(l, f, a') && g.cells[a].pc == g.cells[a'].pc ==> a == a')
  }

  /** No arc belongs to two functions. */
  ghost predicate ArcsApart(l: Lists) {
    forall f, f', a :: Listed(l, f, a) && Listed(l, f', a) ==> f == f'
  }

  /** An arc stands for calls, and holds their number. */
  ghost predicate CountIs(g: Graph, f: Word, a: Word, calls: multiset<Call>)
    requires f in g.cells && a in g.cells
  {
    var n := calls[Call(g.cells[f].pc, g.cells[a].pc)];
    n > 0 && g.cells[a].last == n % U32
  }

  ghost predicate Counted(g: Graph, l: Lists, calls: multiset<Call>)
    requires Inside(g, l)
  {
    forall f, a :: Listed(l, f, a) ==> CountIs(g, f, a, calls)
  }

  /** This arc stands for the call. */
  ghost predicate IsArc(g: Graph, l: Lists, f: Word, a: Word, c: Call)
    requires Inside(g, l)
  {
    Listed(l, f, a) && g.cells[f].pc == c.self && g.cells[a].pc == c.from
  }

  ghost predicate HasArc(g: Graph, l: Lists, c: Call)
    requires Inside(g, l)
  {
    exists f, a :: IsArc(g, l, f, a, c)
  }

  /** The graph is the record of these calls. */
  ghost predicate Recorded(g: Graph, l: Lists, calls: multiset<Call>) {
    && Inside(g, l) && Hashed(g, l) && OneEach(g, l) && ArcsApart(l)
    && Counted(g, l, calls) && forall c :: c in calls ==> HasArc(g, l, c)
  }

  /** What the lookup relies on: a function has at least one arc. */
  ghost predicate NoneIdle(l: Lists) { forall f :: f in l.arcs ==> l.arcs[f] != [] }

  lemma RepresentsInside(g: Graph, l: Lists)
    requires Represents(g, l) && |g.heads| == BUCKETS
    ensures Inside(g, l)
    ensures forall f :: f in l.arcs ==> NULL !in l.arcs[f]
    ensures forall b :: 0 <= b < BUCKETS ==> NULL !in l.functions[b]
  {
    forall f | f in l.arcs ensures NULL !in l.arcs[f] && forall a :: a in l.arcs[f] ==> a in g.cells {
      ChainInside(g.cells, g.cells[f].last, l.arcs[f]);
      NoNull(g.cells, g.cells[f].last, l.arcs[f]);
    }
    forall b | 0 <= b < BUCKETS ensures NULL !in l.functions[b] {
      NoNull(g.cells, g.heads[b], l.functions[b]);
    }
  }

  lemma {:induction false} NoNull(cells: map<Word, Cell>, p: Word, records: seq<Word>)
    requires Chain(cells, p, records)
    ensures NULL !in records
    decreases |records|
  {
    if records != [] { NoNull(cells, cells[p].next, records[1..]); }
  }

  lemma {:induction false} ChainIsFixed(cells: map<Word, Cell>, p: Word, r: seq<Word>, s: seq<Word>)
    requires Chain(cells, p, r) && Chain(cells, p, s)
    ensures r == s
    decreases |r|
  {
    if r != [] { ChainIsFixed(cells, cells[p].next, r[1..], s[1..]); }
  }

  lemma {:induction false} ChainFrom(cells: map<Word, Cell>, p: Word, records: seq<Word>, i: nat)
    requires Chain(cells, p, records) && i < |records|
    ensures Chain(cells, records[i], records[i..])
    decreases |records|
  {
    if i > 0 {
      ChainFrom(cells, cells[p].next, records[1..], i - 1);
      assert records[1..][i - 1..] == records[i..];
    }
  }

  /** A list that ends meets no record twice. */
  lemma NoRepeats(cells: map<Word, Cell>, p: Word, records: seq<Word>, i: nat, j: nat)
    requires Chain(cells, p, records) && i < j < |records|
    ensures records[i] != records[j]
  {
    if records[i] == records[j] {
      ChainFrom(cells, p, records, i);
      ChainFrom(cells, p, records, j);
      ChainIsFixed(cells, records[i], records[i..], records[j..]);
      assert false;
    }
  }

  /** A call has at most one arc. */
  lemma OneArc(g: Graph, l: Lists, f: Word, a: Word, f': Word, a': Word, c: Call)
    requires Inside(g, l) && OneEach(g, l) && IsArc(g, l, f, a, c) && IsArc(g, l, f', a', c)
    ensures f == f' && a == a'
  {
  }

  /** Lists and records with more in them. */
  ghost predicate Extends(g: Graph, l: Lists, g': Graph, l': Lists) {
    && (forall p :: p in g.cells ==> p in g'.cells && g'.cells[p].pc == g.cells[p].pc)
    && (forall f :: f in l.arcs ==> f in l'.arcs)
    && (forall f, a :: Listed(l, f, a) ==> Listed(l', f, a))
  }

  lemma StillHas(g: Graph, l: Lists, g': Graph, l': Lists, c: Call)
    requires Inside(g, l) && Inside(g', l') && Extends(g, l, g', l') && HasArc(g, l, c)
    ensures HasArc(g', l', c)
  {
    var f, a :| IsArc(g, l, f, a, c);
    assert IsArc(g', l', f, a, c);
  }

  lemma AllHave(g: Graph, l: Lists, g': Graph, l': Lists, calls: multiset<Call>)
    requires Recorded(g, l, calls) && Inside(g', l') && Extends(g, l, g', l')
    ensures forall c :: c in calls ==> HasArc(g', l', c)
  {
    forall c | c in calls ensures HasArc(g', l', c) { StillHas(g, l, g', l', c); }
  }

  // ---------------------------------------------------------------- a known arc

  lemma BumpKeepsLists(g: Graph, l: Lists, f: Word, a: Word)
    requires Represents(g, l) && f in l.arcs && a in l.arcs[f] && a in g.cells
    ensures Represents(Bump(g, a), l)
  {
    var g' := Bump(g, a);
    assert SameLinks(g.cells, g'.cells);
    forall b | 0 <= b < |g'.heads| ensures Chain(g'.cells, g'.heads[b], l.functions[b]) {
      ChainStays(g.cells, g'.cells, g.heads[b], l.functions[b]);
    }
    forall h | h in l.arcs ensures h in g'.cells && Chain(g'.cells, g'.cells[h].last, l.arcs[h]) {
      ChainStays(g.cells, g'.cells, g.cells[h].last, l.arcs[h]);
    }
  }

  lemma BumpShape(g: Graph, l: Lists, a: Word)
    requires Inside(g, l) && Hashed(g, l) && OneEach(g, l) && a in g.cells
    ensures Inside(Bump(g, a), l) && Hashed(Bump(g, a), l) && OneEach(Bump(g, a), l) && Extends(g, l, Bump(g, a), l)
  {
  }

  lemma BumpCount(g: Graph, l: Lists, calls: multiset<Call>, f: Word, a: Word, c: Call, h: Word, e: Word)
    requires Inside(g, l) && OneEach(g, l) && ArcsApart(l) && IsArc(g, l, f, a, c)
    requires Listed(l, h, e) && CountIs(g, h, e, calls)
    ensures CountIs(Bump(g, a), h, e, calls + multiset{c})
  {
    if e == a {
      assert h == f;
    } else if Call(g.cells[h].pc, g.cells[e].pc) == c {
      OneArc(g, l, f, a, h, e, c);
    }
  }

  lemma BumpRecords(g: Graph, l: Lists, calls: multiset<Call>, f: Word, a: Word, c: Call)
    requires Recorded(g, l, calls) && IsArc(g, l, f, a, c)
    ensures Recorded(Bump(g, a), l, calls + multiset{c})
  {
    var g', more := Bump(g, a), calls + multiset{c};
    BumpShape(g, l, a);
    AllHave(g, l, g', l, calls);
    assert HasArc(g', l, c) by { assert IsArc(g', l, f, a, c); }
    forall h, e | Listed(l, h, e) ensures CountIs(g', h, e, more) {
      BumpCount(g, l, calls, f, a, c, h, e);
    }
  }

  // ---------------------------------------------------------------- a new function

  lemma FunctionLists(l: Lists, bucket: nat, at: Word)
    requires bucket < |l.functions| && at !in l.arcs
    ensures forall f, a :: Listed(WithFunction(l, bucket, at), f, a) <==> Listed(l, f, a)
  {
  }

  lemma FunctionShape(g: Graph, l: Lists, at: Word, selfPc: Word)
    requires Inside(g, l) && Hashed(g, l) && at !in g.cells
    ensures var g', l' := AddFunction(g, Bucket(selfPc), at, selfPc), WithFunction(l, Bucket(selfPc), at);
            Inside(g', l') && Hashed(g', l') && Extends(g, l, g', l')
  {
    var g', l' := AddFunction(g, Bucket(selfPc), at, selfPc), WithFunction(l, Bucket(selfPc), at);
    FunctionLists(l, Bucket(selfPc), at);
    forall b, k | 0 <= b < |l'.functions| && 0 <= k < |l'.functions[b]| ensures l'.functions[b][k] in l'.arcs {
      if b != Bucket(selfPc) { assert l.functions[b][k] in l.arcs; }
    }
    forall f, b | f in l'.arcs && 0 <= b < BUCKETS
      ensures f in l'.functions[b] <==> b == Bucket(g'.cells[f].pc)
    {
      if f != at { assert f in l.functions[b] <==> b == Bucket(g.cells[f].pc); }
    }
  }

  lemma FunctionOnce(g: Graph, l: Lists, at: Word, selfPc: Word)
    requires Inside(g, l) && OneEach(g, l) && ArcsApart(l)
    requires at !in g.cells && forall f :: f in l.arcs ==> g.cells[f].pc != selfPc
    requires Inside(AddFunction(g, Bucket(selfPc), at, selfPc), WithFunction(l, Bucket(selfPc), at))
    ensures var g', l' := AddFunction(g, Bucket(selfPc), at, selfPc), WithFunction(l, Bucket(selfPc), at);
            OneEach(g', l') && ArcsApart(l')
  {
    FunctionLists(l, Bucket(selfPc), at);
  }

  lemma FunctionRecords(g: Graph, l: Lists, calls: multiset<Call>, at: Word, selfPc: Word)
    requires Recorded(g, l, calls) && at !in g.cells && forall f :: f in l.arcs ==> g.cells[f].pc != selfPc
    ensures Recorded(AddFunction(g, Bucket(selfPc), at, selfPc), WithFunction(l, Bucket(selfPc), at), calls)
  {
    var g', l' := AddFunction(g, Bucket(selfPc), at, selfPc), WithFunction(l, Bucket(selfPc), at);
    FunctionLists(l, Bucket(selfPc), at);
    FunctionShape(g, l, at, selfPc);
    FunctionOnce(g, l, at, selfPc);
    AllHave(g, l, g', l', calls);
    forall f, a | Listed(l', f, a) ensures CountIs(g', f, a, calls) { assert CountIs(g, f, a, calls); }
  }

  // ---------------------------------------------------------------- a new arc

  lemma ArcLists(l: Lists, entry: Word, at: Word)
    requires entry in l.arcs
    ensures forall f, a :: Listed(WithArc(l, entry, at), f, a) <==> Listed(l, f, a) || (f == entry && a == at)
  {
  }

  lemma ArcShape(g: Graph, l: Lists, entry: Word, at: Word, fromPc: Word)
    requires Inside(g, l) && Hashed(g, l) && entry in l.arcs && at !in g.cells
    ensures var g', l' := AddArc(g, entry, at, fromPc), WithArc(l, entry, at);
            Inside(g', l') && Hashed(g', l') && Extends(g, l, g', l')
  {
    ArcLists(l, entry, at);
  }

  lemma ArcOnce(g: Graph, l: Lists, entry: Word, at: Word, fromPc: Word)
    requires Inside(g, l) && OneEach(g, l) && ArcsApart(l) && entry in l.arcs && at !in g.cells
    requires forall a :: Listed(l, entry, a) ==> g.cells[a].pc != fromPc
    requires Inside(AddArc(g, entry, at, fromPc), WithArc(l, entry, at))
    ensures var g', l' := AddArc(g, entry, at, fromPc), WithArc(l, entry, at); OneEach(g', l') && ArcsApart(l')
  {
    ArcLists(l, entry, at);
  }

  /** A call without an arc has not been made. */
  lemma ArcIsNew(g: Graph, l: Lists, calls: multiset<Call>, entry: Word, c: Call)
    requires Recorded(g, l, calls) && entry in l.arcs && g.cells[entry].pc == c.self
    requires forall a :: Listed(l, entry, a) ==> g.cells[a].pc != c.from
    ensures calls[c] == 0
  {
    forall f, a ensures !IsArc(g, l, f, a, c) {}
    assert !HasArc(g, l, c);
  }

  lemma ArcCount(g: Graph, l: Lists, calls: multiset<Call>, entry: Word, at: Word, c: Call, f: Word, a: Word)
    requires Inside(g, l) && entry in l.arcs && at !in g.cells && g.cells[entry].pc == c.self && calls[c] == 0
    requires Listed(l, f, a) && a !in l.arcs && CountIs(g, f, a, calls)
    ensures var g' := AddArc(g, entry, at, c.from);
            f in g'.cells && a in g'.cells && CountIs(g', f, a, calls + multiset{c})
  {
    assert Call(g.cells[f].pc, g.cells[a].pc) != c;
  }

  lemma ArcCounted(g: Graph, l: Lists, calls: multiset<Call>, entry: Word, at: Word, c: Call)
    requires Inside(g, l) && Counted(g, l, calls) && KindsApart(l) && calls[c] == 0
    requires entry in l.arcs && at !in g.cells && g.cells[entry].pc == c.self
    requires Inside(AddArc(g, entry, at, c.from), WithArc(l, entry, at))
    ensures Counted(AddArc(g, entry, at, c.from), WithArc(l, entry, at), calls + multiset{c})
  {
    var g', l', more := AddArc(g, entry, at, c.from), WithArc(l, entry, at), calls + multiset{c};
    ArcLists(l, entry, at);
    forall f, a | Listed(l', f, a) ensures CountIs(g', f, a, more) {
      if Listed(l, f, a) { ArcCount(g, l, calls, entry, at, c, f, a); }
    }
  }

  lemma ArcRecords(g: Graph, l: Lists, calls: multiset<Call>, entry: Word, at: Word, c: Call)
    requires Recorded(g, l, calls) && KindsApart(l)
    requires entry in l.arcs && at !in g.cells && g.cells[entry].pc == c.self
    requires forall a :: Listed(l, entry, a) ==> g.cells[a].pc != c.from
    ensures Recorded(AddArc(g, entry, at, c.from), WithArc(l, entry, at), calls + multiset{c})
  {
    var g', l' := AddArc(g, entry, at, c.from), WithArc(l, entry, at);
    ArcShape(g, l, entry, at, c.from);
    ArcOnce(g, l, entry, at, c.from);
    ArcIsNew(g, l, calls, entry, c);
    ArcCounted(g, l, calls, entry, at, c);
    AllHave(g, l, g', l', calls);
    assert HasArc(g', l', c) by {
      ArcLists(l, entry, at);
      assert IsArc(g', l', entry, at, c);
    }
  }

  // ---------------------------------------------------------------- a call

  /** The storage, and the graph in it. */
  datatype Profile = Profile(mem: Memory, graph: Graph, lists: Lists)

  /** The profile is sound and is the record of these calls. */
  ghost predicate Good(p: Profile, calls: multiset<Call>) {
    Sound(p.mem, p.graph, p.lists) && Recorded(p.graph, p.lists, calls) && NoneIdle(p.lists)
  }

  predicate Shape(p: Profile) {
    && |p.graph.heads| == |p.lists.functions| == BUCKETS
    && NULL !in p.lists.arcs && p.lists.arcs.Keys <= p.graph.cells.Keys
  }

  /** The record of the called function, or NULL. */
  function FunctionOf(p: Profile, c: Call): Word
    requires Shape(p)
  {
    Find(p.graph.cells, p.lists.functions[Bucket(c.self)], c.self)
  }

  /** The record of the arc, or NULL. */
  function ArcOf(p: Profile, c: Call): Word
    requires Shape(p)
  {
    var f := FunctionOf(p, c);
    if f in p.lists.arcs then Find(p.graph.cells, p.lists.arcs[f], c.from) else NULL
  }

  /** Where the next record will be. */
  function NextRecord(m: Memory): Word { (if NeedsSlab(m, RECORD) then Refill(m) else m).slab }

  function Introduced(p: Profile, c: Call): Profile
    requires Shape(p)
  {
    var at, b := NextRecord(p.mem), Bucket(c.self);
    Profile(Allocate(p.mem, RECORD), AddFunction(p.graph, b, at, c.self), WithFunction(p.lists, b, at))
  }

  function Linked(p: Profile, f: Word, c: Call): Profile
    requires f in p.graph.cells && f in p.lists.arcs
  {
    var at := NextRecord(p.mem);
    Profile(Allocate(p.mem, RECORD), AddArc(p.graph, f, at, c.from), WithArc(p.lists, f, at))
  }

  /** Enough storage for what a call has to record. */
  predicate Room(p: Profile, c: Call)
    requires Shape(p)
  {
    ArcOf(p, c) == NULL ==> ServedOp(p.mem, DoRecord(FunctionOf(p, c) == NULL))
  }

  /** A call, known or new. */
  function Enter(p: Profile, c: Call): Profile
    requires Shape(p)
  {
    var f, a := FunctionOf(p, c), ArcOf(p, c);
    if a != NULL then p.(graph := Bump(p.graph, a))
    else if f in p.lists.arcs then Linked(p, f, c)
    else Linked(Introduced(p, c), NextRecord(p.mem), c)
  }

  /** The lookup finds what there is. */
  lemma LookupIs(p: Profile, calls: multiset<Call>, c: Call)
    requires Good(p, calls)
    ensures Shape(p)
    ensures var f, a := FunctionOf(p, c), ArcOf(p, c);
            && (f == NULL ==> a == NULL && forall h :: h in p.lists.arcs ==> p.graph.cells[h].pc != c.self)
            && (f != NULL ==> f in p.lists.arcs && f in p.graph.cells && p.graph.cells[f].pc == c.self)
            && (f != NULL && a == NULL ==> forall e :: Listed(p.lists, f, e) ==> p.graph.cells[e].pc != c.from)
            && (a != NULL ==> IsArc(p.graph, p.lists, f, a, c))
  {
    var g, l, b := p.graph, p.lists, Bucket(c.self);
    RepresentsInside(g, l);
    assert NULL !in l.arcs by { NullIsNone(g, l); }
    var f := FunctionOf(p, c);
    if f == NULL {
      FindsNone(g.cells, l.functions[b], c.self);
    } else {
      ListedIn(l, b, f);
      if ArcOf(p, c) == NULL { FindsNone(g.cells, l.arcs[f], c.from); }
    }
  }

  lemma NullIsNone(g: Graph, l: Lists)
    requires Represents(g, l) && Inside(g, l) && Hashed(g, l)
    ensures NULL !in l.arcs
  {
    RepresentsInside(g, l);
    forall f | f in l.arcs ensures f != NULL {
      assert f in l.functions[Bucket(g.cells[f].pc)];
    }
  }

  lemma ListedIn(l: Lists, b: nat, f: Word)
    requires AllListed(l) && b < |l.functions| && f in l.functions[b]
    ensures f in l.arcs
  {
    var k :| 0 <= k < |l.functions[b]| && l.functions[b][k] == f;
    assert l.functions[b][k] in l.arcs;
  }

  lemma NextIsUnused(p: Profile)
    requires Sound(p.mem, p.graph, p.lists) && Served(p.mem, RECORD)
    ensures Sound(Allocate(p.mem, RECORD), p.graph, p.lists)
    ensures Unused(Allocate(p.mem, RECORD), p.graph, NextRecord(p.mem))
  {
    RecordIsUnused(p.mem, p.graph, p.lists);
  }

  lemma KnownKeeps(p: Profile, calls: multiset<Call>, f: Word, a: Word, c: Call)
    requires Good(p, calls) && IsArc(p.graph, p.lists, f, a, c)
    ensures Good(p.(graph := Bump(p.graph, a)), calls + multiset{c})
  {
    BumpKeepsLists(p.graph, p.lists, f, a);
    BumpRecords(p.graph, p.lists, calls, f, a, c);
  }

  lemma LinkedKeeps(p: Profile, calls: multiset<Call>, f: Word, c: Call)
    requires Sound(p.mem, p.graph, p.lists) && Recorded(p.graph, p.lists, calls) && Served(p.mem, RECORD)
    requires f in p.lists.arcs && p.graph.cells[f].pc == c.self
    requires forall h :: h in p.lists.arcs && h != f ==> p.lists.arcs[h] != []
    requires forall a :: Listed(p.lists, f, a) ==> p.graph.cells[a].pc != c.from
    ensures Good(Linked(p, f, c), calls + multiset{c})
  {
    var m, at := Allocate(p.mem, RECORD), NextRecord(p.mem);
    NextIsUnused(p);
    ArcIsSound(m, p.graph, p.lists, f, at, c.from);
    ArcRecords(p.graph, p.lists, calls, f, at, c);
    LinkedNoneIdle(p.lists, f, at);
  }

  lemma LinkedNoneIdle(l: Lists, f: Word, at: Word)
    requires f in l.arcs && forall h :: h in l.arcs && h != f ==> l.arcs[h] != []
    ensures NoneIdle(WithArc(l, f, at))
  {
  }

  lemma IntroducedKeeps(p: Profile, calls: multiset<Call>, c: Call)
    requires Good(p, calls) && Served(p.mem, RECORD) && Shape(p)
    requires forall f :: f in p.lists.arcs ==> p.graph.cells[f].pc != c.self
    ensures var p', f := Introduced(p, c), NextRecord(p.mem);
            && Sound(p'.mem, p'.graph, p'.lists) && Recorded(p'.graph, p'.lists, calls)
            && f in p'.lists.arcs && p'.lists.arcs[f] == [] && p'.graph.cells[f].pc == c.self
            && forall h :: h in p'.lists.arcs && h != f ==> p'.lists.arcs[h] != []
  {
    var m, at := Allocate(p.mem, RECORD), NextRecord(p.mem);
    NextIsUnused(p);
    FunctionIsSound(m, p.graph, p.lists, Bucket(c.self), at, c.self);
    FunctionRecords(p.graph, p.lists, calls, at, c.self);
  }

  /** A call with enough storage is recorded. */
  lemma EnterKeeps(p: Profile, calls: multiset<Call>, c: Call)
    requires Good(p, calls) && Shape(p) && Room(p, c)
    ensures Good(Enter(p, c), calls + multiset{c})
  {
    LookupIs(p, calls, c);
    var f, a := FunctionOf(p, c), ArcOf(p, c);
    if a != NULL {
      KnownKeeps(p, calls, f, a, c);
    } else if f != NULL {
      LinkedKeeps(p, calls, f, c);
    } else {
      IntroducedKeeps(p, calls, c);
      LinkedKeeps(Introduced(p, c), calls, NextRecord(p.mem), c);
    }
  }

  // ---------------------------------------------------------------- over runs

  /** Calls, mixed with growing requests of others. */
  datatype Event = Entered(call: Call) | Grown(incr: int)

  ghost predicate Next(p: Profile, e: Event, p': Profile) {
    match e
    case Entered(c) => Shape(p) && Room(p, c) && p' == Enter(p, c)
    case Grown(incr) => 0 <= incr < 0x8000_0000 && p' == p.(mem := Sbrk(p.mem, incr, false))
  }

  function With(calls: multiset<Call>, e: Event): multiset<Call> {
    if e.Entered? then calls + multiset{e.call} else calls
  }

  /** The calls among the events. */
  function CallsOf(es: seq<Event>): multiset<Call> {
    if es == [] then multiset{} else With(CallsOf(es[..|es| - 1]), es[|es| - 1])
  }

  function Empty(start: Word, limit: Word): Profile {
    Profile(Initial(start, limit), Graph(map[], seq(BUCKETS, _ => NULL)), Lists(seq(BUCKETS, _ => []), map[]))
  }

  lemma EmptyIsGood(start: Word, limit: Word)
    requires 0 < start <= limit <= 0x8000_0000
    ensures Good(Empty(start, limit), multiset{})
  {
  }

  lemma NextKeeps(p: Profile, calls: multiset<Call>, e: Event, p': Profile)
    requires Good(p, calls) && Next(p, e, p')
    ensures Good(p', With(calls, e))
  {
    match e {
      case Entered(c) => EnterKeeps(p, calls, c);
      case Grown(incr) => SbrkKeeps(p.mem, incr, false);
    }
  }

  lemma CallsOfMore(es: seq<Event>, k: nat)
    requires k < |es|
    ensures CallsOf(es[..k + 1]) == With(CallsOf(es[..k]), es[k])
  {
    assert es[..k + 1][..k] == es[..k];
  }

  ghost predicate IsRun(ps: seq<Profile>, es: seq<Event>) {
    |ps| == |es| + 1 && forall i :: 0 <= i < |es| ==> Next(ps[i], es[i], ps[i + 1])
  }

  /** Every state of a run is the record of the calls so far. */
  lemma {:induction false} RunKeeps(ps: seq<Profile>, es: seq<Event>, k: nat)
    requires IsRun(ps, es) && k <= |es| && Good(ps[0], multiset{})
    ensures Good(ps[k], CallsOf(es[..k]))
  {
    if k > 0 {
      RunKeeps(ps, es, k - 1);
      RunStep(ps, es, k);
    }
  }

  lemma RunStep(ps: seq<Profile>, es: seq<Event>, k: nat)
    requires IsRun(ps, es) && 0 < k <= |es| && Good(ps[k - 1], CallsOf(es[..k - 1]))
    ensures Good(ps[k], CallsOf(es[..k]))
  {
    assert Next(ps[k - 1], es[k - 1], ps[k - 1 + 1]);
    assert CallsOf(es[..k]) == With(CallsOf(es[..k - 1]), es[k - 1]) by { CallsOfMore(es, k - 1); }
    NextOf(ps[k - 1], CallsOf(es[..k - 1]), es[k - 1], ps[k], CallsOf(es[..k]));
  }

  lemma NextOf(p: Profile, calls: multiset<Call>, e: Event, p': Profile, more: multiset<Call>)
    requires Good(p, calls) && Next(p, e, p') && more == With(calls, e)
    ensures Good(p', more)
  {
    NextKeeps(p, calls, e, p');
  }

  /** Over every run of calls for whose records there was storage, mixed with requests of
      others: the graph has an arc for a call if and only if that call was made; there is
      just one, and it holds how often the call was made, in 32 bits. */
  lemma ProfileIsExact(ps: seq<Profile>, es: seq<Event>, start: Word, limit: Word, k: nat, c: Call)
    requires 0 < start <= limit <= 0x8000_0000 && IsRun(ps, es) && ps[0] == Empty(start, limit) && k <= |es|
    ensures var g, l := ps[k].graph, ps[k].lists;
            var made := CallsOf(es[..k])[c];
            && Represents(g, l) && Inside(g, l)
            && (HasArc(g, l, c) <==> made > 0)
            && (forall f, a :: IsArc(g, l, f, a, c) ==> g.cells[a].last == made % 0x1_0000_0000)
            && (forall f, a, f', a' :: IsArc(g, l, f, a, c) && IsArc(g, l, f', a', c) ==> f == f' && a == a')
  {
    EmptyIsGood(start, limit);
    RunKeeps(ps, es, k);
    ExactWhenGood(ps[k], CallsOf(es[..k]), c);
  }

  lemma ExactWhenGood(p: Profile, calls: multiset<Call>, c: Call)
    requires Good(p, calls)
    ensures var g, l := p.graph, p.lists;
            && Represents(g, l) && Inside(g, l)
            && (HasArc(g, l, c) <==> calls[c] > 0)
            && (forall f, a :: IsArc(g, l, f, a, c) ==> g.cells[a].last == calls[c] % 0x1_0000_0000)
            && (forall f, a, f', a' :: IsArc(g, l, f, a, c) && IsArc(g, l, f', a', c) ==> f == f' && a == a')
  {
    var g, l := p.graph, p.lists;
    forall f, a | IsArc(g, l, f, a, c) ensures calls[c] > 0 && g.cells[a].last == calls[c] % 0x1_0000_0000 {
      assert CountIs(g, f, a, calls);
    }
    forall f, a, f', a' | IsArc(g, l, f, a, c) && IsArc(g, l, f', a', c) ensures f == f' && a == a' {
      OneArc(g, l, f, a, f', a', c);
    }
    if calls[c] > 0 {
      assert c in calls;
    }
  }
}
