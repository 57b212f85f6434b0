/**
  The split of a sprite into chunk tables: the tables are filled pixel by pixel from the
  flat image, and the generated hardware picks a table with a range guard per chunk and
  reads it at the pixel's coordinates modulo the chunk size.
*/
module Chunks {
  import opened Words

  type Table = seq<seq<int>>
  type Tables = map<(int, int), Table>

  /** How many chunks of size n cover w pixels; the last one may be partial. */
  function ChunkCount(w: nat, n: nat): nat
    requires n > 0
  {
    w / n + (if w % n != 0 then 1 else 0)
  }

  /** The extent of chunk i. */
  function ChunkDim(i: nat, w: nat, n: nat): int
    requires n > 0
  {
    if i == w / n then w - i * n else n
  }

  function UpperPixel(i: nat, n: nat, w: nat): int {
    if (i + 1) * n < w then (i + 1) * n else w
  }

  /** The guard generated for chunk (i, j). */
  predicate Guard(i: nat, j: nat, nc: nat, nr: nat, w: nat, h: nat, x: nat, y: nat) {
    i * nc <= x < UpperPixel(i, nc, w) && j * nr <= y < UpperPixel(j, nr, h)
  }

  ghost predicate IsChunk(i: int, j: int, w: nat, h: nat, nc: nat, nr: nat)
    requires nc > 0 && nr > 0
  {
    0 <= i < ChunkCount(w, nc) && 0 <= j < ChunkCount(h, nr)
  }

  ghost predicate HasShape(t: Table, rows: int, cols: int) {
    |t| == rows && forall r :: 0 <= r < |t| ==> |t[r]| == cols
  }

  /** There is one table per chunk, of the chunk's size. */
  ghost predicate Shaped(tables: Tables, w: nat, h: nat, nc: nat, nr: nat)
    requires nc > 0 && nr > 0
  {
    && (forall i, j :: (i, j) in tables <==> IsChunk(i, j, w, h, nc, nr))
    && (forall i, j :: (i, j) in tables ==> HasShape(tables[(i, j)], ChunkDim(j, h, nr), ChunkDim(i, w, nc)))
  }

  // ---------------------------------------------------------------- division

  lemma MulMono(a: nat, b: nat, n: nat)
    requires a < b
    ensures a * n + n <= b * n
  {
    assert b * n == a * n + n + (b - a - 1) * n;
    assert 0 <= (b - a - 1) * n;
  }

  lemma DivUnique(x: nat, n: nat, q: nat)
    requires n > 0
    ensures q == x / n <==> q * n <= x < q * n + n
  {
    DivMod(x, n);
    if q < x / n { MulMono(q, x / n, n); }
    if x / n < q { MulMono(x / n, q, n); }
  }

  /** Every pixel falls into a chunk, inside that chunk's extent. */
  lemma PixelInChunk(x: nat, w: nat, n: nat)
    requires n > 0 && x < w
    ensures x / n < ChunkCount(w, n) && x % n < ChunkDim(x / n, w, n)
  {
    DivMod(x, n);
    DivMod(w, n);
    if w / n < x / n { MulMono(w / n, x / n, n); }
  }

  /** Chunks are never empty, so every one of them gets a table. */
  lemma ChunkNotEmpty(i: nat, w: nat, n: nat)
    requires n > 0 && i < ChunkCount(w, n)
    ensures ChunkDim(i, w, n) > 0
  {
    DivMod(w, n);
  }

  /** The extents of the first k chunks together. */
  function Extents(k: nat, w: nat, n: nat): int
    requires n > 0
  {
    if k == 0 then 0 else Extents(k - 1, w, n) + ChunkDim(k - 1, w, n)
  }

  lemma {:induction false} FullExtents(k: nat, w: nat, n: nat)
    requires n > 0 && k <= w / n
    ensures Extents(k, w, n) == k * n
  {
    if k > 0 { FullExtents(k - 1, w, n); }
  }

  /** Chunks lie side by side: each begins where those before it end and is at most n wide,
      and all together they are as wide as the image. */
  lemma ExtentsAddUp(i: nat, w: nat, n: nat)
    requires n > 0 && i < ChunkCount(w, n)
    ensures Extents(i, w, n) == i * n && 0 < ChunkDim(i, w, n) <= n
    ensures Extents(i + 1, w, n) == UpperPixel(i, n, w)
    ensures Extents(ChunkCount(w, n), w, n) == w
  {
    DivMod(w, n);
    FullExtents(i, w, n);
    FullExtents(w / n, w, n);
    ChunkNotEmpty(i, w, n);
    assert (i + 1) * n == i * n + n;
    if i < w / n { MulMono(i, w / n, n); }
  }

  /** The range guard of a chunk selects exactly the pixels whose quotient is the chunk. */
  lemma GuardSelects(i: nat, x: nat, w: nat, n: nat)
    requires n > 0 && x < w
    ensures i * n <= x < UpperPixel(i, n, w) <==> i == x / n
  {
    DivUnique(x, n, i);
    assert (i + 1) * n == i * n + n;
  }

  lemma SamePixel(x: nat, x': nat, n: nat)
    requires n > 0 && x / n == x' / n && x % n == x' % n
    ensures x == x'
  {
    DivMod(x, n);
    DivMod(x', n);
  }

  lemma FlatIndex(x: nat, y: nat, w: nat, h: nat)
    requires x < w && y < h
    ensures 0 <= y * w + x < w * h
  {
    MulMono(y, h, w);
  }

  // ---------------------------------------------------------------- the tables

  /** What the generated hardware reads for pixel (x, y) from the tables. */
  function At(tables: Tables, x: nat, y: nat, nc: nat, nr: nat): int
    requires nc > 0 && nr > 0
    requires (x / nc, y / nr) in tables
    requires y % nr < |tables[(x / nc, y / nr)]| && x % nc < |tables[(x / nc, y / nr)][y % nr]|
  {
    tables[(x / nc, y / nr)][y % nr][x % nc]
  }

  lemma InBounds(tables: Tables, w: nat, h: nat, nc: nat, nr: nat, x: nat, y: nat)
    requires nc > 0 && nr > 0 && Shaped(tables, w, h, nc, nr) && x < w && y < h
    ensures (x / nc, y / nr) in tables
    ensures y % nr < |tables[(x / nc, y / nr)]| && x % nc < |tables[(x / nc, y / nr)][y % nr]|
  {
    PixelInChunk(x, w, nc);
    PixelInChunk(y, h, nr);
    assert HasShape(tables[(x / nc, y / nr)], ChunkDim(y / nr, h, nr), ChunkDim(x / nc, w, nc));
  }

  /** `At` where the shape of the tables makes it defined. */
  ghost function Reads(tables: Tables, w: nat, h: nat, nc: nat, nr: nat, x: nat, y: nat): int
    requires nc > 0 && nr > 0 && Shaped(tables, w, h, nc, nr) && x < w && y < h
  {
    InBounds(tables, w, h, nc, nr, x, y);
    At(tables, x, y, nc, nr)
  }

  /** Pixel (x, y) reads back its value in the flat image. */
  ghost predicate Holds(tables: Tables, lst: seq<int>, w: nat, h: nat, nc: nat, nr: nat, x: nat, y: nat)
    requires nc > 0 && nr > 0 && Shaped(tables, w, h, nc, nr) && x < w && y < h
  {
    0 <= y * w + x < |lst| && Reads(tables, w, h, nc, nr, x, y) == lst[y * w + x]
  }

  /** All pixels of the rows above y, and the first x of row y, read back. */
  ghost predicate Filled(tables: Tables, lst: seq<int>, w: nat, h: nat, nc: nat, nr: nat, x: nat, y: nat)
    requires nc > 0 && nr > 0 && Shaped(tables, w, h, nc, nr)
  {
    forall a: nat, b: nat :: a < w && b < h && (b < y || (b == y && a < x)) ==> Holds(tables, lst, w, h, nc, nr, a, b)
  }

  /** Tables of zeros, one per chunk, chunk column by chunk column. */
  method ZeroTables(w: nat, h: nat, nc: nat, nr: nat) returns (tables: Tables)
    requires nc > 0 && nr > 0
    ensures Shaped(tables, w, h, nc, nr)
  {
    tables := map[];
    for i := 0 to ChunkCount(w, nc)
      invariant forall a, b :: (a, b) in tables <==> 0 <= a < i && 0 <= b < ChunkCount(h, nr)
      invariant forall a, b :: (a, b) in tables ==> HasShape(tables[(a, b)], ChunkDim(b, h, nr), ChunkDim(a, w, nc))
    {
      for j := 0 to ChunkCount(h, nr)
        invariant forall a, b :: (a, b) in tables <==> 0 <= b < ChunkCount(h, nr) && (0 <= a < i || (a == i && b < j))
        invariant forall a, b :: (a, b) in tables ==> HasShape(tables[(a, b)], ChunkDim(b, h, nr), ChunkDim(a, w, nc))
      {
        ChunkNotEmpty(i, w, nc);
        ChunkNotEmpty(j, h, nr);
        var xdim := if i == w / nc then w - i * nc else nc;
        var ydim := if j == h / nr then h - j * nr else nr;
        if xdim != 0 && ydim != 0 {
          tables := tables[(i, j) := seq(ydim, n => seq(xdim, m => 0))];
        }
      }
    }
  }

  /** One store of the fill. */
  method Store(tables0: Tables, w: nat, h: nat, nc: nat, nr: nat, x: nat, y: nat, v: int) returns (tables: Tables)
    requires nc > 0 && nr > 0 && Shaped(tables0, w, h, nc, nr) && x < w && y < h
    ensures Shaped(tables, w, h, nc, nr)
    ensures Reads(tables, w, h, nc, nr, x, y) == v
    ensures forall x': nat, y': nat :: x' < w && y' < h && (x', y') != (x, y) ==>
              Reads(tables, w, h, nc, nr, x', y') == Reads(tables0, w, h, nc, nr, x', y')
  {
    InBounds(tables0, w, h, nc, nr, x, y);
    var key := (x / nc, y / nr);
    var t := tables0[key];
    var row := t[y % nr];
    tables := tables0[key := t[y % nr := row[x % nc := v]]];
    forall x': nat, y': nat | x' < w && y' < h && (x', y') != (x, y)
      ensures Reads(tables, w, h, nc, nr, x', y') == Reads(tables0, w, h, nc, nr, x', y')
    {
      InBounds(tables0, w, h, nc, nr, x', y');
      if x' / nc == x / nc && x' % nc == x % nc { SamePixel(x, x', nc); }
      if y' / nr == y / nr && y' % nr == y % nr { SamePixel(y, y', nr); }
    }
  }

  /** The store for the next pixel. */
  method StorePixel(tables0: Tables, lst: seq<int>, w: nat, h: nat, nc: nat, nr: nat, x: nat, y: nat)
      returns (tables: Tables)
    requires nc > 0 && nr > 0 && |lst| == w * h && x < w && y < h
    requires Shaped(tables0, w, h, nc, nr) && Filled(tables0, lst, w, h, nc, nr, x, y)
    ensures Shaped(tables, w, h, nc, nr) && Filled(tables, lst, w, h, nc, nr, x + 1, y)
  {
    FlatIndex(x, y, w, h);
    tables := Store(tables0, w, h, nc, nr, x, y, lst[y * w + x]);
    forall a: nat, b: nat | a < w && b < h && (b < y || (b == y && a < x + 1))
        ensures Holds(tables, lst, w, h, nc, nr, a, b) {
      if (a, b) != (x, y) { assert Holds(tables0, lst, w, h, nc, nr, a, b); }
    }
  }

  /** Builds all tables. Every store is in bounds, and afterwards every pixel reads back
      from its chunk's table, partial edge chunks included. */
  method SplitSpriteTable(lst: seq<int>, w: nat, h: nat, nc: nat, nr: nat) returns (tables: Tables)
    requires nc > 0 && nr > 0 && |lst| == w * h
    ensures Shaped(tables, w, h, nc, nr)
    ensures forall x: nat, y: nat :: x < w && y < h ==> Holds(tables, lst, w, h, nc, nr, x, y)
  {
    tables := ZeroTables(w, h, nc, nr);
    for y := 0 to h
      invariant Shaped(tables, w, h, nc, nr) && Filled(tables, lst, w, h, nc, nr, 0, y)
    {
      for x := 0 to w
        invariant Shaped(tables, w, h, nc, nr) && Filled(tables, lst, w, h, nc, nr, x, y)
      {
        tables := StorePixel(tables, lst, w, h, nc, nr, x, y);
      }
    }
  }

  /** For every pixel exactly one of the generated guards holds, and it is the guard of the
      chunk whose table the hardware reads inside its bounds. */
  lemma ExactlyOneGuard(tables: Tables, w: nat, h: nat, nc: nat, nr: nat, x: nat, y: nat)
    requires nc > 0 && nr > 0 && Shaped(tables, w, h, nc, nr) && x < w && y < h
    ensures (x / nc, y / nr) in tables && Guard(x / nc, y / nr, nc, nr, w, h, x, y)
    ensures forall i: nat, j: nat :: (i, j) in tables && Guard(i, j, nc, nr, w, h, x, y) ==> (i, j) == (x / nc, y / nr)
  {
    InBounds(tables, w, h, nc, nr, x, y);
    GuardSelects(x / nc, x, w, nc);
    GuardSelects(y / nr, y, h, nr);
    forall i: nat, j: nat | Guard(i, j, nc, nr, w, h, x, y) ensures (i, j) == (x / nc, y / nr) {
      GuardSelects(i, x, w, nc);
      GuardSelects(j, y, h, nr);
    }
  }
}
