/**
 * Rasterising one tile: the n x n byte grid of land/water flags that the
 * mask workers fill.  Worker `pass` of `threads` owns one square sub-block
 * of the grid; for each of its cells it counts the rings whose containment
 * test holds at the cell and writes water (0) for an odd count, land (1)
 * otherwise, then raises its completion flag.
 *
 * Cell (i, j) is row i (south to north) and column j (west to east); it
 * lives at index i * n + j of the grid.  The floating-point point-in-polygon
 * test at the cell centre is the parameter `inside`: inside(ring, i, j)
 * holds when the test says the centre of cell (i, j) is in ring.
 */
module Raster {
  import opened BitStream
  import opened Layout
  import opened Rings

  /** The containment test at the centre of cell (i, j). */
  type InsideTest = (Ring, nat, nat) -> bool

  /** NVFalse: the flag of a water cell. */
  const Water: byte := 0
  /** NVTrue: the flag of a land cell. */
  const Land: byte := 1

  /** The number of rings whose containment test holds at cell (i, j). */
  function InsideCount(rings: seq<Ring>, inside: InsideTest, i: nat, j: nat): (c: nat)
    ensures c <= |rings|
  {
    if rings == [] then 0
    else InsideCount(rings[..|rings| - 1], inside, i, j) + (if inside(rings[|rings| - 1], i, j) then 1 else 0)
  }

  /** The indices of the rings that contain cell (i, j). */
  function InsideSet(rings: seq<Ring>, inside: InsideTest, i: nat, j: nat): set<nat>
  {
    set k: nat | k < |rings| && inside(rings[k], i, j)
  }

  /** inside_count is exactly the number of rings containing the cell. */
  lemma {:induction false} InsideCountIsCardinality(rings: seq<Ring>, inside: InsideTest, i: nat, j: nat)
    ensures InsideCount(rings, inside, i, j) == |InsideSet(rings, inside, i, j)|
  {
    if rings != [] {
      var n := |rings| - 1;
      var prefix := rings[..n];
      InsideCountIsCardinality(prefix, inside, i, j);
      var before := InsideSet(prefix, inside, i, j);
      assert n !in before;
      if inside(rings[n], i, j) {
        assert InsideSet(rings, inside, i, j) == before + {n};
      } else {
        assert InsideSet(rings, inside, i, j) == before;
      }
    }
  }

  /**
   * The flag of cell (i, j) under the even-odd rule: water when an odd
   * number of rings contain the cell, land otherwise.
   */
  function CellValue(rings: seq<Ring>, inside: InsideTest, i: nat, j: nat): (v: byte)
    ensures v == Water || v == Land
  {
    if |InsideSet(rings, inside, i, j)| % 2 == 1 then Water else Land
  }

  /** The flag the workers derive from inside_count is the even-odd flag, in both directions. */
  lemma CellValueParity(rings: seq<Ring>, inside: InsideTest, i: nat, j: nat)
    ensures CellValue(rings, inside, i, j) == Water <==> InsideCount(rings, inside, i, j) % 2 == 1
    ensures CellValue(rings, inside, i, j) == Land <==> InsideCount(rings, inside, i, j) % 2 == 0
  {
    InsideCountIsCardinality(rings, inside, i, j);
  }

  /**
   * One more ring flips the cell when it contains the cell and leaves it
   * alone otherwise: a lake inside an island is water again, an island in
   * that lake land again.
   */
  lemma CellValueAddRing(rings: seq<Ring>, r: Ring, inside: InsideTest, i: nat, j: nat)
    ensures CellValue(rings + [r], inside, i, j)
         == if inside(r, i, j) then (if CellValue(rings, inside, i, j) == Land then Water else Land)
            else CellValue(rings, inside, i, j)
  {
    assert (rings + [r])[..|rings|] == rings;
    InsideCountIsCardinality(rings, inside, i, j);
    InsideCountIsCardinality(rings + [r], inside, i, j);
  }

  /** The rasterised tile: every cell's flag, row after row. */
  function Grid(rings: seq<Ring>, inside: InsideTest, n: nat): (g: seq<byte>)
    ensures |g| == n * n
  {
    seq(n * n, k requires 0 <= k < n * n => CellValue(rings, inside, k / n, k % n))
  }

  /** block_count: the workers are arranged as a bc x bc square of sub-blocks. */
  function BlockCount(threads: int): (bc: nat)
    requires ValidThreads(threads)
    ensures bc * bc == threads
  {
    if threads == 4 then 2 else 4
  }

  /** pass_point_count: the side of one worker's sub-block. */
  function PassSide(resolution: int, threads: int): (side: nat)
    requires ValidResolution(resolution) && ValidThreads(threads)
    ensures side * BlockCount(threads) == GridSide(resolution)
    ensures side >= 15
  {
    GridSide(resolution) / BlockCount(threads)
  }

  /** start_x: the first column of worker pass's sub-block. */
  function StartX(resolution: int, threads: int, pass: nat): (x: nat)
    requires ValidResolution(resolution) && ValidThreads(threads)
    ensures x + PassSide(resolution, threads) <= GridSide(resolution)
  {
    var side, bc := PassSide(resolution, threads), BlockCount(threads);
    assert (pass % bc) * side + side <= bc * side;
    (pass % bc) * side
  }

  /** start_y: the first row of worker pass's sub-block. */
  function StartY(resolution: int, threads: int, pass: nat): (y: nat)
    requires ValidResolution(resolution) && ValidThreads(threads)
    ensures pass < threads ==> y + PassSide(resolution, threads) <= GridSide(resolution)
  {
    var side, bc := PassSide(resolution, threads), BlockCount(threads);
    assert pass < threads ==> pass / bc < bc && (pass / bc) * side + side <= bc * side;
    (pass / bc) * side
  }

  /**
   * Cell (i, j) lies in worker pass's sub-block [start_y, end_y) x
   * [start_x, end_x); the sub-block of a worker is inside the grid.
   */
  predicate InSquare(resolution: int, threads: int, pass: nat, i: nat, j: nat): (b: bool)
    requires ValidResolution(resolution) && ValidThreads(threads)
    ensures b && pass < threads ==> i < GridSide(resolution) && j < GridSide(resolution)
  {
    var side := PassSide(resolution, threads);
    && StartY(resolution, threads, pass) <= i < StartY(resolution, threads, pass) + side
    && StartX(resolution, threads, pass) <= j < StartX(resolution, threads, pass) + side
  }

  /** x lies in the q-th interval of length side exactly when x / side is q. */
  lemma DivInterval(x: nat, side: nat, q: nat)
    requires side > 0
    ensures q * side <= x < q * side + side <==> x / side == q
  {
    var d := x / side;
    assert x == d * side + x % side;
    if q < d {
      assert (q + 1) * side <= d * side;
    } else if d < q {
      assert (d + 1) * side <= q * side;
    }
  }

  /** A row or column below side * bc lies in band x / side, one of the bc bands. */
  lemma BandOf(x: nat, side: nat, bc: nat)
    requires side > 0 && x < side * bc
    ensures x / side < bc
    ensures (x / side) * side <= x < (x / side) * side + side
  {
    DivInterval(x, side, x / side);
  }

  /** Worker number row * bc + col names band row and band col, and is below bc * bc. */
  lemma PassOfBand(row: nat, col: nat, bc: nat)
    requires row < bc && col < bc
    ensures (row * bc + col) / bc == row && (row * bc + col) % bc == col
    ensures row * bc + col < bc * bc
  {
    assert row * bc + col < (row + 1) * bc <= bc * bc;
    DivInterval(row * bc + col, bc, row);
  }

  /** The worker whose sub-block holds cell (i, j). */
  function Owner(resolution: int, threads: int, i: nat, j: nat): (pass: nat)
    requires ValidResolution(resolution) && ValidThreads(threads)
    requires i < GridSide(resolution) && j < GridSide(resolution)
    ensures pass < threads
    ensures InSquare(resolution, threads, pass, i, j)
  {
    var side, bc := PassSide(resolution, threads), BlockCount(threads);
    var row, col := i / side, j / side;
    BandOf(i, side, bc);
    BandOf(j, side, bc);
    var pass := row * bc + col;
    PassOfBand(row, col, bc);
    pass
  }

  /**
   * The sub-blocks partition the grid: a cell lies in worker pass's
   * sub-block exactly when pass is its owner, so every cell is written by
   * one worker and by no other.
   */
  lemma {:induction false} SquaresPartitionGrid(resolution: int, threads: int, pass: nat, i: nat, j: nat)
    requires ValidResolution(resolution) && ValidThreads(threads)
    requires pass < threads && i < GridSide(resolution) && j < GridSide(resolution)
    ensures InSquare(resolution, threads, pass, i, j) <==> pass == Owner(resolution, threads, i, j)
  {
    var side, bc := PassSide(resolution, threads), BlockCount(threads);
    if InSquare(resolution, threads, pass, i, j) {
      DivInterval(i, side, pass / bc);
      DivInterval(j, side, pass % bc);
      assert pass == (pass / bc) * bc + pass % bc;
    }
  }

  /** InSquare in terms of the worker's row and column ranges. */
  lemma InSquareRanges(resolution: int, threads: int, pass: nat, i: nat, j: nat, startY: nat, startX: nat, side: nat)
    requires ValidResolution(resolution) && ValidThreads(threads)
    requires startY == StartY(resolution, threads, pass) && startX == StartX(resolution, threads, pass)
    requires side == PassSide(resolution, threads)
    ensures InSquare(resolution, threads, pass, i, j) <==> startY <= i < startY + side && startX <= j < startX + side
  {
  }

  /** Every sub-block lies inside the n x n grid. */
  lemma SquareBounds(resolution: int, threads: int, pass: nat)
    requires ValidResolution(resolution) && ValidThreads(threads) && pass < threads
    ensures StartY(resolution, threads, pass) + PassSide(resolution, threads) <= GridSide(resolution)
    ensures StartX(resolution, threads, pass) + PassSide(resolution, threads) <= GridSide(resolution)
  {
    var side, bc := PassSide(resolution, threads), BlockCount(threads);
    assert pass / bc < bc && pass % bc < bc;
    assert (pass / bc) * side + side <= bc * side;
    assert (pass % bc) * side + side <= bc * side;
  }

  /** Every cell a worker writes is a cell of the grid, at an index below n * n. */
  lemma SquareInsideGrid(resolution: int, threads: int, pass: nat, i: nat, j: nat)
    requires ValidResolution(resolution) && ValidThreads(threads) && pass < threads
    requires InSquare(resolution, threads, pass, i, j)
    ensures i < GridSide(resolution) && j < GridSide(resolution)
    ensures i * GridSide(resolution) + j < GridSide(resolution) * GridSide(resolution)
  {
    SquareBounds(resolution, threads, pass);
    CellIndex(GridSide(resolution), i, j);
  }

  /** Cell (i, j) sits at index i * n + j, inside the grid, and the index gives the cell back. */
  lemma CellIndex(n: nat, i: nat, j: nat)
    requires i < n && j < n
    ensures i * n + j < n * n
    ensures (i * n + j) / n == i && (i * n + j) % n == j
  {
    assert i * n + j < (i + 1) * n <= n * n;
    DivInterval(i * n + j, n, i);
  }

  /** The grid `before` with the cells of rows [y0, y1) and columns [x0, x1) set to their flags. */
  function FillRect(before: seq<byte>, n: nat, rings: seq<Ring>, inside: InsideTest,
                    y0: nat, y1: nat, x0: nat, x1: nat): seq<byte>
    requires n > 0
  {
    seq(|before|, k requires 0 <= k < |before| =>
      if InRect(n, k, y0, y1, x0, x1) then CellValue(rings, inside, k / n, k % n) else before[k])
  }

  /** The grid `before` with the cells of worker pass's sub-block set to their flags. */
  function FillSquare(before: seq<byte>, resolution: int, threads: int, pass: nat,
                      rings: seq<Ring>, inside: InsideTest): seq<byte>
    requires ValidResolution(resolution) && ValidThreads(threads)
  {
    var side, startY, startX := PassSide(resolution, threads), StartY(resolution, threads, pass), StartX(resolution, threads, pass);
    FillRect(before, GridSide(resolution), rings, inside, startY, startY + side, startX, startX + side)
  }

  /**
   * maskThread::run for worker pass: every cell of its sub-block gets its
   * flag, every other cell of the grid keeps its value, and complete[pass]
   * is raised while the other flags stay as they were.
   */
  method RunPass(block: array<byte>, complete: array<bool>, resolution: int, rings: seq<Ring>,
                 inside: InsideTest, threads: int, pass: nat)
    requires ValidResolution(resolution) && ValidThreads(threads) && pass < threads
    requires block.Length == GridSide(resolution) * GridSide(resolution)
    requires complete.Length == threads
    modifies block, complete
    ensures block[..] == FillSquare(old(block[..]), resolution, threads, pass, rings, inside)
    ensures complete[pass]
    ensures forall p :: 0 <= p < threads && p != pass ==> complete[p] == old(complete[p])
  {
    var n := GridSide(resolution);
    var side := PassSide(resolution, threads);
    var startX := StartX(resolution, threads, pass);
    var startY := StartY(resolution, threads, pass);
    var endX, endY := startX + side, startY + side;
    SquareBounds(resolution, threads, pass);
    assert (complete as object) != (block as object);
    RunRows(block, n, rings, inside, startY, endY, startX, endX);
    complete[pass] := true;
  }

  /**
   * The row loop of a worker: rows startY to endY - 1 of its sub-block,
   * each from column startX to endX - 1, get their flags; every other cell
   * keeps its value.
   */
  method RunRows(block: array<byte>, n: nat, rings: seq<Ring>, inside: InsideTest,
                 startY: nat, endY: nat, startX: nat, endX: nat)
    requires 0 < n && startY <= endY <= n && startX <= endX <= n
    requires block.Length == n * n
    modifies block
    ensures block[..] == FillRect(old(block[..]), n, rings, inside, startY, endY, startX, endX)
  {
    var i := startY;
    while i < endY
      invariant startY <= i <= endY
      invariant forall k :: 0 <= k < block.Length ==>
        block[k] == if InRect(n, k, startY, i, startX, endX)
                    then CellValue(rings, inside, k / n, k % n) else old(block[k])
    {
      RunRow(block, n, rings, inside, i, startX, endX);
      forall k | 0 <= k < block.Length
        ensures block[k] == if InRect(n, k, startY, i + 1, startX, endX)
                            then CellValue(rings, inside, k / n, k % n) else old(block[k])
      {
        RectStep(n, k, startY, i, startX, endX);
      }
      i := i + 1;
    }
  }

  /** Index k of an n-wide grid lies in rows [y0, y1) and columns [x0, x1). */
  predicate InRect(n: nat, k: nat, y0: nat, y1: nat, x0: nat, x1: nat)
    requires n > 0
  {
    y0 <= k / n < y1 && x0 <= k % n < x1
  }

  /** Rows [y0, i + 1) are rows [y0, i) and row i. */
  lemma RectStep(n: nat, k: nat, y0: nat, i: nat, x0: nat, x1: nat)
    requires n > 0 && y0 <= i
    ensures InRect(n, k, y0, i + 1, x0, x1) <==> InRect(n, k, y0, i, x0, x1) || InRect(n, k, i, i + 1, x0, x1)
    ensures !(InRect(n, k, y0, i, x0, x1) && InRect(n, k, i, i + 1, x0, x1))
  {
  }

  /**
   * One row of a worker's sub-block: cells (i, startX) to (i, endX - 1) get
   * their flags; every other cell keeps its value.
   */
  method RunRow(block: array<byte>, n: nat, rings: seq<Ring>, inside: InsideTest, i: nat, startX: nat, endX: nat)
    requires i < n && startX <= endX <= n
    requires block.Length == n * n
    modifies block
    ensures forall k :: 0 <= k < block.Length ==>
      block[k] == if InRect(n, k, i, i + 1, startX, endX) then CellValue(rings, inside, k / n, k % n) else old(block[k])
  {
    var j := startX;
    while j < endX
      invariant startX <= j <= endX
      invariant forall k :: 0 <= k < block.Length ==>
        block[k] == if InRect(n, k, i, i + 1, startX, j) then CellValue(rings, inside, k / n, k % n) else old(block[k])
    {
      var insideCount := CountInside(rings, inside, i, j);
      CellIndex(n, i, j);
      SameCell(n, i, j);
      if insideCount % 2 == 1 {
        block[i * n + j] := Water;
      } else {
        block[i * n + j] := Land;
      }
      assert block[i * n + j] == CellValue(rings, inside, i, j);
      j := j + 1;
    }
  }

  /** The ring loop of maskThread::run: inside_count for cell (i, j). */
  method CountInside(rings: seq<Ring>, inside: InsideTest, i: nat, j: nat) returns (insideCount: nat)
    ensures insideCount == |InsideSet(rings, inside, i, j)|
    ensures insideCount == InsideCount(rings, inside, i, j)
  {
    insideCount := 0;
    var k := 0;
    while k < |rings|
      invariant 0 <= k <= |rings|
      invariant insideCount == InsideCount(rings[..k], inside, i, j)
    {
      assert rings[..k + 1][..k] == rings[..k];
      if inside(rings[k], i, j) {
        insideCount := insideCount + 1;
      }
      k := k + 1;
    }
    assert rings[..k] == rings;
    InsideCountIsCardinality(rings, inside, i, j);
  }

  /** Index k names cell (i, j) exactly when k is i * n + j. */
  lemma SameCell(n: nat, i: nat, j: nat)
    requires i < n && j < n
    ensures forall k: nat :: k / n == i && k % n == j <==> k == i * n + j
  {
    CellIndex(n, i, j);
    forall k: nat
      ensures k / n == i && k % n == j <==> k == i * n + j
    {
      assert k == (k / n) * n + k % n;
    }
  }

  /**
   * The grid once workers 0 to done - 1 have run: the cells they own hold
   * their flags and every other cell still holds calloc's zero.
   */
  function PartialGrid(rings: seq<Ring>, inside: InsideTest, resolution: int, threads: int, done: nat): (g: seq<byte>)
    requires ValidResolution(resolution) && ValidThreads(threads)
    ensures |g| == GridSide(resolution) * GridSide(resolution)
  {
    var n := GridSide(resolution);
    seq(n * n, k requires 0 <= k < n * n =>
      KnownCell(n, k);
      if Owner(resolution, threads, k / n, k % n) < done then CellValue(rings, inside, k / n, k % n) else 0)
  }

  /** Worker pass fills exactly the cells it owns: the grid after it is the grid after workers 0 to pass. */
  lemma PassStep(rings: seq<Ring>, inside: InsideTest, resolution: int, threads: int, pass: nat)
    requires ValidResolution(resolution) && ValidThreads(threads) && pass < threads
    ensures FillSquare(PartialGrid(rings, inside, resolution, threads, pass), resolution, threads, pass, rings, inside)
         == PartialGrid(rings, inside, resolution, threads, pass + 1)
  {
    var n := GridSide(resolution);
    var before := PartialGrid(rings, inside, resolution, threads, pass);
    var after := PartialGrid(rings, inside, resolution, threads, pass + 1);
    var filled := FillSquare(before, resolution, threads, pass, rings, inside);
    forall k | 0 <= k < n * n
      ensures filled[k] == after[k]
    {
      KnownCell(n, k);
      SquaresPartitionGrid(resolution, threads, pass, k / n, k % n);
      InSquareRanges(resolution, threads, pass, k / n, k % n, StartY(resolution, threads, pass),
                     StartX(resolution, threads, pass), PassSide(resolution, threads));
    }
  }

  /** Before any worker the grid is all zero; after all of them it is the whole rasterised tile. */
  lemma PartialGridEnds(rings: seq<Ring>, inside: InsideTest, resolution: int, threads: int)
    requires ValidResolution(resolution) && ValidThreads(threads)
    ensures PartialGrid(rings, inside, resolution, threads, 0) == seq(GridSide(resolution) * GridSide(resolution), _ => 0)
    ensures PartialGrid(rings, inside, resolution, threads, threads) == Grid(rings, inside, GridSide(resolution))
  {
    var n := GridSide(resolution);
    var all := PartialGrid(rings, inside, resolution, threads, threads);
    var tile := Grid(rings, inside, n);
    forall k | 0 <= k < n * n
      ensures all[k] == tile[k]
    {
      KnownCell(n, k);
    }
  }

  /**
   * The worker stage of one tile: a zeroed grid and zeroed completion
   * flags, then every worker in turn (the workers write disjoint cells, so
   * running them one after another gives what running them together does).
   * The grid holds every cell's flag and every flag is raised.
   */
  method RasteriseTile(resolution: int, rings: seq<Ring>, inside: InsideTest, threads: int)
    returns (block: array<byte>, complete: array<bool>)
    requires ValidResolution(resolution) && ValidThreads(threads)
    ensures fresh(block) && fresh(complete)
    ensures block[..] == Grid(rings, inside, GridSide(resolution))
    ensures complete.Length == threads && forall p :: 0 <= p < threads ==> complete[p]
  {
    var n := GridSide(resolution);
    block := new byte[n * n](_ => 0);
    complete := new bool[threads](_ => false);
    PartialGridEnds(rings, inside, resolution, threads);
    var pass := 0;
    while pass < threads
      invariant 0 <= pass <= threads
      invariant block[..] == PartialGrid(rings, inside, resolution, threads, pass)
      invariant forall p :: 0 <= p < threads ==> complete[p] == (p < pass)
    {
      RunPass(block, complete, resolution, rings, inside, threads, pass);
      PassStep(rings, inside, resolution, threads, pass);
      pass := pass + 1;
    }
  }

  /** Every grid index names a cell of the grid. */
  lemma KnownCell(n: nat, k: nat)
    requires k < n * n
    ensures k / n < n && k % n < n
  {
    DivInterval(k, n, k / n);
  }
}
