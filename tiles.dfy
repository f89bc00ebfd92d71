/**
 The board of the picture puzzle: tiles, the permutation invariant on their
 positions, the Fisher-Yates shuffle, the click swap, completion, and the
 mapping from a position to its grid cell.

 A tile's `id` is its home slot in the solved picture; `currentPos` is the
 slot it occupies now. The board keeps its tiles in array order, and that
 order never changes: every operation only rewrites `currentPos` fields.
 */
module Tiles {

  datatype Tile = Tile(id: int, currentPos: int)

  /** Grid cell of a slot, as the renderer derives it. */
  datatype Cell = Cell(row: int, col: int)

  // ---------------------------------------------------------------------
  // Positions and the permutation invariant
  // ---------------------------------------------------------------------

  /** The `currentPos` fields of the board, in array order. */
  function Positions(tiles: seq<Tile>): seq<int>
  {
    seq(|tiles|, k requires 0 <= k < |tiles| => tiles[k].currentPos)
  }

  /** The slots 0 .. n-1 in ascending order. */
  function Range(n: nat): seq<int>
  {
    seq(n, k => k)
  }

  /** Tile k sits at array index k: the board's order is the order of ids. */
  predicate IdsInOrder(tiles: seq<Tile>)
  {
    forall k :: 0 <= k < |tiles| ==> tiles[k].id == k
  }

  /** The positions are exactly 0 .. N-1, each once: no duplicates, no gaps. */
  predicate IsPermutation(tiles: seq<Tile>)
  {
    multiset(Positions(tiles)) == multiset(Range(|tiles|))
  }

  /** Every slot 0 .. n-1 occurs exactly once among 0 .. n-1, and nothing else occurs. */
  lemma {:induction false} RangeMultiplicity(n: nat, v: int)
    ensures multiset(Range(n))[v] == if 0 <= v < n then 1 else 0
  {
    if n > 0 {
      RangeMultiplicity(n - 1, v);
      assert Range(n) == Range(n - 1) + [n - 1];
    }
  }

  /** A value found at two different indices occurs at least twice. */
  lemma RepeatedValue(s: seq<int>, i: int, j: int)
    requires 0 <= i < j < |s| && s[i] == s[j]
    ensures multiset(s)[s[i]] >= 2
  {
    assert s == s[..i] + [s[i]] + s[i + 1..j] + [s[j]] + s[j + 1..];
  }

  /** Some tile sits in slot p. */
  predicate Occupied(tiles: seq<Tile>, p: int)
  {
    exists k :: 0 <= k < |tiles| && tiles[k].currentPos == p
  }

  /**
   What the permutation invariant means tile by tile: every position lies on
   the board, no two tiles share a position, and every slot is occupied.
   */
  lemma PermutationMeaning(tiles: seq<Tile>)
    requires IsPermutation(tiles)
    ensures forall k :: 0 <= k < |tiles| ==> 0 <= tiles[k].currentPos < |tiles|
    ensures forall i, j :: 0 <= i < j < |tiles| ==> tiles[i].currentPos != tiles[j].currentPos
    ensures forall p :: 0 <= p < |tiles| ==> Occupied(tiles, p)
  {
    var n := |tiles|;
    var ps := Positions(tiles);
    forall k | 0 <= k < n
      ensures 0 <= tiles[k].currentPos < n
    {
      assert ps[k] in multiset(ps);
      RangeMultiplicity(n, ps[k]);
    }
    forall i, j | 0 <= i < j < n
      ensures tiles[i].currentPos != tiles[j].currentPos
    {
      if ps[i] == ps[j] {
        RepeatedValue(ps, i, j);
        RangeMultiplicity(n, ps[i]);
        assert false;
      }
    }
    forall p | 0 <= p < n
      ensures Occupied(tiles, p)
    {
      RangeMultiplicity(n, p);
      assert p in multiset(ps);
      var k :| 0 <= k < n && ps[k] == p;
    }
  }

  // ---------------------------------------------------------------------
  // Initialisation
  // ---------------------------------------------------------------------

  /** The freshly built board of n tiles, before any shuffle. */
  function InitialTiles(n: nat): (tiles: seq<Tile>)
    ensures |tiles| == n
  {
    seq(n, k => Tile(k, k))
  }

  /**
   The fresh board has exactly n tiles, tile k has id == currentPos == k, its
   positions form a permutation and it is already complete.
   */
  lemma InitialTilesSolved(n: nat)
    ensures |InitialTiles(n)| == n
    ensures forall k :: 0 <= k < n ==> InitialTiles(n)[k].id == k && InitialTiles(n)[k].currentPos == k
    ensures IdsInOrder(InitialTiles(n)) && IsPermutation(InitialTiles(n)) && Completed(InitialTiles(n))
  {
    assert Positions(InitialTiles(n)) == Range(n);
  }

  // ---------------------------------------------------------------------
  // Swapping positions and the Fisher-Yates shuffle
  // ---------------------------------------------------------------------

  /**
   Exchange the `currentPos` fields of the tiles at array indices i and j,
   leaving ids and array order alone; i == j changes nothing.
   */
  function SwapPositions(tiles: seq<Tile>, i: int, j: int): (r: seq<Tile>)
    requires 0 <= i < |tiles| && 0 <= j < |tiles|
    ensures |r| == |tiles|
    ensures r[i].currentPos == tiles[j].currentPos && r[j].currentPos == tiles[i].currentPos
    ensures forall k :: 0 <= k < |r| ==> r[k].id == tiles[k].id
    ensures forall k :: 0 <= k < |r| && k != i && k != j ==> r[k] == tiles[k]
  {
    tiles[i := tiles[i].(currentPos := tiles[j].currentPos)]
         [j := tiles[j].(currentPos := tiles[i].currentPos)]
  }

  /** A swap only exchanges two positions, so the multiset of positions is kept. */
  lemma SwapKeepsPositions(tiles: seq<Tile>, i: int, j: int)
    requires 0 <= i < |tiles| && 0 <= j < |tiles|
    ensures multiset(Positions(SwapPositions(tiles, i, j))) == multiset(Positions(tiles))
  {
    assert Positions(SwapPositions(tiles, i, j))
        == Positions(tiles)[i := tiles[j].currentPos][j := tiles[i].currentPos];
  }

  /** The draw for every loop step k in 1 .. i lies in [0, k]. */
  predicate DrawsFit(draws: seq<int>, i: int)
  {
    i < |draws| && forall k :: 1 <= k <= i ==> 0 <= draws[k] <= k
  }

  /**
   The Fisher-Yates pass from step i down to step 1: at step k the tiles at
   indices k and draws[k] exchange positions. `draws[k]` stands for the value
   of `Math.floor(Math.random() * (k + 1))` at that step.
   */
  function ShuffleSteps(tiles: seq<Tile>, draws: seq<int>, i: int): (r: seq<Tile>)
    requires i < |tiles| && DrawsFit(draws, i)
    ensures |r| == |tiles|
    decreases i
  {
    if i <= 0 then tiles
    else ShuffleSteps(SwapPositions(tiles, i, draws[i]), draws, i - 1)
  }

  /** Any number of steps keeps every id at its index. */
  lemma {:induction false} ShuffleStepsKeepIds(tiles: seq<Tile>, draws: seq<int>, i: int)
    requires i < |tiles| && DrawsFit(draws, i)
    ensures forall k :: 0 <= k < |tiles| ==> ShuffleSteps(tiles, draws, i)[k].id == tiles[k].id
    decreases i
  {
    if i > 0 {
      ShuffleStepsKeepIds(SwapPositions(tiles, i, draws[i]), draws, i - 1);
    }
  }

  /** Any number of steps keeps the multiset of positions. */
  lemma {:induction false} ShuffleStepsKeepPositions(tiles: seq<Tile>, draws: seq<int>, i: int)
    requires i < |tiles| && DrawsFit(draws, i)
    ensures multiset(Positions(ShuffleSteps(tiles, draws, i))) == multiset(Positions(tiles))
    decreases i
  {
    if i > 0 {
      SwapKeepsPositions(tiles, i, draws[i]);
      ShuffleStepsKeepPositions(SwapPositions(tiles, i, draws[i]), draws, i - 1);
    }
  }

  /** The whole pass of `shuffleTiles`, from the last index down to 1. */
  function Shuffle(tiles: seq<Tile>, draws: seq<int>): (r: seq<Tile>)
    requires DrawsFit(draws, |tiles| - 1)
    ensures |r| == |tiles|
  {
    ShuffleSteps(tiles, draws, |tiles| - 1)
  }

  /**
   The shuffle never changes the number of tiles, their array order or their
   ids, and leaves the positions a permutation of 0 .. N-1.
   */
  lemma ShuffleKeepsInvariant(tiles: seq<Tile>, draws: seq<int>)
    requires DrawsFit(draws, |tiles| - 1)
    ensures |Shuffle(tiles, draws)| == |tiles|
    ensures forall k :: 0 <= k < |tiles| ==> Shuffle(tiles, draws)[k].id == tiles[k].id
    ensures IdsInOrder(tiles) ==> IdsInOrder(Shuffle(tiles, draws))
    ensures IsPermutation(tiles) ==> IsPermutation(Shuffle(tiles, draws))
  {
    ShuffleStepsKeepIds(tiles, draws, |tiles| - 1);
    ShuffleStepsKeepPositions(tiles, draws, |tiles| - 1);
  }

  /**
   Nothing stops the shuffle from producing the solved board: when every draw
   picks its own step, every step swaps a tile with itself.
   */
  lemma {:induction false} SelfDrawsChangeNothing(tiles: seq<Tile>, draws: seq<int>, i: int)
    requires i < |tiles| && i < |draws|
    requires forall k :: 1 <= k <= i ==> draws[k] == k
    ensures ShuffleSteps(tiles, draws, i) == tiles
    decreases i
  {
    if i > 0 {
      assert SwapPositions(tiles, i, draws[i]) == tiles;
      SelfDrawsChangeNothing(tiles, draws, i - 1);
    }
  }

  /** The in-place loop of `shuffleTiles`, over the copied array. */
  method ShuffleInPlace(a: array<Tile>, draws: seq<int>)
    requires DrawsFit(draws, a.Length - 1)
    modifies a
    ensures a[..] == Shuffle(old(a[..]), draws)
  {
    var i := a.Length - 1;
    while i > 0
      invariant -1 <= i < a.Length
      invariant ShuffleSteps(a[..], draws, i) == Shuffle(old(a[..]), draws)
    {
      var j := draws[i];
      ghost var before := a[..];
      var pi, pj := a[i].currentPos, a[j].currentPos;
      a[i] := a[i].(currentPos := pj);
      assert a[..] == before[i := before[i].(currentPos := pj)];
      ghost var middle := a[..];
      a[j] := a[j].(currentPos := pi);
      assert a[..] == middle[j := middle[j].(currentPos := pi)];
      i := i - 1;
    }
  }

  // ---------------------------------------------------------------------
  // The click swap
  // ---------------------------------------------------------------------

  /**
   The board built by the second click: the tile whose id is the selected
   tile's takes the clicked tile's position, the tile whose id is the clicked
   tile's takes the selected tile's position, every other tile is copied.
   */
  function SwapByIds(tiles: seq<Tile>, selected: Tile, clicked: Tile): (r: seq<Tile>)
    ensures |r| == |tiles|
    ensures forall k :: 0 <= k < |r| ==> r[k].id == tiles[k].id
  {
    seq(|tiles|, k requires 0 <= k < |tiles| =>
      tiles[k].(currentPos :=
        if tiles[k].id == selected.id then clicked.currentPos
        else if tiles[k].id == clicked.id then selected.currentPos
        else tiles[k].currentPos))
  }

  /**
   On a board whose ids are in order, swapping by the ids of the tiles at
   indices a and b is the index swap of those two tiles: the selected tile
   takes the clicked one's position and vice versa, nothing else moves, and
   the positions stay a permutation.
   */
  lemma SwapByIdsSwaps(tiles: seq<Tile>, a: int, b: int)
    requires IdsInOrder(tiles) && 0 <= a < |tiles| && 0 <= b < |tiles|
    ensures SwapByIds(tiles, tiles[a], tiles[b]) == SwapPositions(tiles, a, b)
    ensures IsPermutation(tiles) ==> IsPermutation(SwapByIds(tiles, tiles[a], tiles[b]))
  {
    var r := SwapByIds(tiles, tiles[a], tiles[b]);
    var s := SwapPositions(tiles, a, b);
    forall k | 0 <= k < |tiles|
      ensures r[k] == s[k]
    {
    }
    SwapKeepsPositions(tiles, a, b);
  }

  /** Clicking the selected tile again leaves every tile as it was. */
  lemma SelfSwapChangesNothing(tiles: seq<Tile>, a: int)
    requires IdsInOrder(tiles) && 0 <= a < |tiles|
    ensures SwapByIds(tiles, tiles[a], tiles[a]) == tiles
  {
  }

  // ---------------------------------------------------------------------
  // Completion
  // ---------------------------------------------------------------------

  /** `checkCompletion`: every tile sits in its home slot. */
  predicate Completed(tiles: seq<Tile>)
  {
    forall k :: 0 <= k < |tiles| ==> tiles[k].currentPos == tiles[k].id
  }

  /**
   On a board whose ids are in order, the puzzle is complete exactly when the
   board is the freshly initialised, unshuffled one.
   */
  lemma CompletedIffInitial(tiles: seq<Tile>)
    requires IdsInOrder(tiles)
    ensures Completed(tiles) <==> tiles == InitialTiles(|tiles|)
  {
  }

  // ---------------------------------------------------------------------
  // Grid cells
  // ---------------------------------------------------------------------

  /**
   The cell of slot `pos` on a gridSize x gridSize grid: row pos / gridSize,
   column pos % gridSize (both operands are non-negative, so flooring and
   Dafny's division agree). Every slot of the board lands on a cell of the
   grid and is recovered from it.
   */
  function CellOf(pos: int, gridSize: int): (c: Cell)
    requires 1 <= gridSize && 0 <= pos < gridSize * gridSize
    ensures 0 <= c.row < gridSize && 0 <= c.col < gridSize
    ensures c.row * gridSize + c.col == pos
  {
    RowOnGrid(pos, gridSize);
    Cell(pos / gridSize, pos % gridSize)
  }

  /** The row of a slot on the board is a row of the grid. */
  lemma RowOnGrid(pos: int, gridSize: int)
    requires 1 <= gridSize && 0 <= pos < gridSize * gridSize
    ensures 0 <= pos / gridSize < gridSize
  {
    if pos / gridSize >= gridSize {
      MulMonotone(gridSize, pos / gridSize, gridSize);
      assert false;
    }
  }

  lemma MulMonotone(a: int, b: int, m: int)
    requires 0 <= a <= b && 0 <= m
    ensures a * m <= b * m
  {
  }

  /** Every cell of the grid is the cell of exactly the slot row * gridSize + col. */
  lemma CellRoundTrip(row: int, col: int, gridSize: int)
    requires 1 <= gridSize && 0 <= row < gridSize && 0 <= col < gridSize
    ensures 0 <= row * gridSize + col < gridSize * gridSize
    ensures CellOf(row * gridSize + col, gridSize) == Cell(row, col)
  {
    MulMonotone(row, gridSize - 1, gridSize);
    var c := CellOf(row * gridSize + col, gridSize);
    CellUnique(c.row, c.col, row, col, gridSize);
  }

  /** Two in-grid (row, col) pairs naming the same slot are the same cell. */
  lemma CellUnique(r1: int, c1: int, r2: int, c2: int, gridSize: int)
    requires 1 <= gridSize
    requires 0 <= r1 < gridSize && 0 <= c1 < gridSize
    requires 0 <= r2 < gridSize && 0 <= c2 < gridSize
    requires r1 * gridSize + c1 == r2 * gridSize + c2
    ensures r1 == r2 && c1 == c2
  {
    if r1 < r2 {
      MulMonotone(r1 + 1, r2, gridSize);
      assert false;
    } else if r2 < r1 {
      MulMonotone(r2 + 1, r1, gridSize);
      assert false;
    }
  }

  /**
   The picture is reassembled exactly when every tile is drawn in the cell of
   its home slot: on a board of gridSize * gridSize tiles whose positions form
   a permutation, completion holds iff each tile's row and column equal its
   original row and column.
   */
  lemma CompletedIffHomeCells(tiles: seq<Tile>, gridSize: int)
    requires 1 <= gridSize && |tiles| == gridSize * gridSize
    requires IdsInOrder(tiles) && IsPermutation(tiles)
    ensures forall k :: 0 <= k < |tiles| ==>
      0 <= tiles[k].currentPos < gridSize * gridSize && 0 <= tiles[k].id < gridSize * gridSize
    ensures Completed(tiles) <==>
      forall k :: 0 <= k < |tiles| ==> CellOf(tiles[k].currentPos, gridSize) == CellOf(tiles[k].id, gridSize)
  {
    PermutationMeaning(tiles);
    forall k | 0 <= k < |tiles| && CellOf(tiles[k].currentPos, gridSize) == CellOf(tiles[k].id, gridSize)
      ensures tiles[k].currentPos == tiles[k].id
    {
    }
  }
}
