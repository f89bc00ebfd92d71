/**
 The state of the `PuzzleGame` component and its handlers. The component's
 state hooks become the fields of one object; each handler becomes a method
 that sets those fields as the handler's setters do.
 */
module Game {
  import opened Tiles

  datatype Option<T> = None | Some(value: T)

  class PuzzleGame {
    /** The board, in id order. */
    var tiles: seq<Tile>
    /** The flag shown to the player; set after every swap. */
    var isComplete: bool
    /** The tile remembered by the first click (Armed), or none (Idle). */
    var selected: Option<Tile>
    var moves: nat
    var gridSize: int
    /** How many times the completion toast has been raised. */
    var toasts: nat

    /**
     The board has gridSize * gridSize tiles in id order whose positions form a
     permutation, and a selected tile is the board's tile with that id, as it
     is now.
     */
    ghost predicate BoardValid()
      reads this
    {
      && 2 <= gridSize
      && |tiles| == gridSize * gridSize
      && IdsInOrder(tiles)
      && IsPermutation(tiles)
      && (selected.Some? ==> 0 <= selected.value.id < |tiles| && tiles[selected.value.id] == selected.value)
    }

    /** The object invariant: a valid board, and a flag that never claims an unsolved board. */
    ghost predicate Valid()
      reads this
    {
      BoardValid() && (isComplete ==> Completed(tiles))
    }

    /**
     Mounting the component: the grid size starts at 3 and the mount effect
     initialises a shuffled board.
     */
    constructor (draws: seq<int>)
      requires DrawsFit(draws, 3 * 3 - 1)
      ensures Valid()
      ensures gridSize == 3 && tiles == Shuffle(InitialTiles(9), draws)
      ensures selected == None && moves == 0 && !isComplete && toasts == 0
    {
      tiles := [];
      isComplete := false;
      selected := None;
      moves := 0;
      gridSize := 3;
      toasts := 0;
      new;
      Initialize(draws);
    }

    /**
     `initializeTiles`: build the solved board of gridSize * gridSize tiles,
     shuffle it, and reset the move counter.
     */
    method Initialize(draws: seq<int>)
      requires 2 <= gridSize && DrawsFit(draws, gridSize * gridSize - 1)
      modifies this
      ensures Valid()
      ensures gridSize == old(gridSize)
      ensures tiles == Shuffle(InitialTiles(gridSize * gridSize), draws)
      ensures selected == None && moves == 0 && !isComplete && toasts == old(toasts)
    {
      var n := gridSize * gridSize;
      var newTiles := InitialTiles(n);
      InitialTilesSolved(n);
      assert |newTiles| == n && IdsInOrder(newTiles) && IsPermutation(newTiles);
      ShuffleTiles(newTiles, draws);
      moves := 0;
    }

    /**
     `shuffleTiles`: copy the board, run the Fisher-Yates pass over the copy,
     install it, clear the flag and the selection and reset the move counter.
     The Shuffle button passes the current board.
     */
    method ShuffleTiles(tilesArray: seq<Tile>, draws: seq<int>)
      requires 2 <= gridSize && |tilesArray| == gridSize * gridSize
      requires IdsInOrder(tilesArray) && IsPermutation(tilesArray)
      requires DrawsFit(draws, |tilesArray| - 1)
      modifies this
      ensures Valid()
      ensures gridSize == old(gridSize)
      ensures tiles == Shuffle(tilesArray, draws)
      ensures selected == None && moves == 0 && !isComplete && toasts == old(toasts)
    {
      var newTiles := new Tile[|tilesArray|](k requires 0 <= k < |tilesArray| => tilesArray[k]);
      assert newTiles[..] == tilesArray;
      ShuffleInPlace(newTiles, draws);
      ShuffleKeepsInvariant(tilesArray, draws);
      tiles := newTiles[..];
      isComplete := false;
      selected := None;
      moves := 0;
    }

    /**
     Choosing a grid size from the menu. A different size re-initialises the
     board at that size (the effect keyed on the grid size); choosing the size
     already shown changes no state, so the effect does not run and the game
     is left exactly as it was.
     */
    method SetGridSize(newSize: int, draws: seq<int>)
      requires Valid()
      requires 2 <= newSize && DrawsFit(draws, newSize * newSize - 1)
      modifies this
      ensures Valid()
      ensures gridSize == newSize && |tiles| == newSize * newSize
      ensures newSize != old(gridSize) ==>
        && tiles == Shuffle(InitialTiles(newSize * newSize), draws)
        && selected == None && moves == 0 && !isComplete && toasts == old(toasts)
      ensures newSize == old(gridSize) ==>
        && tiles == old(tiles) && selected == old(selected) && moves == old(moves)
        && isComplete == old(isComplete) && toasts == old(toasts)
    {
      if newSize != gridSize {
        gridSize := newSize;
        Initialize(draws);
      }
    }

    /**
     `handleTileClick` on the tile at index k. Idle: remember the clicked tile
     and change nothing else. Armed: the selected tile takes the clicked tile's
     position and the clicked tile the selected one's, every other tile stays,
     the selection is cleared, one move is counted and completion is checked.
     */
    method HandleTileClick(k: int)
      requires Valid() && 0 <= k < |tiles|
      modifies this
      ensures Valid()
      ensures gridSize == old(gridSize)
      ensures old(selected).None? ==>
        && selected == Some(old(tiles)[k])
        && tiles == old(tiles) && moves == old(moves)
        && isComplete == old(isComplete) && toasts == old(toasts)
      ensures old(selected).Some? ==>
        var a := old(selected).value.id;
        && |tiles| == |old(tiles)|
        && tiles[a].currentPos == old(tiles)[k].currentPos
        && tiles[k].currentPos == old(tiles)[a].currentPos
        && (forall m :: 0 <= m < |tiles| ==> tiles[m].id == old(tiles)[m].id)
        && (forall m :: 0 <= m < |tiles| && m != a && m != k ==> tiles[m] == old(tiles)[m])
        && selected == None && moves == old(moves) + 1
        && isComplete == Completed(tiles)
        && toasts == old(toasts) + (if isComplete then 1 else 0)
    {
      if selected.None? {
        selected := Some(tiles[k]);
      } else {
        var sel := selected.value;
        var clicked := tiles[k];
        var newTiles := SwapByIds(tiles, sel, clicked);
        SwapByIdsSwaps(tiles, sel.id, k);
        tiles := newTiles;
        selected := None;
        moves := moves + 1;
        CheckCompletion(newTiles);
      }
    }

    /**
     `checkCompletion`: set the flag to whether every tile is home, and raise
     the toast whenever it is. Its one caller passes the board it has just
     installed.
     */
    method CheckCompletion(currentTiles: seq<Tile>)
      requires BoardValid() && currentTiles == tiles
      modifies this`isComplete, this`toasts
      ensures Valid()
      ensures isComplete == Completed(currentTiles)
      ensures toasts == old(toasts) + (if isComplete then 1 else 0)
    {
      isComplete := Completed(currentTiles);
      if isComplete {
        toasts := toasts + 1;
      }
    }
  }

  /**
   A select-then-click pair on two tiles of a valid Idle game swaps exactly
   their positions, counts one move and returns to Idle; clicking the same
   tile twice leaves the board unchanged but still counts the move, and on a
   solved board raises the toast once more.
   */
  method SelectThenClick(g: PuzzleGame, a: int, b: int)
    requires g.Valid() && g.selected.None? && 0 <= a < |g.tiles| && 0 <= b < |g.tiles|
    modifies g
    ensures g.Valid()
    ensures g.tiles == SwapPositions(old(g.tiles), a, b)
    ensures a == b ==> g.tiles == old(g.tiles)
    ensures g.selected == None && g.moves == old(g.moves) + 1
    ensures g.isComplete == Completed(g.tiles)
    ensures g.toasts == old(g.toasts) + (if g.isComplete then 1 else 0)
  {
    g.HandleTileClick(a);
    g.HandleTileClick(b);
    assert g.tiles == SwapPositions(old(g.tiles), a, b);
  }
}
