# Picture puzzle engine

A model of the puzzle engine inside the `PuzzleGame` component of a
browser picture puzzle. A picture is cut into a `gridSize` x `gridSize`
grid of tiles. Each tile records its home slot (`id`) and the slot it
occupies now (`currentPos`). The board is shuffled with a Fisher-Yates
pass. The player clicks one tile and then a second one to swap their
positions, until every tile is home.

The project has two modules:

- `Tiles` (tiles.dfy) holds the pure part. It has the tile record, the
  permutation invariant on positions, the swap of two positions, the
  shuffle (a specification function plus the in-place loop proved
  against it), the id-matching swap that the second click builds,
  completion, and the mapping from a slot to its grid cell.
- `Game` (game.dfy) holds the component's state as the class
  `PuzzleGame`. Its fields are `tiles`, `isComplete`, `selected`,
  `moves`, `gridSize` and a toast counter. Its methods are the handlers,
  and each one sets the fields as the handler's setters do. `Valid()` is
  the object invariant:
  - the board has `gridSize * gridSize` tiles;
  - tile k sits at array index k;
  - the positions form a permutation of 0 .. N-1;
  - a selected tile is the board's tile with that id;
  - the completion flag is never set on an unsolved board.

The random draw `Math.floor(Math.random() * (i + 1))` becomes a supplied
sequence `draws`. `draws[i]` is the index drawn at loop step `i`, and every
draw must lie in `[0, i]`. The completion toast becomes a counter, `toasts`,
that goes up each time the toast would be shown.

Facts about the code that shape the model:

- The code never validates the grid size. The size menu offers only 2, 3
  and 4 (components/puzzle-game.tsx:184-192), so `gridSize >= 2` is a
  precondition.
- A click always names a rendered board tile
  (components/puzzle-game.tsx:175), so the clicked tile is a board index.
- The toast is raised whenever a swap leaves the board complete
  (components/puzzle-game.tsx:99, 104-107). That includes clicking the
  same tile twice on a board that is already solved.
- The selection stores the clicked tile record
  (components/puzzle-game.tsx:84), not its id. `Valid()` ties the stored
  record to the board's tile with that id.
- Choosing the size already shown changes no state, so the effect keyed on
  the grid size (components/puzzle-game.tsx:129-131) does not run and the
  game is left as it was.

## Model

| member | source | states |
|---|---|---|
| `Tiles.PermutationMeaning` | components/puzzle-game.tsx:152-156 | when the positions form a permutation, every tile's position is on the board, no two tiles share a position and every slot is occupied |
| `Tiles.InitialTiles` | components/puzzle-game.tsx:61-64 | the board built by `Array.from` has exactly n tiles |
| `Tiles.Completed` | components/puzzle-game.tsx:104 | the `every` predicate: true exactly when every tile's `currentPos` equals its `id` |
| `Tiles.InitialTilesSolved` | components/puzzle-game.tsx:59-64 | the fresh board has exactly n tiles, tile k has `id == currentPos == k`, ids are in array order, positions form a permutation and the board is complete |
| `Tiles.SwapPositions` | components/puzzle-game.tsx:74 | the tiles at indices i and j exchange positions; every id and every other tile is unchanged |
| `Tiles.SwapKeepsPositions` | components/puzzle-game.tsx:74 | a swap keeps the multiset of positions |
| `Tiles.ShuffleSteps` | components/puzzle-game.tsx:72-75 | the Fisher-Yates steps from i down to 1 keep the number of tiles |
| `Tiles.ShuffleStepsKeepIds` | components/puzzle-game.tsx:72-75 | the shuffle steps never change an id or the array order |
| `Tiles.ShuffleStepsKeepPositions` | components/puzzle-game.tsx:72-75 | the shuffle steps keep the multiset of positions, provided every draw lies in [0, i] |
| `Tiles.Shuffle` | components/puzzle-game.tsx:71-75 | the whole pass keeps the number of tiles |
| `Tiles.ShuffleKeepsInvariant` | components/puzzle-game.tsx:71-75 | the shuffle keeps the length, the array order and every id, and turns a permutation of positions into a permutation |
| `Tiles.SelfDrawsChangeNothing` | components/puzzle-game.tsx:72-77 | if every draw picks its own step, the shuffle returns the board unchanged, so it can hand back a solved board while the flag is cleared |
| `Tiles.ShuffleInPlace` | components/puzzle-game.tsx:71-75 | the in-place loop over the copied array leaves exactly the result of the Fisher-Yates specification function |
| `Tiles.SwapByIds` | components/puzzle-game.tsx:86-94 | the board built by the second click keeps the length and every id |
| `Tiles.SwapByIdsSwaps` | components/puzzle-game.tsx:86-94 | on a board in id order, the id-matching map is exactly the swap of the selected and clicked tiles' positions, and it keeps the permutation |
| `Tiles.SelfSwapChangesNothing` | components/puzzle-game.tsx:86-94 | clicking the selected tile again leaves every tile unchanged |
| `Tiles.CompletedIffInitial` | components/puzzle-game.tsx:103-104 | on a board in id order, the board is complete iff it equals the fresh, unshuffled board |
| `Tiles.CellOf` | components/puzzle-game.tsx:153-156 | for a slot `0 <= pos < gridSize²`, the derived row and column are both in `[0, gridSize)`, and `row * gridSize + col == pos` |
| `Tiles.CellRoundTrip` | components/puzzle-game.tsx:153-156 | every cell of the grid is the cell of slot `row * gridSize + col`, so the mapping covers the whole grid |
| `Tiles.CellUnique` | components/puzzle-game.tsx:153-156 | two in-grid (row, col) pairs that name the same slot are the same cell |
| `Tiles.CompletedIffHomeCells` | components/puzzle-game.tsx:152-156 | on a valid board, both position and id lie on the grid, and the board is complete iff every tile is drawn at its original row and column |
| `Game.PuzzleGame.constructor` | components/puzzle-game.tsx:34-38 | mounting starts at grid size 3 with a freshly shuffled board, no selection, zero moves and the flag cleared |
| `Game.PuzzleGame.Initialize` | components/puzzle-game.tsx:59-68 | the board becomes the shuffle of the solved gridSize² board; the selection is cleared, moves are 0, the flag is cleared, and the invariant holds |
| `Game.PuzzleGame.ShuffleTiles` | components/puzzle-game.tsx:70-80 | the board becomes the shuffle of the given tiles with every id kept; the flag is cleared, the selection is cleared, moves are 0, and the invariant holds |
| `Game.PuzzleGame.SetGridSize` | components/puzzle-game.tsx:129-131 | choosing a different size sets the size and regenerates a shuffled board of that size from scratch, with moves 0, no selection and the flag cleared; choosing the size already shown leaves tiles, selection, moves, flag and toasts unchanged |
| `Game.PuzzleGame.HandleTileClick` | components/puzzle-game.tsx:82-101 | Idle: only the selection changes. Armed: the two tiles exchange positions and nothing else moves; the selection is cleared, moves go up by exactly 1, the flag is set to completion, and the invariant holds |
| `Game.PuzzleGame.CheckCompletion` | components/puzzle-game.tsx:103-127 | called on the board just installed, the flag is set to whether every tile is home, the toast is raised exactly when it is, and the invariant holds again |
| `Game.SelectThenClick` | components/puzzle-game.tsx:82-101 | a first and second click on tiles a and b swap exactly their positions and count one move; the same tile twice leaves the board unchanged but still counts the move |

## Left out

- Rendering is not modelled. This covers the `Frame` component, the JSX
  tree, the CSS percentages and `backgroundPosition`
  (components/puzzle-game.tsx:19-31, 143-219). They are presentation,
  and they use floating-point division. Only the integer row/column
  mapping is modelled.
- Image selection is not modelled (`getImageUrl`, `imageUrl`,
  `currentImageIndex`). Image URLs are opaque strings that no engine
  rule depends on.
- The toast's content and styling are left out; the toast is modelled
  only as the counter `toasts`. It is a call into a notification library.
- The React plumbing is not modelled (`isClient`, the mount effect,
  asynchronous setter batching). Each handler's setters are applied as
  one synchronous update. A grid-size change is `SetGridSize`: a new
  size calls `Initialize`, and the size already shown changes nothing,
  because an unchanged state value does not re-run the effect.
- `Math.random` is not modelled. Each draw is a supplied index in
  `[0, i]`. The model does not say whether the draws are uniform, so it
  does not claim the shuffle is uniform.
- `Tiles.ShuffleInPlace` does not model aliasing. The code copies the
  array shallowly, so the loop also changes the tile objects of the
  previous board. Tiles are values in the model, so only the installed
  board is modelled.
- `Game.PuzzleGame.HandleTileClick` takes the clicked tile as an index
  into the board. The code receives the tile record, which the renderer
  always takes from the board.
- Tile ids and positions are unbounded integers. In the code they are
  JavaScript numbers, but they never exceed 15 for the sizes offered.
