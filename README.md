# Match-three tile controller, modelled in Dafny

This project models the tile controller of a match-three puzzle game. Each tile
on the board is a controller object. The controller:

- finds the same-type runs that pass through its tile;
- lists the tiles next to it;
- runs the click state machine that selects a tile, arms it for a swap and swaps
  it with a neighbour, reverting a swap that makes no match;
- holds the small state changes of a tile's life: a new type, a random re-roll,
  destruction.

The board is a `width × height` grid of tiles. A physics raycast of one tile's
length becomes a bounds-checked step to the neighbouring cell. Up is `(x, y+1)`,
down `(x, y-1)`, left `(x-1, y)` and right `(x+1, y)`.

Modules:

- `Grid` (grid.dfy): positions, directions, the `Tile` record and the `Board`
  value. It also holds neighbour lookup, the four-way adjacency list, cell update
  and swap.
- `Matching` (matching.dfy): the directional scan, the pairing of scans into the
  up-down and left-right lines, one tile's match list and the board-wide match
  test. These are pure functions, with the lemmas about them.
- `Selection` (selection.dfy): the click state machine as a function on a
  (board, armed tile) state, with the selection invariant and the swap/revert
  lemmas.
- `TileControllers` (tile_controller.dfy): class `TileBoard`, the imperative
  model. It has a `tiles: array2<Tile>` grid, the `previousSelected` slot and a
  ghost `board` kept equal to the array. Its methods are `GetMatch` (a `while`
  loop), `GetOneLineMatch`, `GetAllMatches`, `GetAllAdjacentTiles`, `Select`,
  `Deselect`, `OnMouseDown`, `ChangeId`, `GenerateRandomTile` and
  `SetDestroyed`. Each one is proved against the pure functions above.
- `Scenarios` (scenarios.dfy): two worked examples.
  - On a 3×3 board whose bottom row reads `1 1 2`, the player arms (2,0) and
    then clicks (2,1). The swap is kept, (0,0) reports the whole bottom row,
    and the board-wide match set is exactly that row.
  - On a one-row board `1 2`, swapping the two tiles makes no match, so the
    swap is reverted.

A tile is the record `Tile(id, destroyed, hasSprite, selected)`. It holds the
controller's `id`, `IsDestroyed` and `isSelected` fields and whether
`render.sprite` is set. The static `previousSelected` becomes the field
`TileBoard.previousSelected`, of type `Option<Pos>`.

On these points the model follows the code:

- `ChangeId` does not clear the destroyed flag. Only `GenerateRandomTile` does.
- `GetAllMatches` on a destroyed tile returns null (`None`), not an empty list.
- A tile's match list is a concatenation, not a deduplicated set.
  `TileMatchesDistinct` proves that it never holds a duplicate anyway.
- A click is ignored when the tile has no sprite, when the board is animating
  or when the game is over. A selected tile that is clicked again is
  deselected, not swapped.

## Model

| member | source | states |
|---|---|---|
| Grid.AdjacentIff | Assets/Scripts/TileController.cs:132-154 | The four raycast results around p hold `Some(q)` exactly when q is on the board one orthogonal step from p; off-grid directions give None. |
| Grid.Board.Swap | Assets/Scripts/TileController.cs:109-112 | Swapping positions exchanges the tiles at p and q and leaves every other cell unchanged. |
| Grid.SwapTwice | Assets/Scripts/TileController.cs:92-96 | Swapping the same two tiles a second time gives back the exact board. |
| Matching.ScanBounded | Assets/Scripts/TileController.cs:166-177 | A scan never holds more cells than lie between p and the edge of the grid in direction d. |
| Matching.ScanAt | Assets/Scripts/TileController.cs:163-176 | The k-th cell of a scan is the cell k+1 steps from p in direction d. It is on the board, has p's id and is not destroyed. |
| Matching.ScanContiguous | Assets/Scripts/TileController.cs:160-180 | A scan returns only the cells 1, 2, … steps from p in direction d. Each one is on the board, has p's id and is not destroyed. |
| Matching.ScanStops | Assets/Scripts/TileController.cs:166-172 | A scan stops at the first cell that is off the grid, of another id or destroyed. |
| Matching.ScanLength | Assets/Scripts/TileController.cs:166-177 | If the first n cells continue the run and cell n+1 does not, the scan holds exactly n cells. |
| Matching.ScanUnique | Assets/Scripts/TileController.cs:160-180 | Conversely to ScanContiguous/ScanStops, the scan equals the sequence of those n contiguous cells. |
| Matching.ScanOnRay | Assets/Scripts/TileController.cs:163-176 | Every scanned cell lies on p's column (up/down) or row (left/right), strictly beyond p. A scan has no duplicates. |
| Matching.LineMatchOfPair | Assets/Scripts/TileController.cs:182-198 | A line contributes null unless its two opposite scans hold at least 2 tiles together. Otherwise it contributes exactly their concatenation. |
| Matching.AxisRunsApart | Assets/Scripts/TileController.cs:209-213 | The up-down line lies on p's column and the left-right line on p's row. Neither contains p, so the two lines are disjoint. |
| Matching.TileMatches | Assets/Scripts/TileController.cs:200-205 | A tile's match list is null exactly when the tile is destroyed. |
| Matching.TileMatchesByAxis | Assets/Scripts/TileController.cs:207-231 | A live tile's list is the contributing up-down line, then the contributing left-right line, then the tile itself when either contributed. |
| Matching.TileMatchesShape | Assets/Scripts/TileController.cs:207-231 | A live tile's list is either empty or ends with the tile after at least 2 others. The tile is in it iff some line contributed, and the list is empty iff neither did. |
| Matching.TileMatchesSameType | Assets/Scripts/TileController.cs:200-231 | Every tile in a match list is on the board, has the origin's id and is not destroyed. |
| Matching.IsolatedCell | Assets/Scripts/TileController.cs:207-231 | A tile none of whose four neighbours is a live tile of its type has an empty match list. |
| Matching.TileMatchesDistinct | Assets/Scripts/TileController.cs:207-231 | A match list has no duplicates. |
| Matching.AllMatchesSpec | Assets/Scripts/TileController.cs:88 | The union of all tiles' lists is non-empty exactly when some tile's list is non-empty. It holds only live tiles of the board. |
| Selection.OnClick | Assets/Scripts/TileController.cs:55-107 | A click is ignored exactly when the tile has no sprite, the board is animating or the game is over. Otherwise it deselects a selected tile, selects the tile when nothing is armed, swaps with an adjacent armed tile (kept on a match, swapped back otherwise) or moves the selection. The result is well formed with the same dimensions. After a click that is not ignored, p is armed exactly when the outcome is Selected or Reselected; otherwise nothing is armed. |
| Selection.AtMostOneSelected | Assets/Scripts/TileController.cs:31-33 | Under the selection invariant, two selected tiles are the same tile, and that tile is the armed one. |
| Selection.ClickKeepsInvariant | Assets/Scripts/TileController.cs:55-107 | Every branch of a click preserves the invariant: a tile is selected exactly when `previousSelected` names it. |
| Selection.IgnoredClick | Assets/Scripts/TileController.cs:57-61 | A click is ignored exactly when the tile has no sprite, the board is animating or the game is over. An ignored click changes neither the selection nor the grid. |
| Selection.ClickOnArmedTile | Assets/Scripts/TileController.cs:66-69 | Clicking the armed tile deselects it, leaves nothing armed and moves no tile. |
| Selection.IdleClickSelects | Assets/Scripts/TileController.cs:72-75 | With nothing armed, a click on an unselected tile with a sprite selects it and arms it. |
| Selection.ArmedClickBranches | Assets/Scripts/TileController.cs:77-104 | With another tile q armed, a click on p next to q ends as SwapKept if the swapped board has a match and as SwapReverted otherwise. A kept swap leaves the swapped board; a reverted one leaves the old board with q's flag cleared. A click on p not next to q clears q's flag, selects p and arms it. |
| Selection.SwapKeptSwaps | Assets/Scripts/TileController.cs:80-91 | A swap is kept only with a tile one step from the armed one, and only when the board then has a match. Afterwards nothing is selected and the two tiles have traded places. |
| Selection.SwapRevertRestores | Assets/Scripts/TileController.cs:86-97 | A click that ends as SwapReverted was on a tile next to the armed one, and the swap left no match. The board afterwards is the pre-click board with only the armed tile's flag cleared, and nothing is armed. |
| Selection.NonAdjacentRearms | Assets/Scripts/TileController.cs:99-104 | A click that ends as Reselected was on a tile not next to the armed one. It arms and selects the clicked tile and clears the old armed tile's flag. No tile moves. |
| Selection.OnlyKeptSwapMovesTiles | Assets/Scripts/TileController.cs:66-106 | Every click outcome except a kept swap leaves every cell's id, destroyed flag and sprite unchanged. |
| TileControllers.TileBoard.GetMatch | Assets/Scripts/TileController.cs:160-180 | The raycast loop returns exactly `Scan` from p towards d, for p's id. |
| TileControllers.TileBoard.GetOneLineMatch | Assets/Scripts/TileController.cs:182-198 | The loop over the paths returns the line's contribution: the scans appended, or null when they hold fewer than 2 tiles. |
| TileControllers.TileBoard.GetAllMatches | Assets/Scripts/TileController.cs:200-232 | Returns exactly the tile's match list `TileMatches`: null if the tile is destroyed. |
| TileControllers.TileBoard.GetAllAdjacentTiles | Assets/Scripts/TileController.cs:144-154 | Returns the four raycast results around p, in the order up, down, left, right. |
| TileControllers.TileBoard.AnyMatch | Assets/Scripts/TileController.cs:88 | `board.GetAllMatches().Count > 0`: true exactly when some tile's match list is non-empty. |
| TileControllers.TileBoard.OnMouseDown | Assets/Scripts/TileController.cs:55-107 | Keeps the object invariant. The new grid, selection and outcome are those of `Selection.OnClick` on the old state. |
| TileControllers.TileBoard.Select | Assets/Scripts/TileController.cs:238-243 | The tile becomes selected and is remembered in `previousSelected`. Nothing else changes. |
| TileControllers.TileBoard.Deselect | Assets/Scripts/TileController.cs:245-250 | The tile's flag is cleared and `previousSelected` becomes null. Nothing else changes. |
| TileControllers.TileBoard.SwapTiles | Assets/Scripts/TileController.cs:109-112 | The grid becomes the old grid with the two tiles exchanged. |
| TileControllers.TileBoard.ChangeId | Assets/Scripts/TileController.cs:114-120 | The tile takes the new id and a sprite. Its destroyed and selected flags and every other cell are unchanged. The id must index `tileTypes`. |
| TileControllers.TileBoard.GenerateRandomTile | Assets/Scripts/TileController.cs:122-128 | The tile comes back to life (not destroyed, with a sprite) with an id in `[0, tileTypes.Count)`. Nothing else changes. |
| TileControllers.TileBoard.SetDestroyed | Assets/Scripts/TileController.cs:276-281 | The tile is destroyed, with id -1 and no sprite. Nothing else changes. |
| TileControllers.TileBoard.constructor | Assets/Scripts/TileController.cs:48-53 | Every tile starts live and unselected, and nothing is armed. The invariant holds. |
| Scenarios.FirstClickArms | Assets/Scripts/TileController.cs:72-75 | Worked example: the first click on (2,0) selects and arms it. |
| Scenarios.BottomRowCompleted | Assets/Scripts/TileController.cs:80-91 | Worked example: after a first click arms (2,0), clicking (2,1) on the example board keeps the swap, which completes the bottom row. |
| Scenarios.BottomRowIsAllMatches | Assets/Scripts/TileController.cs:207-231 | Worked example: on the swapped board, the union of all tiles' match lists is exactly the bottom row {(0,0), (1,0), (2,0)}. |
| Scenarios.UselessSwapReverted | Assets/Scripts/TileController.cs:86-95 | Worked example: on a one-row board `1 2`, arming (0,0) and clicking (1,0) leaves no match, so the swap is reverted and the board is back as it was, with nothing selected. |
| Scenarios.BottomRowMatch | Assets/Scripts/TileController.cs:207-231 | Worked example: on the swapped board, tile (0,0) reports `[(1,0), (2,0), (0,0)]`. |

## Left out

- The physics raycast itself, the collider lookup and the cast distance `render.size.x`. A ray of one tile's length is taken to reach exactly the neighbouring cell (square tiles). Adjacency is index arithmetic.
- The coroutines `MoveTilePosition` and the scale tweens of `SetDestroyed`, which are frame-timed float interpolation. `SetDestroyed` is modelled by the state it leaves when its coroutine finishes: destroyed, id -1, no sprite.
- Colours, sprites beyond "has one or not", the `name` strings and the `SoundManager` calls (tap and wrong-move sounds). These are presentation only.
- `Random.Range`: `GenerateRandomTile` picks an arbitrary id in `[0, tileTypeCount)` by nondeterministic choice.
- `BoardManager`, whose source is not part of this model:
  - `SwapTilePosition` is modelled as exchanging the two cells' tile records (`SwapTiles`).
  - Its board-wide `GetAllMatches` is modelled as the union of every tile's match list (`AnyMatch`, `AllMatches`).
  - `IsAnimating` is a parameter of `OnMouseDown`.
  - `tileTypes` is reduced to its count.
  - `Process` (destruction, gravity collapse, refill and cascade) is not modelled. A kept swap ends with outcome `SwapKept`, where the source would call `Process`.
- `GameFlowManager.IsGameOver` is a parameter of `OnMouseDown`.
- TileBoard.OnMouseDown: the swap is asynchronous in the source (a coroutine whose completion callback checks for matches). The model takes the swap, the check and any swap-back as one atomic step. It does not model input arriving while the swap animation runs.
- `Awake` singleton wiring, and the `IsProcessing` / `IsSwapping` flags that `Start` clears but this file never reads again.
- TileBoard.ChangeId: requires `0 <= newId < tileTypeCount`. In the source, `tileTypes[id]` with an id out of range throws, and the model does not represent that exception.
- TileBoard.GenerateRandomTile: requires `tileTypeCount > 0`. With an empty `tileTypes`, `Random.Range(0, 0)` gives 0 and indexing the empty list throws, and the model does not represent that exception.
- TileBoard.constructor: the initial tile (id 0, no sprite) stands for the prefab before the board first rolls each tile. The board's own construction and its no-initial-match re-rolls are not modelled.
