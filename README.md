# Minesweeper board engine in Dafny

This project models the board engine of the C++ Minesweeper game. That engine is the
`MinesweeperGame` object of `src/gameState.cpp`: a row-major vector of tiles beside a
`GameContext` record. The model covers:

- setting the difficulty and blanking the board;
- neighbour counting;
- lazy mine placement on the first reveal, with a safe 3 x 3 zone around the clicked tile;
- the reveal with its breadth-first flood fill and win scan;
- the loss sweep;
- the state guards of the input handler;
- the clamp and digit split of the three-digit counters;
- the case-insensitive file-extension test of the texture loader.

Files:

- `game_types.dfy`, module `GameTypes`: the enums, the tile's game state and the
  context with its defaults (`include/gameState.hpp`).
- `grid.dfy`, module `Grid`: row-major addressing, the eight neighbour directions with
  their bounds checks, `countNeighborMines` and `getFlaggedCount`. It also holds the
  board classification that generation establishes. Every non-mine tile shows `' '` or
  the digit of its adjacent mines. This is stated against an independent reference:
  the set of mines at adjacent positions.
- `engine.dfy`, module `Engine`:
  - the class `MinesweeperGame`, with fields `ctx` and `tiles` and its invariant `Valid()`;
  - the generation, reveal, flood-fill and sweep algorithms;
  - the lemmas about them.
- `counter.dfy`, module `Counter`: the clamp into 0..999 and the split into three
  decimal digits done by `drawCounter`.
- `texture.dfy`, module `Texture`: `hasExtension`.

The guarantees proved:

- **Reset.** A reset gives `rows * cols` blank tiles, sized 9/9/20, 16/16/49 or
  30/30/199.
- **Neighbour count.** `countNeighborMines` equals the number of mines at in-bounds
  adjacent positions.
- **Generation.** Generation places exactly `max(0, min(n, cells - 9))` mines. None is
  in the safe zone. Every other tile is classified, and the clicked tile shows `' '`.
- **First click.** The first reveal can never lose.
- **Reveal.** Outcomes:
  - Revealing a flagged or open tile changes nothing.
  - Revealing a mine opens just that tile and reports GameOver.
  - Otherwise the result is Win exactly when every non-mine tile is open.
- **Flood fill.** It changes no symbol or flag, closes nothing, and opens no flagged tile.
  On a classified board it opens no mine. When it stops, every ' ' tile it opened has
  every neighbour open or flagged. It opens nothing else: every tile it opens is the
  clicked tile or is reached from it through a chain of ' ' tiles it opened. A click on
  a numbered tile opens that tile alone. Its queue never holds more entries than there
  are visited tiles, and the neighbour loop queues the fresh neighbours in direction
  order.
- **Loss sweep.** It opens the clicked tile and every unflagged mine or number, and
  leaves wrong flags and hidden blanks alone. It is idempotent.
- **Commands.** They act only while playing. An accepted click opens the clicked tile.
  The first accepted reveal starts the clock and generates the board. Later clicks
  keep every symbol. GameOver leads to Lost with the loss sweep of the board, and Win
  to Won.
- **Invariant.** All commands preserve `Valid()`. It says:
  - the board is classified;
  - no open tile is flagged;
  - while playing no mine is open;
  - a won board has every safe tile open;
  - a board without mines has nothing open;
  - a started game has a mine on the board.

The random draws of mine placement are a nondeterministic choice among the eligible
cells (not a mine, not in the safe zone), so every proved property holds for every
sequence of draws. Draws the source rejects change nothing and are not modelled.

The number of mines actually placed comes from the blank-board fallback of
`revealTileAt`:

- 81 cells give 10 mines, 256 give 40 and 480 give 99;
- any other count gets `(int)(cells * 0.15)`, written here as `cells * 15 / 100`.

The context's `totalMines` (20, 49, 199) does not take part in placement.
`PlacedOnMenuSizes` records the real counts: 10, 40 and 135.

## Model

| member | source | states |
|---|---|---|
| `Grid.RcToIndex` | src/gameState.cpp:9 | dividing the index of an in-bounds (r, c) by `cols` gives back row r, and the remainder gives column c |
| `Grid.IndexRoundTrip` | src/gameState.cpp:9 | row-major addressing is invertible: `(r * cols + c) / cols == r` and `% cols == c` for `0 <= c < cols` |
| `Grid.IndexInRange` | src/gameState.cpp:9 | an in-bounds row and column address a position inside the board |
| `Grid.RowInRange` | src/gameState.cpp:520-521 | every board index splits into an in-bounds row `i / cols` and column `i % cols` |
| `Grid.NeighborsFrom` | src/gameState.cpp:400-410 | the direction loop yields at most 8 positions, each inside the board |
| `Grid.NeighborsFromMembers` | src/gameState.cpp:400-410 | a position is listed from direction k on exactly when it is an in-bounds adjacent position whose direction index is k or later |
| `Grid.StepMember` | src/gameState.cpp:404-407 | one direction contributes j exactly when j is the in-bounds adjacent position in that direction |
| `Grid.NeighborsSpec` | src/gameState.cpp:400-410 | a position is among the neighbours of i exactly when it lies on the board and is one of the 8 positions around i |
| `Grid.NeighborsFromDistinct` | src/gameState.cpp:400-401 | no neighbour is visited twice by the eight directions |
| `Grid.CountMinesIn` | src/gameState.cpp:402-411 | the count is at most the number of positions looked at, and zero exactly when none of them is a mine |
| `Grid.CountNeighborMines` | src/gameState.cpp:399-412 | the neighbour mine count lies in 0..8 |
| `Grid.CountMinesAsSet` | src/gameState.cpp:402-411 | over a duplicate-free list, the counting loop equals the number of distinct mines in the list |
| `Grid.CountNeighborMinesSpec` | src/gameState.cpp:399-412 | countNeighborMines equals the number of mines at in-bounds adjacent positions, which is the independent reference |
| `Grid.DigitSymbol` | src/gameState.cpp:458 | the symbol written for k adjacent mines is never a mine: it is ' ' for 0 and the digit '0' + k otherwise |
| `Grid.SameMinesSameAdjacent` | src/gameState.cpp:407 | the adjacent mines depend only on where the mines are, not on other symbols, flags or reveals |
| `Grid.ClassifiedBySymbols` | src/gameState.cpp:453-462 | a classified board stays classified under any change that keeps every symbol |
| `Grid.BlankIsClassified` | src/gameState.cpp:81-93 | a reset board, all ' ', is classified |
| `Grid.BlankHasNoMineAround` | src/gameState.cpp:458 | on a classified board no neighbour of a ' ' tile is a mine |
| `Grid.NoMineAroundIsBlank` | src/gameState.cpp:457-458 | on a classified board a non-mine tile with no neighbouring mine shows ' ' |
| `Grid.FlaggedCount` | src/gameState.cpp:379-386 | the flag count never exceeds the number of tiles |
| `Grid.FlaggedCountToggle` | src/gameState.cpp:193-194 | toggling one tile's flag moves getFlaggedCount by exactly one, in the matching direction |
| `Engine.SafeZone` | src/gameState.cpp:421-434 | the safe zone has 1 to 9 entries and starts with the clicked index |
| `Engine.MinesToPlace` | src/gameState.cpp:417-419 | the placement target is the request clamped to at most cells - 9; it is 0 when either is not positive |
| `Engine.FallbackMineCount` | src/gameState.cpp:478-487 | the blank-board mine count lies between 0 and the number of cells |
| `Engine.PlacedOnMenuSizes` | src/gameState.cpp:479-487 | the three menu sizes really get 10, 40 and 135 mines |
| `Engine.FallbackPlacesMine` | src/gameState.cpp:478-487 | on a board of at least 81 cells the first reveal places at least one mine |
| `Engine.Resized` | src/gameState.cpp:82 | vector::resize keeps the common prefix and value-initialises the new tiles |
| `Engine.Sweep` | src/gameState.cpp:543-566 | the loss sweep keeps the board's length |
| `Engine.SweepEffects` | src/gameState.cpp:543-566 | tile by tile, the sweep: keeps symbols and flags; never hides a tile; opens the clicked tile, every unflagged mine and every unflagged number; leaves wrong flags and hidden ' ' tiles hidden |
| `Engine.SweepIdempotent` | src/gameState.cpp:543-566 | running the sweep twice leaves the board as running it once does |
| `Engine.EligibleExists` | src/gameState.cpp:436-451 | while fewer mines are placed than cells outside the safe zone, the rejection sampling has a cell to accept |
| `Engine.NumberOne` | src/gameState.cpp:455-459 | writing the digit of countNeighborMines into a non-mine tile classifies it against the generated mine layout and keeps that layout |
| `Engine.NumberWrite` | src/gameState.cpp:459 | a symbol that is no mine and shows the count extends the classified prefix by one tile |
| `Engine.NumberSkip` | src/gameState.cpp:456 | a mine is left untouched and the classified prefix extends past it |
| `Engine.NumberedIsClassified` | src/gameState.cpp:453-462 | once every row is numbered, the board is classified against its own mines |
| `Engine.CountTrue` | src/gameState.cpp:498 | the number of visited tiles is at most the board size |
| `Engine.CountTrueSet` | src/gameState.cpp:529 | marking an unvisited tile raises the visited count by one |
| `Engine.Fresh` | src/gameState.cpp:522-532 | the positions the neighbour loop queues are listed positions that were unvisited, at most one per listed position |
| `Engine.FreshStep` | src/gameState.cpp:528-531 | one listed position is queued exactly when it is unvisited, hidden and unflagged at its turn, and it is then marked visited |
| `Engine.PushTake` | src/gameState.cpp:528-531 | marking and queueing a fresh position keeps the neighbour loop's invariant |
| `Engine.PushSkip` | src/gameState.cpp:528 | passing over a visited, open or flagged position keeps the neighbour loop's invariant |
| `Engine.PushNeighbors` | src/gameState.cpp:522-532 | a tile becomes visited exactly when it was already visited or is a listed neighbour that is hidden and unflagged. The queue becomes the old queue followed by `Fresh`: the newly visited tiles in list order. The visited count rises by the number appended |
| `Engine.ClassifiedGuardsBlanks` | src/gameState.cpp:519-532 | on a classified board a ' ' tile has no mine among its neighbours, so the fill may open all of them |
| `Engine.FillPopFlagged` | src/gameState.cpp:505-509 | popping a flagged tile drops it and keeps the fill invariant |
| `Engine.FillPopNumber` | src/gameState.cpp:505-518 | popping and opening a tile that is not ' ' keeps the fill invariant |
| `Engine.FillPopBlank` | src/gameState.cpp:511-532 | opening a ' ' head and queueing its fresh neighbours keeps the fill invariant |
| `Engine.FillOrderGrow` | src/gameState.cpp:511 | opening more tiles without changing symbols keeps the chain of opened ' ' tiles valid |
| `Engine.FillOrderPush` | src/gameState.cpp:519-532 | appending neighbours of a listed, opened ' ' tile keeps the chain valid |
| `Engine.TrailAfterPush` | src/gameState.cpp:519-532 | after a ' ' tile queues its neighbours, every visited tile is still listed in the chain from the start tile |
| `Engine.OpenedFromNumber` | src/gameState.cpp:498-519 | if the start tile is not ' ', the start tile is the only tile a chain can open |
| `Engine.OpenedFromSameMarks` | src/gameState.cpp:478-488 | the chain depends on the start board's reveal marks only, which generation keeps |
| `Engine.FillStep` | src/gameState.cpp:504-534 | one turn of the queue loop keeps the fill invariant: the queue holds visited tiles and is never longer than the visited count; visited tiles are hidden non-mines of the start board. Either the visited count rises or the queue shrinks |
| `Engine.FloodFill` | src/gameState.cpp:496-534 | the fill changes no symbol or flag, closes nothing, opens the start tile and no flagged tile or mine. Every ' ' tile it opened ends with every neighbour open or flagged. Every tile it opens is the start tile or is reached from it through a chain of opened ' ' tiles. A start tile that is not ' ' is opened alone |
| `Engine.MinesweeperGame.constructor` | include/gameState.hpp:21-31 | a new game holds the default context (9 x 9, totalMines 10, Beginner, Playing, not started, zero times) and an empty board |
| `Engine.MinesweeperGame.SetDifficulty` | src/gameState.cpp:55-79 | sets rows, cols and totalMines to 9/9/20, 16/16/49 or 30/30/199. It resets state, latch and times, makes rows * cols blank tiles, and establishes Valid |
| `Engine.MinesweeperGame.ResetBoard` | src/gameState.cpp:81-93 | the board gets rows * cols tiles, each ' ', hidden and unflagged |
| `Engine.MinesweeperGame.GenerateGameOnFirstClick` | src/gameState.cpp:414-463 | exactly MinesToPlace(n, cells) mines are placed, none in the safe zone. Reveal and flag marks are kept, every non-mine tile is classified, and the clicked tile shows ' ' |
| `Engine.MinesweeperGame.PlaceMines` | src/gameState.cpp:436-451 | places exactly max(0, target) mines and none on a safe-zone cell, keeping reveal and flag marks. Every tile either keeps its symbol or becomes a mine |
| `Engine.MinesweeperGame.NumberTiles` | src/gameState.cpp:453-462 | the numbering pass keeps the mines, reveal and flag marks and leaves the board classified |
| `Engine.MinesweeperGame.NumberRow` | src/gameState.cpp:454-461 | one row of the numbering pass extends the classified prefix by cols tiles |
| `Engine.MinesweeperGame.RevealTileAt` | src/gameState.cpp:465-541 | a flagged or open tile gives Continue with no change. On a blank board generation runs first and the result is never GameOver. GameOver exactly when the tile is a mine, with only that tile opened. Otherwise the fill's guarantees hold relative to the old board, including the chain bound, and the result is Win exactly when every non-mine tile is open. On a board with mines, a click on a numbered tile opens that tile alone and changes nothing else |
| `Engine.MinesweeperGame.HasMine` | src/gameState.cpp:470-476 | the blank-board scan finds a mine exactly when the board holds one |
| `Engine.MinesweeperGame.AllSafeShown` | src/gameState.cpp:536-540 | the win scan succeeds exactly when every non-mine tile is revealed |
| `Engine.MinesweeperGame.ProcessGameOver` | src/gameState.cpp:543-566 | the board becomes Sweep of the old board at the clicked index; the context is unchanged |
| `Engine.MinesweeperGame.ToggleFlag` | src/gameState.cpp:190-197 | while playing, a hidden tile's flag flips and nothing else changes; otherwise nothing changes. Valid is kept |
| `Engine.MinesweeperGame.Click` | src/gameState.cpp:198-213 | only a hidden, unflagged tile in Playing is acted on, and it ends open. The first accepted reveal latches gameStarted and the start time, generates the board with the fallback mine count and a mine-free safe zone, and never loses. Once started, no symbol changes. A mine gives Lost, and the board becomes `Sweep` of the old board with the clicked tile opened. Otherwise no mine is opened, every opened ' ' tile has its neighbours open or flagged, and every opened tile is reached from the clicked one through opened ' ' tiles. Opening every safe tile gives Won. Final time is set on either end. Valid is kept |
| `Counter.Clamp` | src/gameState.cpp:344-347 | the shown value lies in 0..999: above 999 shows 999, below 0 shows 0, anything else unchanged |
| `Counter.CounterDigits` | src/gameState.cpp:348 | d1, d2 and d3 are each in 0..9, and 100 * d1 + 10 * d2 + d3 is the clamped value |
| `Counter.DigitsUnique` | src/gameState.cpp:348 | three digits spell at most one number, so the split is the decimal representation |
| `Counter.DigitsRoundTrip` | src/gameState.cpp:348 | splitting the number spelled by any three digits gives back those digits |
| `Counter.ClampIdempotent` | src/gameState.cpp:344-347 | clamping a clamped value changes nothing |
| `Texture.ToLower` | src/texture.cpp:17-18 | 'A'..'Z' map to 'a'..'z' and every other character is unchanged |
| `Texture.LowerCharTwice` | src/texture.cpp:17-18 | lowering one character twice is lowering it once |
| `Texture.Lower` | src/texture.cpp:17-18 | lowering a string keeps its length and lowers each character |
| `Texture.LowerTwice` | src/texture.cpp:17-18 | lowering a string twice is lowering it once |
| `Texture.HasExtension` | src/texture.cpp:10-21 | false when the path is shorter than the extension; otherwise true exactly when each of the path's final characters, as many as the extension has, equals the matching extension character, ignoring case |
| `Texture.EmptyExtensionMatches` | src/texture.cpp:11-20 | the empty extension matches every path |
| `Texture.SuffixOnly` | src/texture.cpp:14 | paths sharing a tail at least as long as the extension give the same answer, whatever precedes them |
| `Texture.PathCaseIgnored` | src/texture.cpp:17 | lowering the path first changes nothing |
| `Texture.ExtensionCaseIgnored` | src/texture.cpp:18 | lowering the extension first changes nothing |
| `Texture.SvgInAnyCase` | src/texture.cpp:10-21 | ".SVG" matches ".svg" and the reverse; ".png" does not match, and a path shorter than the extension does not either |

## Left out

- Rendering, OpenGL, GLFW, shaders, text rendering, texture loading (`loadTexture`) and
  every texture-handle assignment. They are presentation only. A tile keeps its symbol
  and its two marks; the x, y, w and h fields and the texture are dropped.
- Floating-point layout and hit testing (`computeTileLayout`, `isPointInsideRect`,
  `findTileIndexAt`). The commands take a tile index `0 <= idx < |tiles|`. The miss
  case (-1) is a command that is not issued.
- The clock. `glfwGetTime` becomes the `now` parameter of `Click`, used for both reads
  in one call. Seeding `srand` with the time is dropped, and `std::rand` becomes a
  nondeterministic choice of an eligible cell.
- The timer display and the remaining-mines value `totalMines - getFlaggedCount()`.
  Only the counter's clamp and digit split are modelled. The two operands are modelled
  on their own (`ctx.totalMines`, `Grid.FlaggedCount`).
- The face-button restart. Its guard cannot hold, because the previous mouse state has
  already been overwritten. Also `leftMouseHeld` and the menu, whose restart is
  `SetDifficulty`.
- `(int)(cells * 0.15)` is computed in double precision. It is modelled as
  `cells * 15 / 100`, which agrees on the board sizes the menu offers (81, 256 and
  900 cells).
- `Texture.ToLower`: `::tolower` on a negative `char` (bytes above 127) is undefined
  behaviour in C++. The model leaves every character outside 'A'..'Z' unchanged.
- `Engine.MinesweeperGame.ProcessGameOver`: its contract gives the new board as `Sweep`
  of the old one. The per-tile promises are proved about `Sweep` in `SweepEffects` and
  `SweepIdempotent`.
- `Engine.MinesweeperGame.Click`: `Valid()` asks for a board of at least 9 x 9. The
  source only ever sizes boards through `setDifficulty`, which always meets that bound.
  Commands on hand-made smaller boards are not covered. On a board of 9 cells or fewer,
  the blank-board fallback places no mine, and every click would generate again.
