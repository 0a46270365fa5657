# 2048 move resolution, in Dafny

This project models how the 2048 game in this repository resolves a key
press. It covers both engines in the repository:

- **The newer component** is `src/app/gameUI.tsx`, with the `Cell` class of
  `src/app/cell.tsx`.
- **The older component** is `src/app/page.tsx`, which has its own `Cell`.

A board is a list of cells. Each cell has `x`, `y`, `value` and `id`; the
newer `Cell` also has `fusedWith` and `phantom`. A key press goes through
these steps:

1. Pick a transform (`moveVertical` or `moveHorizontal`).
2. Run it on copies of the cells.
3. Decide whether the board changed.
4. Only if it changed, `spawn` new tiles and commit the result.

The space bar of the newer component runs auto-play. It tries the four
directions in a shuffled order and stops at the first one that changes the
board.

The model follows the source's own form:

- **Cells.**
  - `Cell` is a class with mutable fields. Its `View()` is a `Tile` value,
    a snapshot of the fields.
  - The module-level `cellId` counter is an `IdCounter` object that is
    passed explicitly.
- **In-place code is written as methods.** Both `moveMerge` loops, the
  transforms, `spawn`, `doMove` and the handlers are methods.
  - The two `moveMerge` loops and the transforms change the cells they are
    given, and their `modifies` clauses say so.
  - `spawn`, `doMove` and the handlers change only the id counter. They
    move copies, so the cells they are given keep their fields.
  - `spawn` pushes its new cells onto `tempCells`, an array the key press
    has just built. The model returns the extended list instead.
  - Each method's `ensures` ties the new state to a value-level function.
  - The properties the source promises are proved as lemmas about those
    functions.
- **Reference definitions.**
  - `Pairing.Groups` is an independent reference definition of a line
    reduction: front-to-back greedy pairing of equal neighbours.
  - Both `moveMerge` loops are proved to compute it.
- **One transform for both engines.** The two components define
  `moveVertical` and `moveHorizontal` with the same text. They differ only
  in the `moveMerge` they call, so both engines share one transform. A
  `Reducer` parameter selects the `moveMerge`:
  - `KeepIncoming` is `gameUI.tsx`, where the incoming tile survives a merge.
  - `KeepAccumulator` is `page.tsx`, where the output tile survives.
- **The committed `cells` state.** The React state `cells` is a parameter.
  Each handler returns the cells it would pass to `setCells`.

Module layout:

| module | file | what it models |
|---|---|---|
| `Seqs` | seqs.dfy | generic sequence helpers |
| `Sorting` | sorting.dfy | a stable sort of index lists by key, as `sort`/`toSorted` with a numeric comparator do |
| `Grid` | grid.dfy | directions, lines, placements, free cells |
| `Pairing` | pairing.dfy | the greedy pairing |
| `Tiles` | tiles.dfy | `cell.tsx` (and the identical `Cell` of `page.tsx`) |
| `GameRules` | game_rules.dfy | the newer `moveMerge` on values |
| `PageRules` | page_rules.dfy | the older `moveMerge` on values |
| `GameUIMerge` | game_ui_merge.dfy | the newer `moveMerge` loop on cells |
| `PageMerge` | page_merge.dfy | the older `moveMerge` loop on cells |
| `Moves` | moves.dfy | the transforms on values |
| `Transforms` | transforms.dfy | the transforms in place on cells |
| `Changes` | changes.dfy | `hasChanged` and the inline change test |
| `Spawning` | spawning.dfy | what both `spawn`s may add |
| `Keys` | keys.dfy | the key switch |
| `GameUI` | game_ui.dfy | the newer `spawn`, `doMove` and `handleKey` |
| `Page` | page.dfy | the older `spawn` and `handleKey` |

## Model

| member | source | states |
|---|---|---|
| Tiles.EqualsIgnoresIdentity | src/app/cell.tsx:19-21 | `equals` holds exactly when position and value agree; changing id, fusedWith or phantom never changes its answer; the older `equals` (src/app/page.tsx:20-22) is the same test |
| Tiles.EqualsEquivalence | src/app/cell.tsx:19-21 | `equals` is reflexive, symmetric and transitive |
| Tiles.ComparingById | src/app/cell.tsx:23-25 | the comparator is negative, zero or positive exactly when a.id is less than, equal to or greater than b.id |
| Tiles.CopyFacts | src/app/cell.tsx:27-29 | a copy equals its original and keeps its id; fusedWith goes back to -1 and phantom to false; copying a copy changes nothing; the older `copy` (src/app/page.tsx:28-30) builds the same tile |
| Tiles.IdCounter.constructor | src/app/cell.tsx:1 | the id counter starts at 0 |
| Tiles.IdCounter.Take | src/app/cell.tsx:15 | `cellId++` hands out the current value and advances by one, so automatic ids strictly increase and are never reused |
| Tiles.Cell.constructor | src/app/cell.tsx:11-17 | an explicit id is kept and the counter does not move; without one, the cell takes the counter's value and the counter advances by one; fusedWith starts at -1; the older constructor (src/app/page.tsx:13-18) is the same, with lineage and phantom at their defaults |
| Tiles.Cell.Copy | src/app/cell.tsx:27-29 | `copy()` returns a new cell holding the copy of this one's tile, and the counter does not move |
| Tiles.CopyAll | src/app/gameUI.tsx:106 | `inCells.map(c => c.copy())` gives new, pairwise distinct cells, each holding the copy of its original's tile; the counter does not move |
| Sorting.SortBy | src/app/gameUI.tsx:42 | the sort returns a permutation of its input that is ordered by the key |
| Sorting.SortByStable | src/app/gameUI.tsx:42 | the sort is stable: two indices with equal keys come out in the order they went in |
| Sorting.SortByDistinct | src/app/gameUI.tsx:42 | sorting a list of distinct indices keeps them distinct and keeps the same members |
| Grid.SortKeysComparator | src/app/gameUI.tsx:42 | for any two tiles, the difference of their sort keys is the comparator `up ? a.y - b.y : b.y - a.y` (and its x form), so sorting by the key is sorting with that comparator |
| Grid.LineComparator | src/app/gameUI.tsx:63 | along a sorted line the comparator `left ? a.x - b.x : b.x - a.x` (or its y form) never puts a later tile before an earlier one |
| Grid.OnLine | src/app/gameUI.tsx:41 | `filter(cell => cell.x === i)` keeps exactly the tiles whose line coordinate is i, in list order |
| Grid.Line | src/app/gameUI.tsx:38-43 | line i holds exactly the tiles whose line coordinate is i, each once, nearest the target edge first |
| Grid.Placement | src/app/gameUI.tsx:47-73 | the k-th tile of line i gets line coordinate i and moving coordinate k, or size-1-k when moving down or right; the row version (src/app/gameUI.tsx:68-73) places tiles the same way with x and y exchanged |
| Grid.FreeSpaces | src/app/gameUI.tsx:83 | the free list holds exactly the cell indices below size*size that no tile's `x + y*size` names, ascending |
| Grid.FreeSpacesCount | src/app/gameUI.tsx:83 | on a board of distinct in-grid tiles, the free list has size*size minus the tile count entries |
| Grid.FreeSpacesAtLeast | src/app/gameUI.tsx:79-83 | whatever the positions, at least size*size minus the tile count indices are free |
| Grid.FreeCell | src/app/gameUI.tsx:83-88 | a free index names an in-grid cell, via `index % size` and `floor(index / size)`, that no tile holds |
| Grid.CellAtIndex | src/app/gameUI.tsx:87-88 | an index below size*size names an in-grid cell whose `x + y*size` is that index again |
| Grid.LinearIndexInjective | src/app/gameUI.tsx:83 | distinct in-grid cells have distinct indices |
| Grid.LineLength | src/app/gameUI.tsx:38-43 | on a valid board no line holds more tiles than the grid is wide |
| Grid.FixedMoving | src/app/gameUI.tsx:49-50 | a cell is fixed by its line and its place on the line, and is in the grid when both are in range |
| Pairing.Groups | src/app/gameUI.tsx:19-31 | the greedy pairing cuts the line into consecutive groups that pair equal neighbours, and leaves a tile single only when it is last or differs from the next one |
| Pairing.TilingUnique | src/app/gameUI.tsx:19-31 | exactly one such grouping exists, so the reduction is fully determined |
| Pairing.GroupsCount | src/app/gameUI.tsx:20-26 | the grouping has one group fewer than the line has tiles for every merge |
| Pairing.GroupValuesOnce | src/app/gameUI.tsx:20-26 | in any tiling, a group's value is one line value, or twice a value equal to its neighbour's |
| Pairing.TilingSum | src/app/gameUI.tsx:20-26 | the group values add up to the line's total |
| Pairing.TilingOrder | src/app/gameUI.tsx:17-29 | the groups come in line order, the line is empty exactly when they are, and the first group starts at the first tile |
| Pairing.PairInside | src/app/gameUI.tsx:20-26 | the absorbed tile of a pair is kept by neither engine |
| Pairing.GroupsSnoc | src/app/gameUI.tsx:19-31 | reading one more tile changes the pairing only at its end, where a trailing single pairs with the new tile or the new tile starts a group |
| GameRules.SweepIsGroups | src/app/gameUI.tsx:19-31 | after j iterations, the loop state holds the merges and survivors of the greedy pairing of the first j tiles, and `alreadyMerged` is false exactly when the last group is a single |
| GameRules.SweepResult | src/app/gameUI.tsx:15-33 | the loop's final tiles and output are Merged and Kept, both defined from the pairing |
| GameRules.MergeLineSpec | src/app/gameUI.tsx:15-33 | `moveMerge` returns one tile per group, so it is shorter by the number of merges; its k-th tile is the survivor of the k-th group |
| GameRules.MergeLineage | src/app/gameUI.tsx:20-26 | on a merge of equal values, the incoming tile survives with double the value and the absorbed id in fusedWith; the absorbed tile is doubled too, records the survivor's id and is dropped |
| GameRules.MergeOnce | src/app/gameUI.tsx:19-29 | for every line, each output tile carries one input value or twice an input value equal to its neighbour's: no tile merges twice in a pass |
| GameRules.MergeLineValues | src/app/gameUI.tsx:20-26 | the output values are the group sums, so the total value of the line is conserved |
| GameRules.KeptOrder | src/app/gameUI.tsx:17-29 | survivors keep their input order; empty input gives empty output; the first tile's group is the first one kept |
| GameRules.NoDoubleMerge | src/app/gameUI.tsx:19-29 | a merged tile never merges again in the same pass: [2,2,2] gives [4,2] and [2,2,2,2] gives [4,4] |
| GameUIMerge.MoveMerge | src/app/gameUI.tsx:15-33 | the loop leaves every cell of the line as Merged says and returns the cells Kept names, so every lemma on those functions holds of the real loop |
| GameUIMerge.Visit | src/app/gameUI.tsx:20-30 | one iteration, with either the merge branch or the push branch, carries the loop state of j tiles to that of j+1 |
| PageRules.AccSweepIsGroups | src/app/page.tsx:106-114 | after j iterations, the older loop state holds the merges and first tiles of the greedy pairing of the first j tiles |
| PageRules.AccSweepResult | src/app/page.tsx:102-116 | the older loop's final tiles and output are AccMerged and AccKept |
| PageRules.AccMergeLineSpec | src/app/page.tsx:102-116 | the older `moveMerge` returns one tile per group, and its k-th tile is the first tile of the k-th group, carrying the group's value |
| PageRules.AccMergeLineage | src/app/page.tsx:107-109 | on a merge the accumulator survives with double the value; the incoming tile is neither changed nor kept |
| PageRules.AccMergeOnce | src/app/page.tsx:105-113 | for every line, each older output tile carries one input value or twice an input value equal to its neighbour's |
| PageRules.AccMergeLineValues | src/app/page.tsx:106-114 | the older output values are the group sums, so the total is conserved |
| PageRules.AccKeptOrder | src/app/page.tsx:104-113 | survivors keep their order; empty input gives empty output; the first tile is always kept |
| PageMerge.MoveMerge | src/app/page.tsx:102-116 | the older loop leaves every cell as AccMerged says and returns the cells AccKept names |
| PageMerge.Visit | src/app/page.tsx:107-113 | one older iteration carries the loop state of j tiles to that of j+1 |
| Moves.SurvivorsOrder | src/app/gameUI.tsx:45 | for both reducers, the survivors are distinct, in line order, and one per group |
| Moves.ReduceSpec | src/app/gameUI.tsx:45 | each reduced line loses one tile per merge, carries the group sums and keeps the line's total, whichever tile the reducer keeps, so it holds for the older `columns.map(moveMerge)` (src/app/page.tsx:128) too |
| Moves.LineOf | src/app/gameUI.tsx:38-43 | line i of a move holds exactly the tiles on line i, each once |
| Moves.MovedLineFacts | src/app/gameUI.tsx:35-54 | line i contributes one tile per group, each on line i, packed against the target edge in order, carrying the group sums |
| Moves.PlaceFacts | src/app/gameUI.tsx:47-52 | step 3 keeps the values of a line and puts its k-th tile on the k-th place from the target edge |
| Moves.LinesCover | src/app/gameUI.tsx:53 | the lines of a move, flattened, are no longer than the board |
| Moves.LinesDisjoint | src/app/gameUI.tsx:38-43 | no tile is on two lines |
| Moves.MoveCount | src/app/gameUI.tsx:35-54 | a move never adds tiles, and a move that merges anywhere removes some |
| Moves.MoveValid | src/app/gameUI.tsx:35-76 | a board of distinct in-grid positions stays one after a vertical or horizontal move, in both engines (the older transforms are src/app/page.tsx:118-159) |
| Moves.MoveDistinct | src/app/gameUI.tsx:47-53 | on a valid board no two moved tiles share a cell |
| Moves.MoveInGrid | src/app/gameUI.tsx:47-53 | on a valid board every moved tile is inside the grid |
| Moves.LinesApart | src/app/gameUI.tsx:47-53 | two distinct tiles of the moved lines never share a cell |
| Transforms.MoveMerge | src/app/gameUI.tsx:45 | the component's own `moveMerge` leaves the line's cells as Reduced says and returns the survivors' cells |
| Transforms.MergeLines | src/app/gameUI.tsx:45 | `columns.map(moveMerge)` reduces every line on its own, each as if it were alone |
| Transforms.PlaceLine | src/app/gameUI.tsx:48-51 | the k-th cell of a reduced line gets the k-th place from the target edge and keeps its other fields |
| Transforms.PlaceLines | src/app/gameUI.tsx:47-52 | `forEach` places every line this way |
| Transforms.MoveLines | src/app/gameUI.tsx:44-52 | steps 2 and 3 leave each line's cells as Settled says and its kept cells as the placed reduced line |
| Transforms.Transform | src/app/gameUI.tsx:35-76 | `moveVertical`/`moveHorizontal` in place: cells on lines 0..size-1 end as Settled says, other cells are untouched, and the returned cells carry MoveResult; the older transforms (src/app/page.tsx:118-159) are the same method with the accumulator-keeping reducer |
| Transforms.MoveCopies | src/app/gameUI.tsx:106 | the move runs on new copies, so the given cells and the counter keep their state, and the result is the move of the copies |
| Changes.IdOrder | src/app/gameUI.tsx:98-99 | the id sort visits every index exactly once |
| Changes.ByIdSpec | src/app/gameUI.tsx:98-99 | sorting by id rearranges the tiles (the same multiset of tiles, so the same length) and puts the ids in order |
| Changes.ByIdValid | src/app/page.tsx:199 | sorting by id keeps a valid board valid |
| Changes.LengthChanges | src/app/gameUI.tsx:100 | lists of different lengths have changed |
| Changes.UnchangedEquivalence | src/app/gameUI.tsx:97-101 | "not changed" is reflexive, symmetric and transitive |
| Changes.CopiesUnchanged | src/app/gameUI.tsx:106-107 | copies sort like their originals and have not changed from them, in either direction |
| Changes.UnchangedBoard | src/app/gameUI.tsx:97-101 | lists that have not changed show the same value on the same cells |
| Changes.Counterpart | src/app/gameUI.tsx:100 | in unchanged lists every tile has an `equals` partner |
| Changes.CopiesMerge | src/app/gameUI.tsx:106 | copying does not change whether a move merges |
| Changes.MergeChanges | src/app/gameUI.tsx:100-107 | any move that merges is a change, with either reducer |
| Spawning.SpawnCountBounds | src/app/gameUI.tsx:79-82 | the newer count is at least 1 while the pre-move board had an empty cell, never more than it had empty, at most ceil(size/4), and 0 after any move from a full board |
| Spawning.SpawnTilesSnoc | src/app/gameUI.tsx:85-92 | one more draw appends one more tile with the next id |
| Spawning.SpawnedFacts | src/app/gameUI.tsx:78-95 | the newer spawn keeps the old tiles in front, appends at least one tile while the pre-move board had an empty cell, and at most as many as it had empty and at most ceil(size/4), each on an in-grid cell no old tile holds, valued 2, 4 or 8, with consecutive fresh ids |
| Spawning.SpawnMayStack | src/app/gameUI.tsx:83-92 | `freeSpaces` is not shrunk, so one spawn may put two tiles on the same cell |
| Spawning.VacantExists | src/app/page.tsx:170-173 | while fewer tiles than cells are placed, the rejection loop has a vacant cell to stop at |
| Spawning.PageDrawsSnoc | src/app/page.tsx:170-174 | a pick that is vacant after the earlier picks are placed extends the picks |
| Spawning.PageCountBounds | src/app/page.tsx:164-165 | the older count is 1 or 2, at least 1 while the pre-move board had an empty cell, and never more than it had empty |
| Spawning.PageDrawsValid | src/app/page.tsx:167-175 | picks that are each vacant when made keep a valid board valid, including against each other |
| Spawning.PageSpawnedFacts | src/app/page.tsx:161-177 | the older spawn keeps the old tiles in front and appends 1 or 2 tiles of value 2 with consecutive ids (none after a full board), and keeps a valid board valid |
| Keys.Selected | src/app/gameUI.tsx:123-135 | only the arrow keys select a move; up and down are vertical; up and left move toward index 0; the older switch (src/app/page.tsx:183-197) selects the same moves and returns on any other key |
| GameUI.SpawnOne | src/app/gameUI.tsx:87-92 | one round appends a new cell at `(index % size, floor(index / size))` with value 2^e and the next id |
| GameUI.SpawnRound | src/app/gameUI.tsx:86-92 | one round draws an index from the free list and an exponent from 1..3, and records both |
| GameUI.SpawnLoop | src/app/gameUI.tsx:85-93 | the loop runs n times and appends one drawn tile per round after the unchanged old cells |
| GameUI.Spawn | src/app/gameUI.tsx:78-95 | the old cells stay in front; the appended cells are new and are a spawn allowed by Spawned; the counter advances once per tile |
| GameUI.DoMove | src/app/gameUI.tsx:104-110 | the cells are not mutated; changed is `hasChanged` of the cells and their moved copies; an unchanged move returns those copies, and a changed move returns them with a spawn |
| GameUI.TryNext | src/app/gameUI.tsx:146-147 | one try either changes its board and ends with a spawn, or extends the record with an unchanged board of the same length |
| GameUI.TriedSnoc | src/app/gameUI.tsx:146-147 | a try that changes nothing extends the record of tries |
| GameUI.UnchangedFromFirst | src/app/gameUI.tsx:140-148 | when no try changed its board, no board of the record changed from the first |
| GameUI.AutoPlay | src/app/gameUI.tsx:136-151 | the cells are untouched; each try moves the previous try's result in the next shuffled direction; the first changing try ends it with a spawn, from a board unchanged from the cells; if none changes, all four directions were tried and the result has not changed |
| GameUI.HandleKey | src/app/gameUI.tsx:119-157 | an arrow commits its move with a spawn only when the move changed the board; the space bar commits auto-play's result; any other key does nothing |
| Page.InlineIsHasChanged | src/app/page.tsx:199-202 | the inline change test decides exactly as `hasChanged` of the newer component |
| Page.MoveSorted | src/app/page.tsx:199-200 | the move runs on copies of the id-sorted cells and is sorted by id again; the cells and the counter do not change, and no tile is added |
| Page.SpawnRound | src/app/page.tsx:168-174 | the rejection loop stops at a vacant in-grid cell, and a cell of value 2 with the next id is appended there |
| Page.SpawnLoop | src/app/page.tsx:167-175 | the loop appends n picked tiles after the unchanged old cells |
| Page.Spawn | src/app/page.tsx:161-177 | the old cells stay in front, unchanged; the appended cells are a spawn allowed by PageSpawned; the counter advances once per tile |
| Page.HandleKey | src/app/page.tsx:179-209 | a repeated key or a non-arrow key changes nothing; an arrow commits the id-sorted move with a spawn only when it changed the board |
| Page.PageStepValid | src/app/page.tsx:199-207 | a committed key press keeps a board of distinct in-grid tiles valid |

## Left out

- Randomness.
  - `Math.random` is never called. Every draw is a nondeterministic choice the proofs must accept whatever it is:
    - the newer count draw, as any d with 4d < size;
    - the free index;
    - the value exponent, from 1 to 3;
    - the older count, 1 or 2;
    - the cell the rejection loop stops at, as any vacant cell.
  - The float arithmetic and `Math.round` around these draws are not modelled.
- `shuffle` (src/app/gameUI.tsx:112-117) is not modelled. Its result is the `order` parameter: any permutation of the four directions.
- The rejection loop of the older `spawn` terminates only with probability 1. The model takes the vacant cell it stops at, and proves that such a cell exists.
- React, state and rendering.
  - Hooks, `setCells` and keyboard plumbing are not modelled. Each handler returns the cells it would commit.
  - `event.repeat` is a parameter of the older handler.
  - `console.log` and `return false` are not modelled.
  - The rendering files are not part of this model: src/app/visualCell.tsx, src/app/visualCells.tsx, src/app/layout.tsx and src/app/positionTemplate.tsx.
- `gameLevel` (src/app/gameUI.tsx:90) is not modelled. Nothing reads it, and it is float `Math.log2`.
- The outer `for (let i = 0; i < 1; i++)` of auto-play runs once, so it is not modelled as a loop.
- Numbers are unbounded integers. JavaScript doubles lose precision only beyond 2^53, far past any tile value or id a game reaches.
- Both engines share one `Cell` class. `page.tsx`'s `Cell` has no `fusedWith` or `phantom`. The older code never sets them, so they stay at their defaults there.
- GameUI.HandleKey: states the space-bar outcome only as "unchanged, or a changing move with its spawn from some board unchanged from the cells". The try-by-try record, with the shuffled order, is stated by GameUI.AutoPlay.
- Both engines, in the transforms: `sort` is modelled as a stable sort, as `Array.prototype.sort` is required to be. It runs on distinct positions of a valid board, so stability matters only for boards that are already invalid.
- Page.Spawn: does not state that the appended cells are newly allocated objects (GameUI.Spawn does). The older spawn creates them with `new Cell`, just as the newer one does.
