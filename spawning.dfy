// What `spawn` adds after a move that changed the board, in both engines.
// The random draws become explicit choices: a count draw, free cells and
// value exponents for src/app/gameUI.tsx; a count in {1, 2} and the cell
// the rejection loop settles on for src/app/page.tsx.
module Spawning {
  import opened Seqs
  import opened Grid
  import opened Tiles

  /** `if (n > emptySpaces) n = emptySpaces`. */
  function Clamp(n: int, emptySpaces: int): int {
    if n > emptySpaces then emptySpaces else n
  }

  /** How often `for (let i = 0; i < n; i++)` runs. */
  function Rounds(n: int): nat {
    if n > 0 then n else 0
  }

  /** `Math.floor(Math.random() * size * 0.25)`: some d with d < size / 4, or 0. */
  predicate CountDraw(d: int, size: int) {
    0 <= d && (d == 0 || 4 * d < size)
  }

  /** The newer engine's tile count: one more than the draw, clamped to the cells the pre-move board left empty. */
  function SpawnCount(d: int, size: int, cellsLength: int): int {
    Clamp(d + 1, size * size - cellsLength)
  }

  /**
   * The newer engine spawns at least one tile while the pre-move board had
   * an empty cell, never more than it had, never more than ceil(size / 4),
   * and none after any move from a full board.
   */
  lemma SpawnCountBounds(d: int, size: nat, cellsLength: int)
    requires CountDraw(d, size)
    ensures Rounds(SpawnCount(d, size, cellsLength)) <= Rounds(size * size - cellsLength)
    ensures cellsLength < size * size ==> 1 <= SpawnCount(d, size, cellsLength)
    ensures cellsLength >= size * size ==> Rounds(SpawnCount(d, size, cellsLength)) == 0
    ensures size > 0 ==> 4 * (SpawnCount(d, size, cellsLength) - 1) < size
  {
  }

  /** `2 ** e`. */
  function Pow2(e: nat): nat {
    if e == 0 then 1 else 2 * Pow2(e - 1)
  }

  /** `new Cell(x, y, value)`: a fresh tile with the next id, no lineage and not a phantom. */
  function NewTile(p: Pos, value: int, id: int): Tile {
    Tile(p.x, p.y, value, id, -1, false)
  }

  /**
   * Draws a newer-engine `spawn` may make for n tiles on a board with
   * positions ps: each tile's index comes from `freeSpaces` and its
   * exponent from `[1, 2, 3]`.
   */
  predicate SpawnDraws(ps: seq<Pos>, size: nat, n: int, indices: seq<nat>, exps: seq<nat>) {
    && |indices| == |exps| == Rounds(n)
    && (forall k :: 0 <= k < |indices| ==> indices[k] in FreeSpaces(ps, size))
    && forall k :: 0 <= k < |exps| ==> 1 <= exps[k] <= 3
  }

  /** The tiles appended for those draws, the k-th on `x = index % size`, `y = Math.floor(index / size)`. */
  function SpawnTiles(indices: seq<nat>, exps: seq<nat>, size: nat, firstId: int): (r: seq<Tile>)
    requires |exps| == |indices| && (size > 0 || indices == [])
    ensures |r| == |indices|
  {
    seq(|indices|, k requires 0 <= k < |indices| => NewTile(CellAt(indices[k], size), Pow2(exps[k]), firstId + k))
  }

  /** One more draw appends one more tile, with the next id. */
  lemma SpawnTilesSnoc(indices: seq<nat>, exps: seq<nat>, size: nat, firstId: int, index: nat, e: nat)
    requires |exps| == |indices| && size > 0
    ensures SpawnTiles(indices + [index], exps + [e], size, firstId)
      == SpawnTiles(indices, exps, size, firstId) + [NewTile(CellAt(index, size), Pow2(e), firstId + |indices|)]
  {
  }

  /** A newer-engine `spawn` of tiles onto before gives after, its new tiles numbered from firstId. */
  ghost predicate Spawned(before: seq<Tile>, after: seq<Tile>, size: nat, cellsLength: int, firstId: int) {
    exists d, indices, exps ::
      && CountDraw(d, size)
      && SpawnDraws(Positions(before), size, SpawnCount(d, size, cellsLength), indices, exps)
      && (size > 0 || indices == [])
      && after == before + SpawnTiles(indices, exps, size, firstId)
  }

  /**
   * A newer-engine spawn keeps the old tiles in front and appends tiles on
   * in-grid cells no old tile holds, valued 2, 4 or 8, with consecutive
   * ids from firstId, no lineage and no phantom flag; it appends at least
   * one while the pre-move board had an empty cell, and at most as many as
   * it had empty cells and at most ceil(size / 4).
   */
  lemma SpawnedFacts(before: seq<Tile>, after: seq<Tile>, size: nat, cellsLength: int, firstId: int)
    requires Spawned(before, after, size, cellsLength, firstId)
    ensures |before| <= |after| <= |before| + Rounds(size * size - cellsLength)
    ensures cellsLength < size * size ==> |before| < |after|
    ensures size > 0 ==> 4 * (|after| - |before| - 1) < size
    ensures after[..|before|] == before
    ensures forall k :: |before| <= k < |after| ==>
      && InGrid(PosOf(after[k]), size)
      && (forall j :: 0 <= j < |before| ==> PosOf(before[j]) != PosOf(after[k]))
      && after[k].value in {2, 4, 8}
      && after[k].id == firstId + (k - |before|)
      && after[k].fusedWith == -1 && !after[k].phantom
  {
    var d, indices, exps :|
      && CountDraw(d, size)
      && SpawnDraws(Positions(before), size, SpawnCount(d, size, cellsLength), indices, exps)
      && (size > 0 || indices == [])
      && after == before + SpawnTiles(indices, exps, size, firstId);
    SpawnCountBounds(d, size, cellsLength);
    SpawnTilesAppended(before, size, indices, exps, firstId);
  }

  /** The tiles appended for draws from the free list sit on free in-grid cells, valued 2, 4 or 8, numbered from firstId. */
  lemma SpawnTilesAppended(before: seq<Tile>, size: nat, indices: seq<nat>, exps: seq<nat>, firstId: int)
    requires |exps| == |indices| && (size > 0 || indices == [])
    requires forall k :: 0 <= k < |indices| ==> indices[k] in FreeSpaces(Positions(before), size)
    requires forall k :: 0 <= k < |exps| ==> 1 <= exps[k] <= 3
    ensures var after := before + SpawnTiles(indices, exps, size, firstId);
      forall k :: |before| <= k < |after| ==>
        && InGrid(PosOf(after[k]), size)
        && (forall j :: 0 <= j < |before| ==> PosOf(before[j]) != PosOf(after[k]))
        && after[k].value in {2, 4, 8}
        && after[k].id == firstId + (k - |before|)
        && after[k].fusedWith == -1 && !after[k].phantom
  {
    var ts := SpawnTiles(indices, exps, size, firstId);
    forall k | |before| <= k < |before| + |ts|
      ensures InGrid(PosOf((before + ts)[k]), size)
      ensures forall j :: 0 <= j < |before| ==> PosOf(before[j]) != PosOf((before + ts)[k])
      ensures (before + ts)[k].value in {2, 4, 8}
      ensures (before + ts)[k].id == firstId + (k - |before|)
      ensures (before + ts)[k].fusedWith == -1 && !(before + ts)[k].phantom
    {
      var m := k - |before|;
      assert (before + ts)[k] == ts[m];
      FreeCell(Positions(before), size, indices[m]);
      assert exps[m] == 1 || exps[m] == 2 || exps[m] == 3;
    }
  }

  /**
   * `freeSpaces` is computed once per call and never shrinks, so one call
   * may put two tiles on the same cell: on an empty board of size 5 or
   * more, a count draw of 1 spawns two tiles and both may take index 0.
   */
  lemma SpawnMayStack(size: nat) returns (after: seq<Tile>)
    requires size >= 5
    ensures Spawned([], after, size, 0, 0) && |after| == 2
    ensures PosOf(after[0]) == PosOf(after[1])
  {
    assert !Occupied([], size, 0);
    assert 0 in FreeSpaces([], size);
    assert CountDraw(1, size) && SpawnCount(1, size, 0) == 2;
    assert SpawnDraws(Positions([]), size, SpawnCount(1, size, 0), [0, 0], [1, 1]);
    after := SpawnTiles([0, 0], [1, 1], size, 0);
    assert after == [] + after;
  }

  /** Where the rejection loop of page.tsx may stop: an in-grid cell no tile holds. */
  predicate Vacant(ps: seq<Pos>, size: nat, p: Pos) {
    InGrid(p, size) && p !in ps
  }

  /** Cells the legacy `spawn` may pick in turn: each vacant once the earlier picks are placed. */
  predicate PageDraws(ps: seq<Pos>, size: nat, cells: seq<Pos>) {
    forall k :: 0 <= k < |cells| ==> Vacant(ps + cells[..k], size, cells[k])
  }

  /** The legacy tiles for those picks: value 2, consecutive ids from firstId. */
  function PageTiles(cells: seq<Pos>, firstId: int): (r: seq<Tile>)
    ensures |r| == |cells| && Positions(r) == cells
  {
    seq(|cells|, k requires 0 <= k < |cells| => NewTile(cells[k], 2, firstId + k))
  }

  /** One more pick appends one more tile of value 2, with the next id. */
  lemma PageTilesSnoc(cells: seq<Pos>, firstId: int, p: Pos)
    ensures PageTiles(cells + [p], firstId) == PageTiles(cells, firstId) + [NewTile(p, 2, firstId + |cells|)]
  {
  }

  /** A pick that is vacant once the earlier picks are placed extends the picks. */
  lemma PageDrawsSnoc(ps: seq<Pos>, size: nat, cells: seq<Pos>, p: Pos)
    requires PageDraws(ps, size, cells) && Vacant(ps + cells, size, p)
    ensures PageDraws(ps, size, cells + [p])
  {
    var cs := cells + [p];
    forall k | 0 <= k < |cs| ensures Vacant(ps + cs[..k], size, cs[k]) {
      assert cs[..k] == if k < |cells| then cells[..k] else cells;
    }
  }

  /** A legacy `spawn` of 1 or 2 tiles (clamped) onto before gives after. */
  ghost predicate PageSpawned(before: seq<Tile>, after: seq<Tile>, size: nat, cellsLength: int, firstId: int) {
    exists cells ::
      && PageCount(|cells|, size, cellsLength)
      && PageDraws(Positions(before), size, cells)
      && after == before + PageTiles(cells, firstId)
  }

  /** `Math.floor(Math.random() * 2) + 1`, clamped: the legacy loop runs m times for a draw of 1 or 2. */
  predicate PageCount(m: nat, size: nat, cellsLength: int) {
    m == Rounds(Clamp(1, size * size - cellsLength)) || m == Rounds(Clamp(2, size * size - cellsLength))
  }

  /** While fewer tiles than cells are on the board, the rejection loop has a cell to stop at. */
  lemma VacantExists(ps: seq<Pos>, size: nat) returns (p: Pos)
    requires |ps| < size * size
    ensures Vacant(ps, size, p)
  {
    FreeSpacesAtLeast(ps, size);
    var f := FreeSpaces(ps, size)[0];
    FreeCell(ps, size, f);
    p := CellAt(f, size);
  }

  /** The legacy count is 1 or 2, at least 1 while the pre-move board had an empty cell, and never more than it had. */
  lemma PageCountBounds(m: nat, size: nat, cellsLength: int)
    requires PageCount(m, size, cellsLength)
    ensures m <= 2 && m <= Rounds(size * size - cellsLength)
    ensures cellsLength < size * size ==> 1 <= m
  {
    var empty := size * size - cellsLength;
    assert m == Rounds(Clamp(1, empty)) || m == Rounds(Clamp(2, empty));
  }

  /**
   * A legacy spawn keeps the old tiles in front and appends one or two
   * tiles of value 2 with consecutive ids (at least one while the
   * pre-move board had an empty cell, none when it was full); on a board
   * whose tiles sit on distinct in-grid cells the result does too.
   */
  lemma PageSpawnedFacts(before: seq<Tile>, after: seq<Tile>, size: nat, cellsLength: int, firstId: int)
    requires PageSpawned(before, after, size, cellsLength, firstId)
    ensures after[..|before|] == before
    ensures |after| - |before| <= 2 && |after| - |before| <= Rounds(size * size - cellsLength)
    ensures cellsLength < size * size ==> |before| < |after|
    ensures forall k :: |before| <= k < |after| ==> after[k].value == 2 && after[k].id == firstId + (k - |before|)
    ensures ValidPositions(Positions(before), size) ==> ValidPositions(Positions(after), size)
  {
    var cells :|
      && PageCount(|cells|, size, cellsLength)
      && PageDraws(Positions(before), size, cells)
      && after == before + PageTiles(cells, firstId);
    PageCountBounds(|cells|, size, cellsLength);
    PageTilesAppended(before, cells, firstId);
    PositionsConcat(before, PageTiles(cells, firstId));
    if ValidPositions(Positions(before), size) {
      PageDrawsValid(Positions(before), size, cells);
    }
  }

  /** The tiles the legacy spawn appends after a list all have value 2 and consecutive ids from firstId. */
  lemma PageTilesAppended(before: seq<Tile>, cells: seq<Pos>, firstId: int)
    ensures var after := before + PageTiles(cells, firstId);
      forall k :: |before| <= k < |after| ==> after[k].value == 2 && after[k].id == firstId + (k - |before|)
  {
    var news := PageTiles(cells, firstId);
    forall k | |before| <= k < |before| + |news|
      ensures (before + news)[k].value == 2 && (before + news)[k].id == firstId + (k - |before|)
    {
      assert (before + news)[k] == news[k - |before|];
    }
  }

  /** Picks that are each vacant when made keep a valid board valid. */
  lemma {:induction false} PageDrawsValid(ps: seq<Pos>, size: nat, cells: seq<Pos>)
    requires ValidPositions(ps, size) && PageDraws(ps, size, cells)
    ensures ValidPositions(ps + cells, size)
  {
    if cells != [] {
      var n := |cells| - 1;
      assert PageDraws(ps, size, cells[..n]) by {
        forall k | 0 <= k < n ensures Vacant(ps + cells[..n][..k], size, cells[..n][k]) {
          assert cells[..n][..k] == cells[..k];
        }
      }
      PageDrawsValid(ps, size, cells[..n]);
      assert ps + cells == (ps + cells[..n]) + [cells[n]];
    }
  }
}
