// The key handler and `spawn` of the older component in src/app/page.tsx,
// on Cell objects. Its moves are the shared transforms with the
// accumulator-keeping `moveMerge`; it sorts the committed cells by id before
// moving copies of them, compares the moved tiles with that sorted list
// inline, and spawns one or two tiles of value 2 on cells found by
// rejection. The committed `cells` state is a parameter and the handler
// returns the cells it would commit.
module Page {
  import opened Seqs
  import opened Grid
  import opened Tiles
  import opened Moves
  import opened Transforms
  import opened Changes
  import opened Spawning
  import opened Keys

  /** The tiles the legacy transform returns for the move in direction d: it moves copies of the id-sorted cells. */
  function PageMoved(ts: seq<Tile>, size: nat, d: Dir): seq<Tile> {
    MoveResult(KeepAccumulator, Copies(ById(ts)), size, d)
  }

  /**
   * The inline test of the legacy handler: the moved list's length differs
   * from the committed board's, or some moved tile is not `equals` to the
   * tile at its index in the id-sorted committed list.
   */
  predicate InlineChanged(cellsLength: int, sortedOriginal: seq<Tile>, temp: seq<Tile>) {
    |temp| != cellsLength || exists i :: 0 <= i < |temp| && i < |sortedOriginal| && !Equals(temp[i], sortedOriginal[i])
  }

  /** The inline test is `hasChanged` of the newer component: both engines decide "changed" the same way. */
  lemma InlineIsHasChanged(before: seq<Tile>, after: seq<Tile>)
    ensures InlineChanged(|before|, ById(before), ById(after)) == HasChanged(before, after)
  {
    ByIdSpec(before);
    ByIdSpec(after);
  }

  /**
   * Unlike the newer engine, a legacy key press keeps the board valid: if
   * the committed tiles sit on distinct cells of the grid, so do the tiles
   * it commits after the move and the spawn.
   */
  lemma PageStepValid(ts: seq<Tile>, size: nat, d: Dir, after: seq<Tile>, firstId: int)
    requires ValidPositions(Positions(ts), size)
    requires PageSpawned(ById(PageMoved(ts, size, d)), after, size, |ts|, firstId)
    ensures ValidPositions(Positions(after), size)
  {
    ByIdValid(ts, size);
    assert Positions(Copies(ById(ts))) == Positions(ById(ts));
    MoveValid(KeepAccumulator, Copies(ById(ts)), size, d);
    ByIdValid(PageMoved(ts, size, d), size);
    PageSpawnedFacts(ById(PageMoved(ts, size, d)), after, size, |ts|, firstId);
  }

  /**
   * `handleKey(event)`: a repeated key and any key but an arrow do nothing;
   * an arrow key moves copies of the id-sorted cells, sorts the result by
   * id, and only if it changed the board spawns onto it and commits it.
   */
  method HandleKey(key: Key, repeat: bool, cells: seq<Cell>, size: nat, counter: IdCounter) returns (next: seq<Cell>)
    modifies counter
    ensures Views(cells) == old(Views(cells))
    ensures repeat || Selected(key).None? ==> next == cells && counter.next == old(counter.next)
    ensures !repeat && Selected(key).Some? ==>
      var moved := PageMoved(old(Views(cells)), size, Selected(key).value);
      && (!HasChanged(old(Views(cells)), moved) ==> next == cells && counter.next == old(counter.next))
      && (HasChanged(old(Views(cells)), moved) ==> PageSpawned(ById(moved), Views(next), size, |cells|, old(counter.next)))
  {
    if repeat {
      return cells;
    }
    match Selected(key)
    case None =>
      next := cells;
    case Some(d) =>
      var sortedOriginal, tempCells := MoveSorted(cells, size, d, counter);
      var changed := InlineChanged(|cells|, Views(sortedOriginal), Views(tempCells));
      InlineIsHasChanged(old(Views(cells)), PageMoved(old(Views(cells)), size, d));
      if changed {
        next := Spawn(tempCells, size, |cells|, counter);
      } else {
        next := cells;
      }
  }

  /**
   * `cells.toSorted(Cell.comparingById)`, then `moveFun` on copies of that
   * list and `toSorted(Cell.comparingById)` of what it returns: neither the
   * cells nor the counter change, and no tile is added.
   */
  method MoveSorted(cells: seq<Cell>, size: nat, d: Dir, counter: IdCounter)
    returns (sortedOriginal: seq<Cell>, tempCells: seq<Cell>)
    modifies counter
    ensures Views(cells) == old(Views(cells)) && counter.next == old(counter.next)
    ensures Views(sortedOriginal) == ById(old(Views(cells)))
    ensures Views(tempCells) == ById(PageMoved(old(Views(cells)), size, d)) && |tempCells| <= |cells|
  {
    ghost var ts := Views(cells);
    sortedOriginal := Pick(cells, IdOrder(Views(cells)));
    ViewsPick(cells, IdOrder(ts));
    var moved := MoveCopies(KeepAccumulator, sortedOriginal, size, d, counter);
    MoveCount(KeepAccumulator, Copies(ById(ts)), size, d);
    tempCells := Pick(moved, IdOrder(Views(moved)));
    ViewsPick(moved, IdOrder(Views(moved)));
  }

  /**
   * `spawn(tempCells)`: draws 1 or 2, clamps it to the cells the committed
   * board (of cellsLength tiles) left empty, and appends that many cells of
   * value 2, each on a cell the rejection loop finds empty once the earlier
   * ones are placed, numbered by the counter.
   */
  method Spawn(tempCells: seq<Cell>, size: nat, cellsLength: int, counter: IdCounter) returns (r: seq<Cell>)
    requires |tempCells| <= cellsLength
    modifies counter
    ensures |tempCells| <= |r| && r[..|tempCells|] == tempCells
    ensures PageSpawned(old(Views(tempCells)), Views(r), size, cellsLength, old(counter.next))
    ensures counter.next == old(counter.next) + (|r| - |tempCells|)
  {
    var emptySpaces := size * size - cellsLength;
    var n :| 1 <= n <= 2;
    if n > emptySpaces {
      n := emptySpaces;
    }
    ghost var picks;
    r, picks := SpawnLoop(tempCells, n, size, counter);
    assert PageCount(|picks|, size, cellsLength);
  }

  /** `for (let i = 0; i < n; i++)` of the legacy `spawn`. */
  method SpawnLoop(tempCells: seq<Cell>, n: int, size: nat, counter: IdCounter)
    returns (r: seq<Cell>, ghost picks: seq<Pos>)
    requires |tempCells| + n <= size * size
    modifies counter
    ensures |picks| == Rounds(n) && |r| == |tempCells| + |picks| && r[..|tempCells|] == tempCells
    ensures PickedSoFar(r, old(Views(tempCells)), picks, size, old(counter.next))
    ensures counter.next == old(counter.next) + |picks|
  {
    ghost var before := Views(tempCells);
    ghost var firstId := counter.next;
    picks := [];
    r := tempCells;
    var i := 0;
    while i < n
      invariant 0 <= i <= Rounds(n) && |picks| == i && counter.next == firstId + i
      invariant |r| == |tempCells| + i && r[..|tempCells|] == tempCells
      invariant PickedSoFar(r, before, picks, size, firstId)
    {
      r, picks := SpawnRound(r, before, picks, size, firstId, counter);
      i := i + 1;
    }
  }

  /** The legacy `spawn` loop after the picks so far: their tiles appended to the tiles before. */
  ghost predicate PickedSoFar(r: seq<Cell>, before: seq<Tile>, picks: seq<Pos>, size: nat, firstId: int)
    reads r
  {
    && PageDraws(Positions(before), size, picks)
    && Views(r) == before + PageTiles(picks, firstId)
  }

  /**
   * One round of the legacy `spawn` loop: the rejection loop stops at an
   * in-grid cell no cell of the list holds, and a cell of value 2 is
   * appended there.
   */
  method SpawnRound(r: seq<Cell>, ghost before: seq<Tile>, ghost picks: seq<Pos>, size: nat, ghost firstId: int,
                    counter: IdCounter)
    returns (r': seq<Cell>, ghost picks': seq<Pos>)
    requires |r| < size * size
    requires PickedSoFar(r, before, picks, size, firstId) && counter.next == firstId + |picks|
    modifies counter
    ensures |r'| == |r| + 1 && r'[..|r|] == r && fresh(r'[|r|])
    ensures picks' == picks + [PosOf(r'[|r|].View())]
    ensures PickedSoFar(r', before, picks', size, firstId)
    ensures counter.next == old(counter.next) + 1
  {
    ghost var ps := Positions(Views(r));
    PositionsConcat(before, PageTiles(picks, firstId));
    assert ps == Positions(before) + picks;
    ghost var p := VacantExists(ps, size);
    var x, y :| 0 <= x < size && 0 <= y < size && Pos(x, y) !in Positions(Views(r));
    var cell := new Cell(x, y, 2, None, false, counter);
    r' := r + [cell];
    ViewsConcat(r, [cell]);
    picks' := picks + [Pos(x, y)];
    PageTilesSnoc(picks, firstId, Pos(x, y));
    PageDrawsSnoc(Positions(before), size, picks, Pos(x, y));
    assert before + (PageTiles(picks, firstId) + [NewTile(Pos(x, y), 2, firstId + |picks|)])
        == (before + PageTiles(picks, firstId)) + [NewTile(Pos(x, y), 2, firstId + |picks|)];
  }
}
