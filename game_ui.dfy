// src/app/gameUI.tsx around its transforms: `spawn`, `doMove`, and the key
// handler with its auto-play branch, on Cell objects. The component's
// committed `cells` state is a parameter and the handler returns the cells
// it would commit; `Math.random` becomes a choice the verifier must accept
// whatever it is.
module GameUI {
  import opened Seqs
  import opened Grid
  import opened Tiles
  import opened Moves
  import opened Transforms
  import opened Changes
  import opened Spawning
  import opened Keys

  /**
   * `spawn(tempCells)`: draws a count, clamps it to the cells the committed
   * board (of cellsLength tiles) left empty, and appends that many new
   * cells, each on an index drawn from the free indices of tempCells and
   * valued 2, 4 or 8, numbered by the counter. tempCells is never shorter
   * than the committed board in the callers, which is what keeps a free
   * index available for every draw.
   */
  method Spawn(tempCells: seq<Cell>, size: nat, cellsLength: int, counter: IdCounter) returns (r: seq<Cell>)
    requires |tempCells| <= cellsLength
    modifies counter
    ensures |tempCells| <= |r| && r[..|tempCells|] == tempCells
    ensures forall k :: |tempCells| <= k < |r| ==> fresh(r[k])
    ensures Spawned(old(Views(tempCells)), Views(r), size, cellsLength, old(counter.next))
    ensures counter.next == old(counter.next) + (|r| - |tempCells|)
  {
    ghost var before := Views(tempCells);
    ghost var firstId := counter.next;
    var emptySpaces := size * size - cellsLength;
    var d :| 0 <= d <= size && CountDraw(d, size);
    var n := d + 1;
    if n > emptySpaces {
      n := emptySpaces;
    }
    assert n == SpawnCount(d, size, cellsLength);
    var free := FreeSpaces(Positions(Views(tempCells)), size);
    FreeSpacesAtLeast(Positions(before), size);
    assert |free| >= n;
    if n > 0 {
      assert free[0] in free;
    }
    ghost var indices, exps;
    r, indices, exps := SpawnLoop(tempCells, free, n, size, counter);
    assert SpawnDraws(Positions(before), size, SpawnCount(d, size, cellsLength), indices, exps);
  }

  /** `for (let i = 0; i < n; i++)` of `spawn`, drawing each index from free. */
  method SpawnLoop(tempCells: seq<Cell>, free: seq<nat>, n: int, size: nat, counter: IdCounter)
    returns (r: seq<Cell>, ghost indices: seq<nat>, ghost exps: seq<nat>)
    requires n <= |free| && (n > 0 ==> size > 0)
    modifies counter
    ensures |indices| == Rounds(n) && |r| == |tempCells| + |indices| && r[..|tempCells|] == tempCells
    ensures forall k :: |tempCells| <= k < |r| ==> fresh(r[k])
    ensures SpawnedSoFar(r, old(Views(tempCells)), free, indices, exps, size, old(counter.next))
    ensures counter.next == old(counter.next) + |indices|
  {
    ghost var before := Views(tempCells);
    ghost var firstId := counter.next;
    indices, exps := [], [];
    r := tempCells;
    var i := 0;
    while i < n
      invariant 0 <= i <= Rounds(n) && |indices| == i && counter.next == firstId + i
      invariant |r| == |tempCells| + i && r[..|tempCells|] == tempCells
      invariant forall k :: |tempCells| <= k < |r| ==> fresh(r[k])
      invariant SpawnedSoFar(r, before, free, indices, exps, size, firstId)
    {
      r, indices, exps := SpawnRound(r, before, free, indices, exps, size, firstId, counter);
      i := i + 1;
    }
  }

  /** The `spawn` loop after the draws indices and exps: their tiles appended to the tiles before. */
  ghost predicate SpawnedSoFar(r: seq<Cell>, before: seq<Tile>, free: seq<nat>, indices: seq<nat>, exps: seq<nat>,
                               size: nat, firstId: int)
    reads r
  {
    && |indices| == |exps|
    && (forall k :: 0 <= k < |indices| ==> indices[k] in free)
    && (forall k :: 0 <= k < |exps| ==> 1 <= exps[k] <= 3)
    && (size > 0 || indices == [])
    && Views(r) == before + SpawnTiles(indices, exps, size, firstId)
  }

  /** One round of the `spawn` loop: an index drawn from the free ones, an exponent from 1 to 3, a new cell. */
  method SpawnRound(r: seq<Cell>, ghost before: seq<Tile>, free: seq<nat>, ghost indices: seq<nat>, ghost exps: seq<nat>,
                    size: nat, ghost firstId: int, counter: IdCounter)
    returns (r': seq<Cell>, ghost indices': seq<nat>, ghost exps': seq<nat>)
    requires free != [] && size > 0
    requires SpawnedSoFar(r, before, free, indices, exps, size, firstId) && counter.next == firstId + |indices|
    modifies counter
    ensures |r'| == |r| + 1 && r'[..|r|] == r && fresh(r'[|r|])
    ensures |indices'| == |indices| + 1
    ensures SpawnedSoFar(r', before, free, indices', exps', size, firstId)
    ensures counter.next == old(counter.next) + 1
  {
    var pick :| 0 <= pick < |free|;
    var index := free[pick];
    var e :| 1 <= e <= 3;
    SpawnTilesSnoc(indices, exps, size, firstId, index, e);
    ghost var ts := SpawnTiles(indices, exps, size, firstId);
    ghost var nt := NewTile(CellAt(index, size), Pow2(e), counter.next);
    r' := SpawnOne(r, index, e, size, counter);
    indices', exps' := indices + [index], exps + [e];
    assert before + (ts + [nt]) == (before + ts) + [nt];
  }

  /** One round of the `spawn` loop: `new Cell(x, y, value)` on the cell of index, appended. */
  method SpawnOne(r: seq<Cell>, index: nat, e: nat, size: nat, counter: IdCounter) returns (r': seq<Cell>)
    requires size > 0
    modifies counter
    ensures |r'| == |r| + 1 && r'[..|r|] == r && fresh(r'[|r|])
    ensures Views(r') == old(Views(r)) + [NewTile(CellAt(index, size), Pow2(e), old(counter.next))]
    ensures counter.next == old(counter.next) + 1
  {
    var x, y := index % size, index / size;
    var cell := new Cell(x, y, Pow2(e), None, false, counter);
    r' := r + [cell];
    ViewsConcat(r, [cell]);
  }

  /** The tiles `moveFun(inCells.map(c => c.copy()))` returns for the move in direction d from the tiles ts. */
  function Moved(ts: seq<Tile>, size: nat, d: Dir): seq<Tile> {
    MoveResult(KeepIncoming, Copies(ts), size, d)
  }

  /**
   * `doMove(moveFun, inCells)`: the move in direction d on copies of the
   * cells, the change test against the cells, and a spawn only when the
   * move changed something. The cells themselves are left as they were.
   */
  method DoMove(d: Dir, inCells: seq<Cell>, size: nat, cellsLength: int, counter: IdCounter)
    returns (changed: bool, r: seq<Cell>)
    requires |inCells| <= cellsLength
    modifies counter
    ensures Views(inCells) == old(Views(inCells))
    ensures var moved := Moved(old(Views(inCells)), size, d);
      && changed == HasChanged(old(Views(inCells)), moved)
      && (!changed ==> Views(r) == moved && counter.next == old(counter.next))
      && (changed ==> Spawned(moved, Views(r), size, cellsLength, old(counter.next)))
  {
    ghost var before := Views(inCells);
    var tempCells := MoveCopies(KeepIncoming, inCells, size, d, counter);
    MoveCount(KeepIncoming, Copies(before), size, d);
    changed := HasChanged(Views(inCells), Views(tempCells));
    if changed {
      r := Spawn(tempCells, size, cellsLength, counter);
      assert Views(inCells) == before;
    } else {
      r := tempCells;
    }
  }

  /**
   * The space-bar branch of `handleKey`: tries the four directions in the
   * shuffled order, each on the cells the previous try left, and stops at
   * the first that changes the board. boards records the tiles each try
   * started from. Either some try changed its board, which is unchanged
   * from the cells, and r is that move with its spawn; or none did, every
   * direction was tried, and r has not changed from the cells.
   */
  method AutoPlay(cells: seq<Cell>, size: nat, order: seq<Dir>, counter: IdCounter)
    returns (changed: bool, r: seq<Cell>, ghost boards: seq<seq<Tile>>)
    requires multiset(order) == multiset{Up, Down, Left, Right}
    modifies counter
    ensures Views(cells) == old(Views(cells))
    ensures Tried(boards, order, size) && boards[0] == old(Views(cells))
    ensures forall j :: 0 <= j < |boards| ==> !HasChanged(boards[0], boards[j])
    ensures changed ==> |boards| <= |order|
    ensures changed ==> var k := |boards| - 1; var moved := Moved(boards[k], size, order[k]);
      HasChanged(boards[k], moved) && Spawned(moved, Views(r), size, |cells|, old(counter.next))
    ensures !changed ==> |boards| == |order| + 1 && Views(r) == boards[|order|]
    ensures !changed ==> Up in order && Down in order && Left in order && Right in order
  {
    var tempCells := cells;
    changed := false;
    boards := [Views(cells)];
    var i := 0;
    while i < |order|
      invariant 0 <= i <= |order| && |boards| == i + 1 && boards[0] == old(Views(cells))
      invariant Views(cells) == old(Views(cells)) && Views(tempCells) == boards[i]
      invariant |boards[i]| == |cells| && Tried(boards, order, size)
      invariant counter.next == old(counter.next) && !changed
    {
      changed, tempCells, boards := TryNext(order, i, size, |cells|, tempCells, boards, counter);
      if changed {
        break;
      }
      i := i + 1;
    }
    r := tempCells;
    UnchangedFromFirst(boards);
    assert Up in multiset(order) && Down in multiset(order) && Left in multiset(order) && Right in multiset(order);
  }

  /**
   * One try of auto-play: the move in the next direction of order on the
   * cells the last try left. A try that changes nothing is added to the
   * record; one that changes the board ends auto-play with its spawn.
   */
  method TryNext(order: seq<Dir>, i: nat, size: nat, cellsLength: int, tempCells: seq<Cell>,
                 ghost boards: seq<seq<Tile>>, counter: IdCounter)
    returns (changed: bool, r: seq<Cell>, ghost boards': seq<seq<Tile>>)
    requires Tried(boards, order, size) && |boards| == i + 1 <= |order|
    requires Views(tempCells) == boards[i] && |boards[i]| <= cellsLength
    modifies counter
    ensures var moved := Moved(boards[i], size, order[i]);
      && (changed ==> boards' == boards && HasChanged(boards[i], moved)
                      && Spawned(moved, Views(r), size, cellsLength, old(counter.next)))
      && (!changed ==> boards' == boards + [Views(r)] && |Views(r)| == |boards[i]|
                       && counter.next == old(counter.next))
    ensures Tried(boards', order, size)
  {
    changed, r := DoMove(order[i], tempCells, size, cellsLength, counter);
    if changed {
      boards' := boards;
    } else {
      LengthChanges(boards[i], Views(r));
      TriedSnoc(boards, order, size, Views(r));
      boards' := boards + [Views(r)];
    }
  }

  /**
   * Auto-play's record of tries: each board is the move of the one before
   * in the next direction of order, and that move did not change it.
   */
  ghost predicate Tried(boards: seq<seq<Tile>>, order: seq<Dir>, size: nat) {
    && 1 <= |boards| <= |order| + 1
    && Steady(boards)
    && Steps(boards, order, Mover(size))
  }

  /** No board of the record has changed from the one before. */
  predicate Steady(boards: seq<seq<Tile>>) {
    forall j :: 0 <= j < |boards| - 1 ==> !HasChanged(boards[j], boards[j + 1])
  }

  /** The move on a board of the given size, as a function of the board and the direction. */
  function Mover(size: nat): (seq<Tile>, Dir) -> seq<Tile> {
    (b, d) => Moved(b, size, d)
  }

  /** A try that changes nothing extends the record. */
  lemma TriedSnoc(boards: seq<seq<Tile>>, order: seq<Dir>, size: nat, next: seq<Tile>)
    requires Tried(boards, order, size) && |boards| <= |order|
    requires next == Moved(boards[|boards| - 1], size, order[|boards| - 1])
    requires !HasChanged(boards[|boards| - 1], next)
    ensures Tried(boards + [next], order, size)
  {
    SteadySnoc(boards, next);
    StepsSnoc(boards, order, Mover(size), next);
  }

  /** A board that has not changed from the last one extends a steady record. */
  lemma SteadySnoc(boards: seq<seq<Tile>>, next: seq<Tile>)
    requires |boards| >= 1 && Steady(boards) && !HasChanged(boards[|boards| - 1], next)
    ensures Steady(boards + [next])
  {
    var bs := boards + [next];
    forall j | 0 <= j < |bs| - 1 ensures !HasChanged(bs[j], bs[j + 1]) {
      if j < |boards| - 1 {
        assert bs[j] == boards[j] && bs[j + 1] == boards[j + 1];
      } else {
        assert bs[j] == boards[j] && bs[j + 1] == next;
      }
    }
  }

  /** Since "not changed" is an equivalence, no board of a steady record has changed from the first. */
  lemma {:induction false} UnchangedFromFirst(boards: seq<seq<Tile>>)
    requires |boards| >= 1 && Steady(boards)
    ensures forall j :: 0 <= j < |boards| ==> !HasChanged(boards[0], boards[j])
  {
    var n := |boards| - 1;
    UnchangedEquivalence(boards[0], boards[0], boards[0]);
    if n > 0 {
      var front := boards[..n];
      assert Steady(front) by {
        forall j | 0 <= j < |front| - 1 ensures !HasChanged(front[j], front[j + 1]) {
          assert front[j] == boards[j] && front[j + 1] == boards[j + 1];
        }
      }
      UnchangedFromFirst(front);
      assert !HasChanged(boards[0], boards[n - 1]) by {
        assert front[0] == boards[0] && front[n - 1] == boards[n - 1];
      }
      UnchangedEquivalence(boards[0], boards[n - 1], boards[n]);
      forall j | 0 <= j < n ensures !HasChanged(boards[0], boards[j]) {
        assert front[j] == boards[j];
      }
    }
  }

  /**
   * `handleKey`: an arrow key makes its move with `doMove` and commits the
   * result only if it changed the board; the space bar commits whatever
   * auto-play ends with; any other key does nothing. The result is the
   * cells the handler commits with `setCells`, the cells themselves when it
   * commits nothing.
   */
  method HandleKey(key: Key, cells: seq<Cell>, size: nat, order: seq<Dir>, counter: IdCounter) returns (next: seq<Cell>)
    requires multiset(order) == multiset{Up, Down, Left, Right}
    modifies counter
    ensures Views(cells) == old(Views(cells))
    ensures key == Other ==> next == cells && counter.next == old(counter.next)
    ensures Selected(key).Some? ==>
      var moved := Moved(old(Views(cells)), size, Selected(key).value);
      && (!HasChanged(old(Views(cells)), moved) ==> next == cells && counter.next == old(counter.next))
      && (HasChanged(old(Views(cells)), moved) ==> Spawned(moved, Views(next), size, |cells|, old(counter.next)))
    ensures key == Space ==>
      || !HasChanged(old(Views(cells)), Views(next))
      || exists b, d :: !HasChanged(old(Views(cells)), b) && HasChanged(b, Moved(b, size, d))
           && Spawned(Moved(b, size, d), Views(next), size, |cells|, old(counter.next))
  {
    match Selected(key)
    case Some(d) =>
      var changed, tempCells := DoMove(d, cells, size, |cells|, counter);
      next := if changed then tempCells else cells;
    case None =>
      if key == Space {
        var changed, tempCells, boards := AutoPlay(cells, size, order, counter);
        next := tempCells;
        if changed {
          var k := |boards| - 1;
          assert !HasChanged(old(Views(cells)), boards[k]);
        } else {
          assert !HasChanged(old(Views(cells)), boards[|order|]);
        }
      } else {
        next := cells;
      }
  }
}
