// `moveVertical` and `moveHorizontal`, working in place on Cell objects as
// both components do: src/app/gameUI.tsx and src/app/page.tsx define them
// with the same text and differ only in the `moveMerge` they call, named by
// the Reducer parameter. Each method is proved against the value-level
// definitions of module Moves.
module Transforms {
  import opened Seqs
  import opened Pairing
  import opened Grid
  import opened Tiles
  import opened Moves
  import GameUIMerge
  import PageMerge

  /** Every cell of every line. */
  ghost function Members(lines: seq<seq<Cell>>): (r: set<Cell>)
    ensures forall l, c :: 0 <= l < |lines| && c in lines[l] ==> c in r
    ensures forall c :: c in r ==> exists l :: 0 <= l < |lines| && c in lines[l]
  {
    set l, c | 0 <= l < |lines| && c in lines[l] :: c
  }

  /** The tiles of every line. */
  ghost function Snapshot(lines: seq<seq<Cell>>): (r: seq<seq<Tile>>)
    reads Members(lines)
    ensures |r| == |lines| && forall l :: 0 <= l < |lines| ==> r[l] == Views(lines[l])
  {
    seq(|lines|, l requires 0 <= l < |lines| reads Members(lines) => Views(lines[l]))
  }

  /** The state of `columns.map(moveMerge)` after its first l lines, the lines having held the tiles before. */
  ghost predicate MergedUpTo(red: Reducer, lines: seq<seq<Cell>>, before: seq<seq<Tile>>, kept: seq<seq<Cell>>, l: nat)
    requires |before| == |lines|
    reads Members(lines)
  {
    && l <= |lines| && |kept| == l
    && (forall m :: 0 <= m < l ==>
         Views(lines[m]) == Reduced(red, before[m]) && kept[m] == Pick(lines[m], Survivors(red, before[m])))
    && forall m :: l <= m < |lines| ==> Views(lines[m]) == before[m]
  }

  /** `columns.map(moveMerge)`: every line is reduced on its own. */
  method MergeLines(red: Reducer, lines: seq<seq<Cell>>) returns (kept: seq<seq<Cell>>)
    requires Separate(lines)
    modifies Members(lines)
    ensures MergedUpTo(red, lines, old(Snapshot(lines)), kept, |lines|)
  {
    ghost var before := Snapshot(lines);
    kept := [];
    for l := 0 to |lines|
      invariant MergedUpTo(red, lines, before, kept, l)
    {
      kept := MergeNext(red, lines, before, kept, l);
    }
  }

  /** One call of `moveMerge` inside `columns.map(moveMerge)`. */
  method MergeNext(red: Reducer, lines: seq<seq<Cell>>, ghost before: seq<seq<Tile>>, kept: seq<seq<Cell>>, l: nat)
    returns (kept': seq<seq<Cell>>)
    requires Separate(lines) && l < |lines| == |before|
    requires MergedUpTo(red, lines, before, kept, l)
    modifies Members(lines)
    ensures MergedUpTo(red, lines, before, kept', l + 1)
  {
    assert Distinct(lines[l]);
    ghost var pre := Snapshot(lines);
    var out := MoveMerge(red, lines[l]);
    kept' := kept + [out];
    forall m | 0 <= m < |lines| && m != l ensures Views(lines[m]) == pre[m] {
      forall k | 0 <= k < |lines[m]| ensures lines[m][k].View() == pre[m][k] {
        assert lines[m][k] !in lines[l];
      }
    }
  }

  /** The component's own `moveMerge` on one line. */
  method MoveMerge(red: Reducer, line: seq<Cell>) returns (out: seq<Cell>)
    requires Distinct(line)
    modifies line
    ensures Views(line) == Reduced(red, old(Views(line)))
    ensures out == Pick(line, Survivors(red, old(Views(line))))
  {
    if red == KeepIncoming {
      out := GameUIMerge.MoveMerge(line);
    } else {
      out := PageMerge.MoveMerge(line);
    }
  }

  /**
   * Step 3 on line i: the k-th cell of the reduced line gets the k-th place
   * from the target edge (`cell.y = up ? y : size - 1 - y; cell.x = x` for
   * columns, the same with x and y exchanged for rows).
   */
  method PlaceLine(line: seq<Cell>, size: int, d: Dir, i: int)
    requires Distinct(line)
    modifies line
    ensures forall k :: 0 <= k < |line| ==> line[k].View() == At(old(line[k].View()), Placement(size, d, i, k))
  {
    for k := 0 to |line|
      invariant forall m :: 0 <= m < k ==> line[m].View() == At(old(line[m].View()), Placement(size, d, i, m))
      invariant forall m :: k <= m < |line| ==> line[m].View() == old(line[m].View())
    {
      var place := if TowardZero(d) then k else size - 1 - k;
      if Vertical(d) {
        line[k].y := place;
        line[k].x := i;
      } else {
        line[k].x := place;
        line[k].y := i;
      }
    }
  }

  /** `columns.forEach(...)`: step 3 on every line. */
  method PlaceLines(lines: seq<seq<Cell>>, size: int, d: Dir)
    requires Separate(lines)
    modifies Members(lines)
    ensures forall l, k :: 0 <= l < |lines| && 0 <= k < |lines[l]| ==>
      lines[l][k].View() == At(old(lines[l][k].View()), Placement(size, d, l, k))
  {
    for l := 0 to |lines|
      invariant forall m, k :: 0 <= m < l && 0 <= k < |lines[m]| ==>
        lines[m][k].View() == At(old(lines[m][k].View()), Placement(size, d, m, k))
      invariant forall m, k :: l <= m < |lines| && 0 <= k < |lines[m]| ==> lines[m][k].View() == old(lines[m][k].View())
    {
      assert Distinct(lines[l]);
      PlaceLine(lines[l], size, d, l);
    }
  }

  /** The tiles of a list of cells, line after line, are the lines' tiles one after the other. */
  lemma {:induction false} ViewsFlatten(css: seq<seq<Cell>>)
    ensures Views(Flatten(css)) == Flatten(Snapshot(css))
  {
    if css != [] {
      var n := |css| - 1;
      ViewsFlatten(css[..n]);
      assert Snapshot(css)[..n] == Snapshot(css[..n]);
      assert Views(Flatten(css[..n]) + css[n]) == Views(Flatten(css[..n])) + Views(css[n]);
    }
  }

  /**
   * Steps 2 and 3 of `moveVertical` / `moveHorizontal` on the lines of a
   * board: every line (its tiles before the move are before) is reduced,
   * then its kept cells are placed.
   */
  method MoveLines(red: Reducer, lines: seq<seq<Cell>>, ghost before: seq<seq<Tile>>, size: int, d: Dir) returns (kept: seq<seq<Cell>>)
    requires Separate(lines) && |before| == |lines|
    requires forall l :: 0 <= l < |lines| ==> Views(lines[l]) == before[l]
    modifies Members(lines)
    ensures |kept| == |lines|
    ensures forall l :: 0 <= l < |lines| ==> Views(lines[l]) == PlaceKept(Reduced(red, before[l]), Survivors(red, before[l]), size, d, l)
    ensures forall l :: 0 <= l < |lines| ==> Views(kept[l]) == Place(Reduce(red, before[l]), size, d, l)
  {
    kept := MergeLines(red, lines);
    KeptSeparate(red, lines, before, kept);
    ghost var reduced, picked := Snapshot(lines), Snapshot(kept);
    PlaceLines(kept, size, d);
    forall l, k | 0 <= l < |lines| && 0 <= k < |lines[l]| && lines[l][k] !in Members(kept)
      ensures lines[l][k].View() == reduced[l][k]
    {
    }
    SettleLines(red, lines, kept, before, reduced, picked, size, d);
  }

  /** The cells the reduced lines keep are again on no two lines, nor twice on one, and carry the survivors' tiles. */
  lemma KeptSeparate(red: Reducer, lines: seq<seq<Cell>>, before: seq<seq<Tile>>, kept: seq<seq<Cell>>)
    requires Separate(lines) && |before| == |lines|
    requires MergedUpTo(red, lines, before, kept, |lines|)
    ensures Separate(kept)
    ensures forall l :: 0 <= l < |lines| ==> Snapshot(kept)[l] == Pick(Snapshot(lines)[l], Survivors(red, before[l]))
  {
    var keptIdx := seq(|lines|, l requires 0 <= l < |lines| => Survivors(red, before[l]));
    forall l | 0 <= l < |lines| ensures Below(keptIdx[l], |lines[l]|) && Distinct(keptIdx[l]) {
      SurvivorsOrder(red, before[l]);
    }
    SeparateSub(lines, keptIdx);
    assert kept == seq(|lines|, l requires 0 <= l < |lines| => Pick(lines[l], keptIdx[l]));
  }

  /** SettleLine on every line, with the line's tiles after step 2 as reduced and those of its kept cells as picked. */
  lemma SettleLines(red: Reducer, lines: seq<seq<Cell>>, kept: seq<seq<Cell>>, before: seq<seq<Tile>>,
                    reduced: seq<seq<Tile>>, picked: seq<seq<Tile>>, size: int, d: Dir)
    requires Separate(lines) && |before| == |lines| == |kept| == |reduced| == |picked|
    requires forall l :: 0 <= l < |lines| ==>
      && |lines[l]| == |before[l]| == |reduced[l]| && |kept[l]| == |picked[l]|
      && reduced[l] == Reduced(red, before[l])
      && kept[l] == Pick(lines[l], Survivors(red, before[l]))
      && picked[l] == Pick(reduced[l], Survivors(red, before[l]))
    requires forall l, n :: 0 <= l < |kept| && 0 <= n < |kept[l]| ==>
      kept[l][n].View() == At(picked[l][n], Placement(size, d, l, n))
    requires forall l, k :: 0 <= l < |lines| && 0 <= k < |lines[l]| && lines[l][k] !in Members(kept) ==>
      lines[l][k].View() == reduced[l][k]
    ensures forall l :: 0 <= l < |lines| ==>
      Views(lines[l]) == PlaceKept(Reduced(red, before[l]), Survivors(red, before[l]), size, d, l)
        && Views(kept[l]) == Place(Reduce(red, before[l]), size, d, l)
  {
    forall m, n | 0 <= m < |kept| && 0 <= n < |kept[m]| ensures kept[m][n] in lines[m] {
      assert kept[m][n] == lines[m][Survivors(red, before[m])[n]];
    }
    forall l | 0 <= l < |lines|
      ensures Views(lines[l]) == PlaceKept(Reduced(red, before[l]), Survivors(red, before[l]), size, d, l)
        && Views(kept[l]) == Place(Reduce(red, before[l]), size, d, l)
    {
      SurvivorsOrder(red, before[l]);
      var line, out := lines[l], kept[l];
      forall k | 0 <= k < |line| && line[k] !in out ensures line[k].View() == reduced[l][k] {
        NotKeptElsewhere(lines, kept, l, k);
      }
      SettleLine(line, out, reduced[l], Survivors(red, before[l]), size, d, l);
    }
  }

  /** A cell its own line does not keep is kept by no other line either, since the lines share no cell. */
  lemma NotKeptElsewhere(lines: seq<seq<Cell>>, kept: seq<seq<Cell>>, l: int, k: int)
    requires Separate(lines) && |kept| == |lines|
    requires forall m, n :: 0 <= m < |kept| && 0 <= n < |kept[m]| ==> kept[m][n] in lines[m]
    requires 0 <= l < |lines| && 0 <= k < |lines[l]| && lines[l][k] !in kept[l]
    ensures lines[l][k] !in Members(kept)
  {
    forall m, n | 0 <= m < |kept| && 0 <= n < |kept[m]| ensures kept[m][n] != lines[l][k] {
      if m == l {
        assert kept[m][n] in kept[l];
      } else {
        var r :| 0 <= r < |lines[m]| && lines[m][r] == kept[m][n];
      }
    }
  }

  /** The placements of step 3 turn a reduced line m into the settled line, and its kept cells into the placed survivors. */
  lemma SettleLine(line: seq<Cell>, out: seq<Cell>, m: seq<Tile>, kept: seq<nat>, size: int, d: Dir, l: int)
    requires Distinct(line) && |line| == |m| && Below(kept, |m|) && Distinct(kept)
    requires out == Pick(line, kept)
    requires forall n :: 0 <= n < |out| ==> out[n].View() == At(m[kept[n]], Placement(size, d, l, n))
    requires forall k :: 0 <= k < |line| && line[k] !in out ==> line[k].View() == m[k]
    ensures Views(line) == PlaceKept(m, kept, size, d, l)
    ensures Views(out) == Place(Pick(m, kept), size, d, l)
  {
    var settled, moved := Views(line), Views(out);
    forall n | 0 <= n < |kept| ensures settled[kept[n]] == moved[n] {
      assert out[n] == line[kept[n]];
    }
    forall k | 0 <= k < |line| && k !in kept ensures settled[k] == m[k] {
      assert line[k] !in out;
    }
    Settle(m, kept, settled, moved, size, d, l);
  }

  /**
   * `moveVertical(tempCells, up)` (d = Up or Down) and
   * `moveHorizontal(tempCells, left)` (d = Left or Right): the cells of
   * every line 0 .. size-1 are merged and moved as Settled says, cells on no
   * such line are not touched, and the returned cells carry MoveResult.
   */
  method Transform(red: Reducer, cells: seq<Cell>, size: nat, d: Dir) returns (r: seq<Cell>)
    requires Distinct(cells)
    modifies cells
    ensures forall i, k :: 0 <= i < size && 0 <= k < |LineOf(old(Views(cells)), d, i)| ==>
      cells[LineOf(old(Views(cells)), d, i)[k]].View() == Settled(red, old(Views(cells)), size, d, i)[k]
    ensures forall p :: 0 <= p < |cells| && !(0 <= Fixed(PosOf(old(cells[p].View())), d) < size) ==>
      cells[p].View() == old(cells[p].View())
    ensures Views(r) == MoveResult(red, old(Views(cells)), size, d)
  {
    var ts := Views(cells);
    // 1. split the cells by line and sort each line in the direction of travel
    var lines := seq(size, i requires 0 <= i < size => Pick(cells, LineOf(ts, d, i)));
    Split(cells, ts, lines, size, d);
    // 2 and 3. reduce every line, then give the kept cells their places
    ghost var before := seq(size, i requires 0 <= i < size => LineTiles(ts, d, i));
    var kept := MoveLines(red, lines, before, size, d);
    SettledLines(red, ts, before, size, d);
    r := Flatten(kept);
    ViewsFlatten(kept);
    assert Snapshot(kept) == MovedLines(red, ts, size, d);
    LinesSettled(red, cells, ts, lines, size, d);
  }

  /** Steps 2 and 3 on the tiles of the lines of ts are Settled and MovedLine. */
  lemma SettledLines(red: Reducer, ts: seq<Tile>, before: seq<seq<Tile>>, size: nat, d: Dir)
    requires |before| == size && forall i :: 0 <= i < size ==> before[i] == LineTiles(ts, d, i)
    ensures forall i :: 0 <= i < size ==>
      && PlaceKept(Reduced(red, before[i]), Survivors(red, before[i]), size, d, i) == Settled(red, ts, size, d, i)
      && Place(Reduce(red, before[i]), size, d, i) == MovedLine(red, ts, size, d, i)
  {
  }

  /** What step 1 produces: separate lines of cells holding the lines' tiles, and no cell off the board's lines. */
  lemma Split(cells: seq<Cell>, ts: seq<Tile>, lines: seq<seq<Cell>>, size: nat, d: Dir)
    requires Distinct(cells) && ts == Views(cells) && |lines| == size
    requires forall i :: 0 <= i < size ==> lines[i] == Pick(cells, LineOf(ts, d, i))
    ensures Separate(lines)
    ensures forall i :: 0 <= i < size ==> Views(lines[i]) == LineTiles(ts, d, i)
    ensures forall c :: c in Members(lines) ==> c in cells
    ensures forall p :: 0 <= p < |cells| && !(0 <= Fixed(PosOf(ts[p]), d) < size) ==> cells[p] !in Members(lines)
  {
    LinesSeparate(ts, size, d);
    SeparatePick(cells, Lines(ts, size, d));
    assert lines == seq(size, i requires 0 <= i < size => Pick(cells, Lines(ts, size, d)[i]));
    forall i | 0 <= i < size ensures Views(lines[i]) == LineTiles(ts, d, i) {
    }
    OffLines(cells, ts, lines, size, d);
  }

  /** The cells of line i, as the cell list indexes them. */
  lemma LinesSettled(red: Reducer, cells: seq<Cell>, ts: seq<Tile>, lines: seq<seq<Cell>>, size: nat, d: Dir)
    requires |cells| == |ts| && |lines| == size
    requires forall i :: 0 <= i < size ==> lines[i] == Pick(cells, LineOf(ts, d, i))
    requires forall i :: 0 <= i < size ==> Views(lines[i]) == Settled(red, ts, size, d, i)
    ensures forall i, k :: 0 <= i < size && 0 <= k < |LineOf(ts, d, i)| ==>
      cells[LineOf(ts, d, i)[k]].View() == Settled(red, ts, size, d, i)[k]
  {
    forall i, k | 0 <= i < size && 0 <= k < |LineOf(ts, d, i)|
      ensures cells[LineOf(ts, d, i)[k]].View() == Settled(red, ts, size, d, i)[k]
    {
      assert lines[i][k] == cells[LineOf(ts, d, i)[k]];
    }
  }

  /** A cell whose line is outside 0 .. size-1 is on none of the lines. */
  lemma OffLines(cells: seq<Cell>, ts: seq<Tile>, lines: seq<seq<Cell>>, size: nat, d: Dir)
    requires Distinct(cells) && |cells| == |ts| && |lines| == size
    requires forall i :: 0 <= i < size ==> lines[i] == Pick(cells, LineOf(ts, d, i))
    ensures forall p :: 0 <= p < |cells| && !(0 <= Fixed(PosOf(ts[p]), d) < size) ==> cells[p] !in Members(lines)
  {
    forall p | 0 <= p < |cells| && cells[p] in Members(lines) ensures 0 <= Fixed(PosOf(ts[p]), d) < size {
      var i :| 0 <= i < size && cells[p] in lines[i];
      var k :| 0 <= k < |lines[i]| && lines[i][k] == cells[p];
      OnLineAt(cells, ts, d, i, k, p);
    }
  }

  /** The only index of a duplicate-free cell list that holds the k-th cell of line i is on line i. */
  lemma OnLineAt(cells: seq<Cell>, ts: seq<Tile>, d: Dir, i: int, k: nat, p: nat)
    requires Distinct(cells) && |cells| == |ts| && k < |LineOf(ts, d, i)| && p < |cells|
    requires cells[LineOf(ts, d, i)[k]] == cells[p]
    ensures Fixed(PosOf(ts[p]), d) == i
  {
    var idx := LineOf(ts, d, i);
    assert idx[k] == p;
    assert idx[k] in idx;
  }

  /** `moveFun(inCells.map(c => c.copy()))`: the move runs on new copies, so the cells keep their state. */
  method MoveCopies(red: Reducer, inCells: seq<Cell>, size: nat, d: Dir, counter: IdCounter) returns (r: seq<Cell>)
    modifies counter
    ensures Views(inCells) == old(Views(inCells)) && counter.next == old(counter.next)
    ensures Views(r) == MoveResult(red, Copies(old(Views(inCells))), size, d)
  {
    ghost var ts := Views(inCells);
    var copies := CopyAll(inCells, counter);
    assert Views(copies) == Copies(ts);
    r := Transform(red, copies, size, d);
  }
}
