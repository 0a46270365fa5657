// `moveVertical` and `moveHorizontal` on tile values: split the board into
// lines, sort each in the direction of travel, reduce it with `moveMerge`,
// and give its surviving tiles consecutive places from the target edge.
// The two functions differ only in which coordinate names the line, so both
// are one function of the direction here. src/app/gameUI.tsx and
// src/app/page.tsx define them with the same text; they differ only in the
// `moveMerge` they call, which is the Reducer parameter.
module Moves {
  import opened Seqs
  import opened Pairing
  import opened Grid
  import opened Tiles
  import opened GameRules
  import opened PageRules

  /** Which tile of a merge `moveMerge` keeps: gameUI.tsx keeps the incoming tile, page.tsx the accumulator. */
  datatype Reducer = KeepIncoming | KeepAccumulator

  /** Every tile of a line after the reducer's `moveMerge`. */
  function Reduced(red: Reducer, ts: seq<Tile>): (r: seq<Tile>)
    ensures |r| == |ts|
  {
    if red == KeepIncoming then Merged(ts) else AccMerged(ts)
  }

  /** The positions of the tiles the reducer's `moveMerge` returns. */
  function Survivors(red: Reducer, ts: seq<Tile>): (r: seq<nat>)
    ensures Below(r, |ts|)
  {
    if red == KeepIncoming then Kept(ts) else AccKept(ts)
  }

  /** The tiles the reducer's `moveMerge` returns. */
  function Reduce(red: Reducer, ts: seq<Tile>): seq<Tile> {
    Pick(Reduced(red, ts), Survivors(red, ts))
  }

  /** Both reducers keep survivors in line order, one per group of the greedy pairing. */
  lemma SurvivorsOrder(red: Reducer, ts: seq<Tile>)
    ensures Increasing(Survivors(red, ts)) && Distinct(Survivors(red, ts))
    ensures |Survivors(red, ts)| == |LineGroups(ts)|
  {
    KeptOrder(ts);
    AccKeptOrder(ts);
  }

  /**
   * Both reducers return one tile per group of the greedy pairing carrying
   * the group's value: the line loses one tile per merge and keeps its total.
   */
  lemma ReduceSpec(red: Reducer, ts: seq<Tile>)
    ensures |Reduce(red, ts)| == |ts| - Pairs(LineGroups(ts))
    ensures Values(Reduce(red, ts)) == GroupValues(Values(ts), LineGroups(ts))
    ensures Sum(Values(Reduce(red, ts))) == Sum(Values(ts))
  {
    if red == KeepIncoming {
      MergeLineSpec(ts);
      MergeLineValues(ts);
    } else {
      AccMergeLineSpec(ts);
      AccMergeLineValues(ts);
    }
  }

  /** Line i of a move in direction d, as tile indices, nearest the target edge first. */
  function LineOf(ts: seq<Tile>, d: Dir, i: int): (r: seq<nat>)
    ensures Below(r, |ts|) && Distinct(r)
    ensures forall j :: j in r <==> 0 <= j < |ts| && Fixed(PosOf(ts[j]), d) == i
  {
    Line(Positions(ts), d, i)
  }

  function LineTiles(ts: seq<Tile>, d: Dir, i: int): seq<Tile> {
    Pick(ts, LineOf(ts, d, i))
  }

  /** A tile moved to a cell. */
  function At(t: Tile, p: Pos): Tile {
    t.(x := p.x, y := p.y)
  }

  /** Step 3 of a move on line i: the k-th tile of the reduced line takes the k-th place from the target edge. */
  function Place(line: seq<Tile>, size: int, d: Dir, i: int): (r: seq<Tile>)
    ensures |r| == |line|
  {
    seq(|line|, k requires 0 <= k < |line| => At(line[k], Placement(size, d, i, k)))
  }

  /** The tiles line i contributes to the result of a move. */
  function MovedLine(red: Reducer, ts: seq<Tile>, size: int, d: Dir, i: int): seq<Tile> {
    Place(Reduce(red, LineTiles(ts, d, i)), size, d, i)
  }

  function MovedLines(red: Reducer, ts: seq<Tile>, size: nat, d: Dir): (r: seq<seq<Tile>>)
    ensures |r| == size && forall i :: 0 <= i < size ==> r[i] == MovedLine(red, ts, size, d, i)
  {
    seq(size, i requires 0 <= i < size => MovedLine(red, ts, size, d, i))
  }

  /** The list a move returns: the reduced lines 0 .. size-1, one after the other. */
  function MoveResult(red: Reducer, ts: seq<Tile>, size: nat, d: Dir): seq<Tile> {
    Flatten(MovedLines(red, ts, size, d))
  }

  /** Some line of the board holds a merge. */
  predicate Merges(ts: seq<Tile>, size: nat, d: Dir) {
    exists i :: 0 <= i < size && Pairs(LineGroups(LineTiles(ts, d, i))) > 0
  }

  /**
   * Line i after a move, tile by tile in line order, the absorbed tiles
   * included: the merges of `moveMerge`, then the k-th kept tile moved to
   * the k-th place.
   */
  function Settled(red: Reducer, ts: seq<Tile>, size: int, d: Dir, i: int): (r: seq<Tile>)
    ensures |r| == |LineOf(ts, d, i)|
  {
    var line := LineTiles(ts, d, i);
    PlaceKept(Reduced(red, line), Survivors(red, line), size, d, i)
  }

  /** The placements of step 3, applied one kept tile after the other. */
  function PlaceKept(m: seq<Tile>, kept: seq<nat>, size: int, d: Dir, i: int): (r: seq<Tile>)
    requires Below(kept, |m|)
    ensures |r| == |m|
  {
    if kept == [] then m
    else
      var n := |kept| - 1;
      var r := PlaceKept(m, kept[..n], size, d, i);
      r[kept[n] := At(r[kept[n]], Placement(size, d, i, n))]
  }

  /** With no position kept twice, the k-th kept tile is moved to place k and the others stay as they are. */
  lemma {:induction false} PlaceKeptAt(m: seq<Tile>, kept: seq<nat>, size: int, d: Dir, i: int)
    requires Below(kept, |m|) && Distinct(kept)
    ensures forall k :: 0 <= k < |kept| ==> PlaceKept(m, kept, size, d, i)[kept[k]] == At(m[kept[k]], Placement(size, d, i, k))
    ensures forall r :: 0 <= r < |m| && r !in kept ==> PlaceKept(m, kept, size, d, i)[r] == m[r]
  {
    if kept != [] {
      var n := |kept| - 1;
      PlaceKeptAt(m, kept[..n], size, d, i);
      forall k | 0 <= k < n ensures kept[..n][k] == kept[k] && kept[k] != kept[n] { }
    }
  }

  /**
   * A line that agrees with the reduced line m except that its k-th kept
   * tile was moved to place k is the settled line, and its kept tiles are
   * the reduced line's survivors, placed.
   */
  lemma Settle(m: seq<Tile>, kept: seq<nat>, settled: seq<Tile>, moved: seq<Tile>, size: int, d: Dir, i: int)
    requires Below(kept, |m|) && Distinct(kept) && |settled| == |m| && |moved| == |kept|
    requires forall n :: 0 <= n < |kept| ==>
      settled[kept[n]] == moved[n] && moved[n] == At(m[kept[n]], Placement(size, d, i, n))
    requires forall k :: 0 <= k < |m| && k !in kept ==> settled[k] == m[k]
    ensures settled == PlaceKept(m, kept, size, d, i)
    ensures moved == Place(Pick(m, kept), size, d, i)
  {
    PlaceKeptAt(m, kept, size, d, i);
  }

  /** The kept tiles of the settled line, in order, are the line's contribution to the result. */
  lemma SettledKept(red: Reducer, ts: seq<Tile>, size: int, d: Dir, i: int)
    ensures Below(Survivors(red, LineTiles(ts, d, i)), |Settled(red, ts, size, d, i)|)
    ensures Pick(Settled(red, ts, size, d, i), Survivors(red, LineTiles(ts, d, i))) == MovedLine(red, ts, size, d, i)
  {
    var line := LineTiles(ts, d, i);
    SurvivorsOrder(red, line);
    PlaceKeptAt(Reduced(red, line), Survivors(red, line), size, d, i);
  }

  /**
   * Line i's contribution: one tile per group of the greedy pairing, each
   * on line i and packed against the target edge in order, carrying the
   * values `moveMerge` leaves.
   */
  lemma MovedLineFacts(red: Reducer, ts: seq<Tile>, size: int, d: Dir, i: int)
    ensures var ml, line := MovedLine(red, ts, size, d, i), LineTiles(ts, d, i);
      && |ml| == |line| - Pairs(LineGroups(line))
      && Values(ml) == GroupValues(Values(line), LineGroups(line))
      && forall k :: 0 <= k < |ml| ==>
           Fixed(PosOf(ml[k]), d) == i && Moving(PosOf(ml[k]), d) == if TowardZero(d) then k else size - 1 - k
  {
    var line := LineTiles(ts, d, i);
    var r := Reduce(red, line);
    ReduceSpec(red, line);
    PlaceFacts(r, size, d, i);
  }

  /** Step 3 keeps the values of a line and puts its k-th tile on the k-th place of line i. */
  lemma PlaceFacts(line: seq<Tile>, size: int, d: Dir, i: int)
    ensures var pl := Place(line, size, d, i);
      && Values(pl) == Values(line)
      && forall k :: 0 <= k < |pl| ==>
           Fixed(PosOf(pl[k]), d) == i && Moving(PosOf(pl[k]), d) == if TowardZero(d) then k else size - 1 - k
  {
    var pl := Place(line, size, d, i);
    assert |Values(pl)| == |Values(line)|;
  }

  /** The index lists of lines 0 .. size-1. */
  function Lines(ts: seq<Tile>, size: nat, d: Dir): (r: seq<seq<nat>>)
    ensures |r| == size && forall i :: 0 <= i < size ==> r[i] == LineOf(ts, d, i)
  {
    seq(size, i requires 0 <= i < size => LineOf(ts, d, i))
  }

  /** No index is on two lines, nor twice on one. */
  lemma LinesSeparate(ts: seq<Tile>, size: nat, d: Dir)
    ensures Separate(Lines(ts, size, d))
  {
    var idx := Lines(ts, size, d);
    forall l, m, r, s | 0 <= l < size && 0 <= m < size && 0 <= r < |idx[l]| && 0 <= s < |idx[m]| && l != m
      ensures idx[l][r] != idx[m][s]
    {
      assert idx[l][r] in LineOf(ts, d, l) && idx[m][s] in LineOf(ts, d, m);
    }
  }

  /** No index is on two lines. */
  lemma LinesDisjoint(ts: seq<Tile>, size: nat, d: Dir)
    ensures Distinct(Flatten(Lines(ts, size, d)))
  {
    var idx := Lines(ts, size, d);
    forall i, j, k, l | 0 <= i < j < |idx| && 0 <= k < |idx[i]| && 0 <= l < |idx[j]| ensures idx[i][k] != idx[j][l] {
      assert idx[i][k] in LineOf(ts, d, i) && idx[j][l] in LineOf(ts, d, j);
    }
    FlattenPairwise(idx, (a: nat, b: nat) => a != b);
  }

  /** The lines of a move together are no longer than the board. */
  lemma LinesCover(ts: seq<Tile>, size: nat, d: Dir)
    ensures |Flatten(Lines(ts, size, d))| <= |ts|
  {
    var idx := Lines(ts, size, d);
    var f := Flatten(idx);
    forall p | 0 <= p < |f| ensures 0 <= f[p] < |ts| {
      var i, k := FlattenMember(idx, p);
    }
    LinesDisjoint(ts, size, d);
    DistinctBounded(f, |ts|);
  }

  /** A move never adds tiles, and a move that merges anywhere removes some. */
  lemma MoveCount(red: Reducer, ts: seq<Tile>, size: nat, d: Dir)
    ensures |MoveResult(red, ts, size, d)| <= |ts|
    ensures Merges(ts, size, d) ==> |MoveResult(red, ts, size, d)| < |ts|
  {
    var idx := Lines(ts, size, d);
    var ml := MovedLines(red, ts, size, d);
    forall i | 0 <= i < size ensures |ml[i]| == |idx[i]| - Pairs(LineGroups(LineTiles(ts, d, i))) {
      MovedLineFacts(red, ts, size, d, i);
    }
    FlattenShorter(ml, idx);
    LinesCover(ts, size, d);
  }

  /** On a valid board the tiles line i contributes sit on distinct cells of line i inside the grid. */
  lemma MovedLineShape(red: Reducer, ts: seq<Tile>, size: nat, d: Dir, i: int)
    requires ValidPositions(Positions(ts), size) && 0 <= i < size
    ensures var ml := MovedLine(red, ts, size, d, i);
      && (forall k :: 0 <= k < |ml| ==> Fixed(PosOf(ml[k]), d) == i && InGrid(PosOf(ml[k]), size))
      && (forall k, l :: 0 <= k < l < |ml| ==> PosOf(ml[k]) != PosOf(ml[l]))
  {
    var ml := MovedLine(red, ts, size, d, i);
    MovedLineFacts(red, ts, size, d, i);
    LineLength(Positions(ts), size, d, i);
    assert |ml| <= size;
    forall k | 0 <= k < |ml| ensures InGrid(PosOf(ml[k]), size) {
      FixedMoving(PosOf(ml[k]), PosOf(ml[k]), d, size);
    }
    forall k, l | 0 <= k < l < |ml| ensures PosOf(ml[k]) != PosOf(ml[l]) {
      FixedMoving(PosOf(ml[k]), PosOf(ml[l]), d, size);
    }
  }

  /** On a board whose tiles sit on distinct cells of the grid, the moved tiles do too. */
  lemma MoveValid(red: Reducer, ts: seq<Tile>, size: nat, d: Dir)
    requires ValidPositions(Positions(ts), size)
    ensures ValidPositions(Positions(MoveResult(red, ts, size, d)), size)
  {
    MoveDistinct(red, ts, size, d);
    MoveInGrid(red, ts, size, d);
  }

  /** On a valid board no two moved tiles share a cell. */
  lemma MoveDistinct(red: Reducer, ts: seq<Tile>, size: nat, d: Dir)
    requires ValidPositions(Positions(ts), size)
    ensures Distinct(Positions(MoveResult(red, ts, size, d)))
  {
    var ml := MovedLines(red, ts, size, d);
    var f := MoveResult(red, ts, size, d);
    LinesApart(red, ts, size, d);
    FlattenPairwise(ml, (a: Tile, b: Tile) => PosOf(a) != PosOf(b));
    var ps := Positions(f);
    forall p, q | 0 <= p < q < |ps| ensures ps[p] != ps[q] {
      assert ps[p] == PosOf(f[p]) && ps[q] == PosOf(f[q]);
    }
  }

  /** On a valid board every moved tile is inside the grid. */
  lemma MoveInGrid(red: Reducer, ts: seq<Tile>, size: nat, d: Dir)
    requires ValidPositions(Positions(ts), size)
    ensures forall p :: 0 <= p < |MoveResult(red, ts, size, d)| ==> InGrid(PosOf(MoveResult(red, ts, size, d)[p]), size)
  {
    var ml := MovedLines(red, ts, size, d);
    var f := MoveResult(red, ts, size, d);
    forall p | 0 <= p < |f| ensures InGrid(PosOf(f[p]), size) {
      var i, k := FlattenMember(ml, p);
      MovedLineShape(red, ts, size, d, i);
    }
  }

  /** Two distinct tiles of the moved lines never share a cell. */
  lemma LinesApart(red: Reducer, ts: seq<Tile>, size: nat, d: Dir)
    requires ValidPositions(Positions(ts), size)
    ensures var ml := MovedLines(red, ts, size, d);
      forall i, j, k, l :: 0 <= i < |ml| && 0 <= j < |ml| && 0 <= k < |ml[i]| && 0 <= l < |ml[j]| && (i, k) != (j, l) ==>
        PosOf(ml[i][k]) != PosOf(ml[j][l])
  {
    var ml := MovedLines(red, ts, size, d);
    forall i, j, k, l | 0 <= i < |ml| && 0 <= j < |ml| && 0 <= k < |ml[i]| && 0 <= l < |ml[j]| && (i, k) != (j, l)
      ensures PosOf(ml[i][k]) != PosOf(ml[j][l])
    {
      MovedLineShape(red, ts, size, d, i);
      MovedLineShape(red, ts, size, d, j);
    }
  }
}
