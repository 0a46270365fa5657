// Board geometry shared by both engines: which line a tile belongs to for
// a direction of travel, the order of a line, where the k-th surviving tile
// of a line lands, and the list of free cells the spawner draws from.
module Grid {
  import opened Seqs
  import opened Sorting

  /** The four moves; Up and Left travel toward index 0. */
  datatype Dir = Up | Down | Left | Right

  datatype Pos = Pos(x: int, y: int)

  predicate Vertical(d: Dir) {
    d == Up || d == Down
  }

  predicate TowardZero(d: Dir) {
    d == Up || d == Left
  }

  /** The coordinate that names the line: the column for vertical moves, the row otherwise. */
  function Fixed(p: Pos, d: Dir): int {
    if Vertical(d) then p.x else p.y
  }

  /** The coordinate a move changes. */
  function Moving(p: Pos, d: Dir): int {
    if Vertical(d) then p.y else p.x
  }

  /**
   * The comparators `(a, b) => a.y - b.y` (up), `b.y - a.y` (down) and their
   * x counterparts order by this key, ascending.
   */
  function SortKeys(ps: seq<Pos>, d: Dir): (keys: seq<int>)
    ensures |keys| == |ps|
    ensures forall j :: 0 <= j < |ps| ==>
      keys[j] == if TowardZero(d) then Moving(ps[j], d) else -Moving(ps[j], d)
  {
    seq(|ps|, j requires 0 <= j < |ps| => if TowardZero(d) then Moving(ps[j], d) else -Moving(ps[j], d))
  }

  /** `filter(cell => cell.x === i)` (or `cell.y === i`): the indices on line i, in list order. */
  function OnLine(ps: seq<Pos>, d: Dir, i: int): (r: seq<nat>)
    ensures Below(r, |ps|) && Increasing(r)
    ensures forall j :: j in r <==> 0 <= j < |ps| && Fixed(ps[j], d) == i
  {
    if ps == [] then []
    else
      var n := |ps| - 1;
      var r := OnLine(ps[..n], d, i);
      assert forall j :: 0 <= j < n ==> ps[..n][j] == ps[j];
      r + if Fixed(ps[n], d) == i then [n] else []
  }

  /** Line i of the board, sorted in the direction of travel (nearest the target edge first). */
  function Line(ps: seq<Pos>, d: Dir, i: int): (r: seq<nat>)
    ensures Below(r, |ps|) && Distinct(r)
    ensures forall j :: j in r <==> 0 <= j < |ps| && Fixed(ps[j], d) == i
    ensures SortedBy(SortKeys(ps, d), r)
  {
    var on := OnLine(ps, d, i);
    SortByDistinct(SortKeys(ps, d), on);
    SortBy(SortKeys(ps, d), on)
  }

  /** The comparator `sort` is given in step 1 of each transform, as written there. */
  function Comparator(d: Dir, a: Pos, b: Pos): int {
    match d
    case Up => a.y - b.y
    case Down => b.y - a.y
    case Left => a.x - b.x
    case Right => b.x - a.x
  }

  /** Sorting ascending by SortKeys is sorting with the comparator: the key difference is its result. */
  lemma SortKeysComparator(ps: seq<Pos>, d: Dir, a: nat, b: nat)
    requires a < |ps| && b < |ps|
    ensures SortKeys(ps, d)[a] - SortKeys(ps, d)[b] == Comparator(d, ps[a], ps[b])
  {
  }

  /** Along a sorted line the comparator never puts a later tile before an earlier one. */
  lemma LineComparator(ps: seq<Pos>, d: Dir, i: int)
    ensures forall p, q :: 0 <= p < q < |Line(ps, d, i)| ==>
      Comparator(d, ps[Line(ps, d, i)[p]], ps[Line(ps, d, i)[q]]) <= 0
  {
    var r := Line(ps, d, i);
    forall p, q | 0 <= p < q < |r| ensures Comparator(d, ps[r[p]], ps[r[q]]) <= 0 {
      SortKeysComparator(ps, d, r[p], r[q]);
    }
  }

  /** Where the k-th surviving tile of line i lands (`up ? y : size - 1 - y`). */
  function Placement(size: int, d: Dir, i: int, k: int): (p: Pos)
    ensures Fixed(p, d) == i
    ensures Moving(p, d) == if TowardZero(d) then k else size - 1 - k
  {
    var m := if TowardZero(d) then k else size - 1 - k;
    if Vertical(d) then Pos(i, m) else Pos(m, i)
  }

  predicate InGrid(p: Pos, size: int) {
    0 <= p.x < size && 0 <= p.y < size
  }

  /** The board invariant: tiles sit on distinct cells of the grid. */
  predicate ValidPositions(ps: seq<Pos>, size: int) {
    Distinct(ps) && forall j :: 0 <= j < |ps| ==> InGrid(ps[j], size)
  }

  /** A cell is given by its line and its place on the line. */
  lemma FixedMoving(p: Pos, q: Pos, d: Dir, size: int)
    ensures 0 <= Fixed(p, d) < size && 0 <= Moving(p, d) < size ==> InGrid(p, size)
    ensures Fixed(p, d) == Fixed(q, d) && Moving(p, d) == Moving(q, d) ==> p == q
  {
  }

  /** `cell.x + cell.y * size`, the index the spawner uses for a cell. */
  function LinearIndex(p: Pos, size: int): int {
    p.x + p.y * size
  }

  predicate Occupied(ps: seq<Pos>, size: int, i: int) {
    exists j :: 0 <= j < |ps| && LinearIndex(ps[j], size) == i
  }

  /** The indices below n that no position occupies, ascending. */
  function FreeBelow(ps: seq<Pos>, size: int, n: nat): (r: seq<nat>)
    ensures Increasing(r)
    ensures forall i :: i in r <==> 0 <= i < n && !Occupied(ps, size, i)
  {
    if n == 0 then []
    else
      var r := FreeBelow(ps, size, n - 1);
      assert forall k :: 0 <= k < |r| ==> r[k] in r;
      r + if Occupied(ps, size, n - 1) then [] else [n - 1]
  }

  /**
   * `Array(size * size).fill(0).map((_, i) => i).filter(i => !tempCells.some(...))`:
   * every cell index that no tile occupies.
   */
  function FreeSpaces(ps: seq<Pos>, size: nat): (r: seq<nat>)
    ensures Increasing(r)
    ensures forall i :: i in r <==> 0 <= i < size * size && !Occupied(ps, size, i)
  {
    FreeBelow(ps, size, size * size)
  }

  /** The cell an index denotes: `x = index % size`, `y = Math.floor(index / size)`. */
  function CellAt(index: int, size: int): Pos
    requires size > 0
  {
    Pos(index % size, index / size)
  }

  lemma MulMono(a: int, b: int, c: int)
    requires a <= b && c >= 0
    ensures a * c <= b * c
  {
  }

  lemma LinearIndexBounds(p: Pos, size: int)
    requires InGrid(p, size)
    ensures 0 <= LinearIndex(p, size) < size * size
  {
    MulMono(0, p.y, size);
    MulMono(p.y, size - 1, size);
    assert (size - 1) * size + size == size * size;
  }

  /** Distinct cells of the grid have distinct indices. */
  lemma LinearIndexInjective(p: Pos, q: Pos, size: int)
    requires InGrid(p, size) && InGrid(q, size) && LinearIndex(p, size) == LinearIndex(q, size)
    ensures p == q
  {
    if p.y < q.y {
      assert (p.y + 1) * size == p.y * size + size;
      MulMono(p.y + 1, q.y, size);
      assert false;
    } else if q.y < p.y {
      assert (q.y + 1) * size == q.y * size + size;
      MulMono(q.y + 1, p.y, size);
      assert false;
    }
  }

  /** A cell index of the grid names an in-grid cell, and naming it back gives the index. */
  lemma CellAtIndex(index: int, size: int)
    requires size > 0 && 0 <= index < size * size
    ensures InGrid(CellAt(index, size), size)
    ensures LinearIndex(CellAt(index, size), size) == index
  {
    var y := index / size;
    assert index == y * size + index % size;
    if y >= size {
      MulMono(size, y, size);
      assert false;
    }
  }

  function Linears(ps: seq<Pos>, size: int): (r: seq<int>)
    ensures |r| == |ps| && forall j :: 0 <= j < |ps| ==> r[j] == LinearIndex(ps[j], size)
  {
    seq(|ps|, j requires 0 <= j < |ps| => LinearIndex(ps[j], size))
  }

  /** The indices below n that some position occupies. */
  function TakenBelow(ps: seq<Pos>, size: int, n: int): set<int> {
    set x | x in Linears(ps, size) && 0 <= x < n
  }

  lemma {:induction false} FreeBelowCount(ps: seq<Pos>, size: int, n: nat)
    ensures |FreeBelow(ps, size, n)| + |TakenBelow(ps, size, n)| == n
  {
    if n > 0 {
      FreeBelowCount(ps, size, n - 1);
      OccupiedStep(ps, size, n);
    }
  }

  /** Index n - 1 is free exactly when it adds nothing to the occupied indices below n. */
  lemma OccupiedStep(ps: seq<Pos>, size: int, n: nat)
    requires n > 0
    ensures |FreeBelow(ps, size, n)| + |TakenBelow(ps, size, n)|
      == |FreeBelow(ps, size, n - 1)| + |TakenBelow(ps, size, n - 1)| + 1
  {
    var lin := Linears(ps, size);
    var below, upto := TakenBelow(ps, size, n - 1), TakenBelow(ps, size, n);
    if Occupied(ps, size, n - 1) {
      var j :| 0 <= j < |ps| && LinearIndex(ps[j], size) == n - 1;
      assert lin[j] == n - 1;
      assert upto == below + {n - 1};
    } else {
      assert upto == below;
    }
  }

  /** On a valid board the free list has exactly one entry per empty cell. */
  lemma FreeSpacesCount(ps: seq<Pos>, size: nat)
    requires ValidPositions(ps, size)
    ensures |FreeSpaces(ps, size)| == size * size - |ps|
  {
    var lin := Linears(ps, size);
    forall p, q | 0 <= p < q < |lin| ensures lin[p] != lin[q] {
      if lin[p] == lin[q] {
        LinearIndexInjective(ps[p], ps[q], size);
      }
    }
    DistinctCard(lin);
    forall j | 0 <= j < |ps| ensures lin[j] < size * size {
      LinearIndexBounds(ps[j], size);
    }
    forall j | 0 <= j < |ps| ensures 0 <= lin[j] {
      LinearIndexBounds(ps[j], size);
    }
    assert TakenBelow(ps, size, size * size) == set x | x in lin;
    FreeBelowCount(ps, size, size * size);
  }

  /** Whatever the positions, at least size * size - |ps| indices are free: each position occupies at most one. */
  lemma FreeSpacesAtLeast(ps: seq<Pos>, size: nat)
    ensures |FreeSpaces(ps, size)| >= size * size - |ps|
  {
    var lin := Linears(ps, size);
    FreeBelowCount(ps, size, size * size);
    SetCard(lin);
    var inside, all := TakenBelow(ps, size, size * size), set x | x in lin;
    assert all == inside + (all - inside);
    assert |all| == |inside| + |all - inside|;
  }

  /** A free index names an in-grid cell that no position holds. */
  lemma FreeCell(ps: seq<Pos>, size: nat, f: nat)
    requires f in FreeSpaces(ps, size)
    ensures size > 0 && InGrid(CellAt(f, size), size)
    ensures forall j :: 0 <= j < |ps| ==> ps[j] != CellAt(f, size)
  {
    CellAtIndex(f, size);
  }

  /** On a valid board no line holds more tiles than the grid is wide. */
  lemma LineLength(ps: seq<Pos>, size: nat, d: Dir, i: int)
    requires ValidPositions(ps, size)
    ensures |Line(ps, d, i)| <= size
  {
    var line := Line(ps, d, i);
    assert forall t :: 0 <= t < |line| ==> line[t] in line;
    OneLineBounded(ps, size, d, i, line);
  }

  /** Distinct tiles of one line of a valid board differ in their moving coordinate, so there are at most size of them. */
  lemma OneLineBounded(ps: seq<Pos>, size: nat, d: Dir, i: int, line: seq<nat>)
    requires ValidPositions(ps, size) && Below(line, |ps|) && Distinct(line)
    requires forall t :: 0 <= t < |line| ==> Fixed(ps[line[t]], d) == i
    ensures |line| <= size
  {
    var ms := seq(|line|, t requires 0 <= t < |line| => Moving(ps[line[t]], d));
    forall p, q | 0 <= p < q < |ms| ensures ms[p] != ms[q] {
      assert ps[line[p]] != ps[line[q]];
      FixedMoving(ps[line[p]], ps[line[q]], d, size);
    }
    forall t | 0 <= t < |ms| ensures 0 <= ms[t] < size {
      assert InGrid(ps[line[t]], size);
    }
    DistinctBounded(ms, size);
  }
}
