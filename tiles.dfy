// src/app/cell.tsx: the tile record of the newer engine, its module-level
// id counter, and the pure helpers `equals`, `comparingById` and `copy`.
module Tiles {
  import opened Seqs
  import opened Grid

  datatype Option<T> = None | Some(value: T)

  /** The fields of a Cell at one moment. */
  datatype Tile = Tile(x: int, y: int, value: int, id: int, fusedWith: int, phantom: bool)

  function PosOf(t: Tile): Pos {
    Pos(t.x, t.y)
  }

  function Positions(ts: seq<Tile>): (ps: seq<Pos>)
    ensures |ps| == |ts| && forall j :: 0 <= j < |ts| ==> ps[j] == PosOf(ts[j])
  {
    seq(|ts|, j requires 0 <= j < |ts| => PosOf(ts[j]))
  }

  lemma PositionsConcat(a: seq<Tile>, b: seq<Tile>)
    ensures Positions(a + b) == Positions(a) + Positions(b)
  {
  }

  function Values(ts: seq<Tile>): (vs: seq<int>)
    ensures |vs| == |ts| && forall j :: 0 <= j < |ts| ==> vs[j] == ts[j].value
  {
    seq(|ts|, j requires 0 <= j < |ts| => ts[j].value)
  }

  function Ids(ts: seq<Tile>): (ids: seq<int>)
    ensures |ids| == |ts| && forall j :: 0 <= j < |ts| ==> ids[j] == ts[j].id
  {
    seq(|ts|, j requires 0 <= j < |ts| => ts[j].id)
  }

  /** `equals`: same cell and same value. */
  predicate Equals(a: Tile, b: Tile) {
    a.x == b.x && a.y == b.y && a.value == b.value
  }

  /** `comparingById`: `a.id - b.id`, the comparator that orders tiles by id. */
  function ComparingById(a: Tile, b: Tile): (r: int)
    ensures r < 0 <==> a.id < b.id
    ensures r == 0 <==> a.id == b.id
    ensures r > 0 <==> a.id > b.id
  {
    a.id - b.id
  }

  /** What `copy()` builds: the constructor called with x, y, value and id only. */
  function CopyOf(t: Tile): Tile {
    Tile(t.x, t.y, t.value, t.id, -1, false)
  }

  /** `equals` looks at x, y and value only: id, fusedWith and phantom play no part. */
  lemma EqualsIgnoresIdentity(a: Tile, b: Tile, id: int, fusedWith: int, phantom: bool)
    ensures Equals(a.(id := id, fusedWith := fusedWith, phantom := phantom), b) == Equals(a, b)
    ensures Equals(a, b) <==> PosOf(a) == PosOf(b) && a.value == b.value
  {
  }

  /** `equals` is reflexive, symmetric and transitive. */
  lemma EqualsEquivalence(a: Tile, b: Tile, c: Tile)
    ensures Equals(a, a)
    ensures Equals(a, b) == Equals(b, a)
    ensures Equals(a, b) && Equals(b, c) ==> Equals(a, c)
  {
  }

  /**
   * A copy equals its original and keeps its id; lineage and the phantom
   * flag go back to their defaults.
   */
  lemma CopyFacts(t: Tile)
    ensures Equals(CopyOf(t), t) && CopyOf(t).id == t.id
    ensures CopyOf(t).fusedWith == -1 && !CopyOf(t).phantom
    ensures CopyOf(CopyOf(t)) == CopyOf(t)
  {
  }

  /** `cells.map(c => c.copy())` on tiles. */
  function Copies(ts: seq<Tile>): (r: seq<Tile>)
    ensures |r| == |ts| && forall j :: 0 <= j < |ts| ==> r[j] == CopyOf(ts[j])
  {
    seq(|ts|, j requires 0 <= j < |ts| => CopyOf(ts[j]))
  }

  /** The module-level `cellId` counter that hands out ids. */
  class IdCounter {
    var next: int

    constructor ()
      ensures next == 0
    {
      next := 0;
    }

    /** `cellId++`: the current value, then one more. */
    method Take() returns (id: int)
      modifies this
      ensures id == old(next) && next == old(next) + 1
    {
      id := next;
      next := next + 1;
    }
  }

  class Cell {
    var x: int
    var y: int
    var value: int
    var id: int
    var fusedWith: int
    var phantom: bool

    function View(): Tile
      reads this
    {
      Tile(x, y, value, id, fusedWith, phantom)
    }

    /** `id ?? cellId++`: an explicit id is kept; without one the counter supplies it. */
    constructor (x: int, y: int, value: int, id: Option<int>, phantom: bool, counter: IdCounter)
      modifies counter
      ensures View() == Tile(x, y, value, if id.Some? then id.value else old(counter.next), -1, phantom)
      ensures counter.next == if id.Some? then old(counter.next) else old(counter.next) + 1
    {
      this.x := x;
      this.y := y;
      this.value := value;
      this.fusedWith := -1;
      this.phantom := phantom;
      if id.Some? {
        this.id := id.value;
      } else {
        var taken := counter.Take();
        this.id := taken;
      }
    }

    /** `copy()`: a new Cell with the same x, y, value and id; the counter does not move. */
    method Copy(counter: IdCounter) returns (c: Cell)
      modifies counter
      ensures fresh(c) && c.View() == CopyOf(View())
      ensures counter.next == old(counter.next)
    {
      c := new Cell(x, y, value, Some(id), false, counter);
    }
  }

  function Views(cs: seq<Cell>): (ts: seq<Tile>)
    reads cs
    ensures |ts| == |cs| && forall j :: 0 <= j < |cs| ==> ts[j] == cs[j].View()
  {
    seq(|cs|, j requires 0 <= j < |cs| reads cs => cs[j].View())
  }

  lemma ViewsConcat(a: seq<Cell>, b: seq<Cell>)
    ensures Views(a + b) == Views(a) + Views(b)
  {
  }

  /** Selecting cells and then reading them is reading them and then selecting. */
  lemma ViewsPick(cs: seq<Cell>, idx: seq<nat>)
    requires Below(idx, |cs|)
    ensures Views(Pick(cs, idx)) == Pick(Views(cs), idx)
  {
  }

  /** `cells.map(c => c.copy())`: new, separate cells holding copies; the counter does not move. */
  method CopyAll(cs: seq<Cell>, counter: IdCounter) returns (r: seq<Cell>)
    modifies counter
    ensures |r| == |cs| && Distinct(r) && forall j :: 0 <= j < |r| ==> fresh(r[j])
    ensures forall j :: 0 <= j < |r| ==> r[j].View() == CopyOf(cs[j].View())
    ensures counter.next == old(counter.next)
  {
    r := [];
    for j := 0 to |cs|
      invariant |r| == j && Distinct(r) && forall k :: 0 <= k < j ==> fresh(r[k])
      invariant forall k :: 0 <= k < j ==> r[k].View() == CopyOf(cs[k].View())
      invariant counter.next == old(counter.next)
    {
      var c := cs[j].Copy(counter);
      r := r + [c];
    }
  }
}
