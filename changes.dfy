// The change test both engines run after a move: src/app/gameUI.tsx's
// `hasChanged` and the same comparison written inline in the key handler
// of src/app/page.tsx. Both lists are put in id order and compared
// position by position with `equals`.
module Changes {
  import opened Seqs
  import opened Sorting
  import opened Grid
  import opened Tiles
  import opened GameRules
  import opened Moves

  /** The id order `toSorted(Cell.comparingById)` produces (a stable sort). */
  function IdOrder(ts: seq<Tile>): (r: seq<nat>)
    ensures Below(r, |ts|) && |r| == |ts| && Distinct(r)
    ensures forall j :: j in r <==> 0 <= j < |ts|
  {
    SortByDistinct(Ids(ts), Range(|ts|));
    SortBy(Ids(ts), Range(|ts|))
  }

  /** `toSorted(Cell.comparingById)`. */
  function ById(ts: seq<Tile>): seq<Tile> {
    Pick(ts, IdOrder(ts))
  }

  /** Sorting by id orders the ids, keeps the length and keeps exactly the tiles that were there. */
  lemma ByIdSpec(ts: seq<Tile>)
    ensures |ById(ts)| == |ts|
    ensures forall p, q :: 0 <= p < q < |ts| ==> ById(ts)[p].id <= ById(ts)[q].id
    ensures forall t :: t in ById(ts) <==> t in ts
    ensures multiset(ById(ts)) == multiset(ts)
  {
    var idx, r := IdOrder(ts), ById(ts);
    assert multiset(idx) == multiset(Range(|ts|));
    PickMultiset(ts, idx, Range(|ts|));
    assert Pick(ts, Range(|ts|)) == ts;
    forall p, q | 0 <= p < q < |ts| ensures r[p].id <= r[q].id {
      assert Ids(ts)[idx[p]] <= Ids(ts)[idx[q]];
    }
    forall t ensures t in r <==> t in ts {
      if t in ts {
        var j :| 0 <= j < |ts| && ts[j] == t;
        assert j in idx;
        var k :| 0 <= k < |idx| && idx[k] == j;
        assert r[k] == t;
      }
    }
  }

  /** Sorting by id keeps a board's tiles on distinct cells of the grid. */
  lemma ByIdValid(ts: seq<Tile>, size: nat)
    requires ValidPositions(Positions(ts), size)
    ensures ValidPositions(Positions(ById(ts)), size)
  {
    var idx := IdOrder(ts);
    assert Positions(ById(ts)) == Pick(Positions(ts), idx);
    PickDistinct(Positions(ts), idx);
  }

  /**
   * `hasChanged(before, after)`: the lengths differ, or in id order some
   * tile of after is not `equals` to the tile of before at its index.
   */
  predicate HasChanged(before: seq<Tile>, after: seq<Tile>) {
    var a, b := ById(after), ById(before);
    |a| != |b| || exists i :: 0 <= i < |a| && !Equals(a[i], b[i])
  }

  /** A list that lost or gained tiles has changed. */
  lemma LengthChanges(before: seq<Tile>, after: seq<Tile>)
    ensures |before| != |after| ==> HasChanged(before, after)
  {
    ByIdSpec(before);
    ByIdSpec(after);
  }

  /** "Not changed" is an equivalence: reflexive, symmetric and transitive. */
  lemma UnchangedEquivalence(a: seq<Tile>, b: seq<Tile>, c: seq<Tile>)
    ensures !HasChanged(a, a)
    ensures !HasChanged(a, b) ==> !HasChanged(b, a)
    ensures !HasChanged(a, b) && !HasChanged(b, c) ==> !HasChanged(a, c)
  {
  }

  /** Copies are in the same id order as their originals and equal to them, so copying changes nothing. */
  lemma CopiesUnchanged(ts: seq<Tile>)
    ensures ById(Copies(ts)) == Copies(ById(ts))
    ensures !HasChanged(ts, Copies(ts)) && !HasChanged(Copies(ts), ts)
  {
    var cs := Copies(ts);
    assert Ids(cs) == Ids(ts);
    assert IdOrder(cs) == IdOrder(ts);
  }

  /** The board a list of tiles shows: which value sits on which cell. */
  function Board(ts: seq<Tile>): set<(Pos, int)> {
    set t | t in ts :: (PosOf(t), t.value)
  }

  /** Lists that have not changed show the same board. */
  lemma UnchangedBoard(before: seq<Tile>, after: seq<Tile>)
    requires !HasChanged(before, after)
    ensures Board(before) == Board(after)
  {
    UnchangedEquivalence(before, after, after);
    BoardIncluded(before, after);
    BoardIncluded(after, before);
  }

  /** Every cell and value the first list shows, an unchanged second list shows too. */
  lemma BoardIncluded(before: seq<Tile>, after: seq<Tile>)
    requires !HasChanged(before, after)
    ensures Board(before) <= Board(after)
  {
    forall t | t in before ensures (PosOf(t), t.value) in Board(after) {
      var u := Counterpart(before, after, t);
    }
  }

  /** In two unchanged lists every tile of the first has an `equals` tile in the second. */
  lemma Counterpart(before: seq<Tile>, after: seq<Tile>, t: Tile) returns (u: Tile)
    requires !HasChanged(before, after) && t in before
    ensures u in after && Equals(u, t)
  {
    ByIdSpec(before);
    ByIdSpec(after);
    var a, b := ById(after), ById(before);
    var i :| 0 <= i < |b| && b[i] == t;
    u := a[i];
  }

  /** Copying keeps positions and values, so it keeps every line and whether a move merges. */
  lemma CopiesMerge(ts: seq<Tile>, size: nat, d: Dir)
    ensures Merges(Copies(ts), size, d) == Merges(ts, size, d)
  {
    var cs := Copies(ts);
    assert Positions(cs) == Positions(ts);
    forall i ensures LineGroups(LineTiles(cs, d, i)) == LineGroups(LineTiles(ts, d, i)) {
      assert Values(LineTiles(cs, d, i)) == Values(LineTiles(ts, d, i));
    }
  }

  /** A move that merges anywhere changes the board, since the list gets shorter. */
  lemma MergeChanges(red: Reducer, ts: seq<Tile>, size: nat, d: Dir)
    requires Merges(ts, size, d)
    ensures HasChanged(ts, MoveResult(red, Copies(ts), size, d))
  {
    CopiesMerge(ts, size, d);
    MoveCount(red, Copies(ts), size, d);
    LengthChanges(ts, MoveResult(red, Copies(ts), size, d));
  }
}
