// src/app/gameUI.tsx, `moveMerge`: the newer engine's line reducer, working
// in place on Cell objects as the component does, proved against the
// value-level definitions of module GameRules.
module GameUIMerge {
  import opened Seqs
  import opened Tiles
  import opened GameRules

  /**
   * The state of the `moveMerge` loop after the first j cells of a line whose
   * tiles were ts: the cells and the output are those of SweepTo(ts, j).
   */
  ghost predicate Swept(line: seq<Cell>, ts: seq<Tile>, j: nat, out: seq<Cell>, alreadyMerged: bool)
    requires j <= |ts| == |line|
    reads line
  {
    var s := SweepTo(ts, j);
    && |out| == |s.out| && (forall k :: 0 <= k < |out| ==> out[k] == line[s.out[k]])
    && alreadyMerged == s.merged
    && forall k :: 0 <= k < |line| ==> line[k].View() == s.tiles[k]
  }

  /**
   * `moveMerge`: walks a sorted line once, appending each cell or, when it
   * equals the last output cell and that one has not merged yet, doubling
   * both, cross-linking their ids and putting the incoming cell in the last
   * output slot. Every cell of the line is left as Merged says; the result
   * holds the cells Kept names.
   */
  method MoveMerge(line: seq<Cell>) returns (out: seq<Cell>)
    requires Distinct(line)
    modifies line
    ensures Views(line) == Merged(old(Views(line)))
    ensures out == Pick(line, Kept(old(Views(line))))
  {
    ghost var ts := Views(line);
    out := [];
    var alreadyMerged := true;
    for j := 0 to |line|
      invariant Swept(line, ts, j, out, alreadyMerged)
    {
      out, alreadyMerged := Visit(line, ts, j, out, alreadyMerged);
    }
    SweepResult(ts);
  }

  /** One iteration of the `moveMerge` loop, on the j-th cell of the line. */
  method Visit(line: seq<Cell>, ghost ts: seq<Tile>, j: nat, out: seq<Cell>, alreadyMerged: bool)
    returns (out': seq<Cell>, merged': bool)
    requires Distinct(line) && j < |line| == |ts|
    requires Swept(line, ts, j, out, alreadyMerged)
    modifies line
    ensures Swept(line, ts, j + 1, out', merged')
  {
    var cell := line[j];
    ghost var s := SweepTo(ts, j);
    assert SweepTo(ts, j + 1) == Next(s, j);
    assert cell.View() == s.tiles[j];
    assert !alreadyMerged ==>
      out[|out| - 1] == line[s.out[|s.out| - 1]] && out[|out| - 1].View() == s.tiles[s.out[|s.out| - 1]];
    if !alreadyMerged && out[|out| - 1].value == cell.value {
      ghost var o := s.out[|s.out| - 1];
      var last := out[|out| - 1];
      last.value := last.value * 2;
      last.fusedWith := cell.id;
      cell.fusedWith := last.id;
      cell.value := cell.value * 2;
      out' := out[|out| - 1 := cell];
      merged' := true;
      forall k | 0 <= k < |line| ensures line[k].View() == Absorb(s.tiles, o, j)[k] {
        if k != o && k != j {
          assert line[k] != last && line[k] != cell;
        }
      }
    } else {
      out' := out + [cell];
      merged' := false;
    }
  }
}
