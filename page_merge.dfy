// src/app/page.tsx, `moveMerge`: the older engine's line reducer, working in
// place on Cell objects, proved against the value-level definitions of
// module PageRules.
module PageMerge {
  import opened Seqs
  import opened Tiles
  import opened GameRules
  import opened PageRules

  /**
   * The state of the legacy `moveMerge` loop after the first j cells of a
   * line whose tiles were ts: the cells and the output are those of
   * AccSweepTo(ts, j).
   */
  ghost predicate Swept(line: seq<Cell>, ts: seq<Tile>, j: nat, out: seq<Cell>, alreadyMerged: bool)
    requires j <= |ts| == |line|
    reads line
  {
    var s := AccSweepTo(ts, j);
    && |out| == |s.out| && (forall k :: 0 <= k < |out| ==> out[k] == line[s.out[k]])
    && alreadyMerged == s.merged
    && forall k :: 0 <= k < |line| ==> line[k].View() == s.tiles[k]
  }

  /**
   * Legacy `moveMerge`: walks a sorted line once, appending each cell or,
   * when it equals the last output cell and that one has not merged yet,
   * doubling that output cell only; the incoming cell is dropped and left
   * untouched. Every cell of the line is left as AccMerged says; the result
   * holds the cells AccKept names.
   */
  method MoveMerge(line: seq<Cell>) returns (out: seq<Cell>)
    requires Distinct(line)
    modifies line
    ensures Views(line) == AccMerged(old(Views(line)))
    ensures out == Pick(line, AccKept(old(Views(line))))
  {
    ghost var ts := Views(line);
    out := [];
    var alreadyMerged := true;
    for j := 0 to |line|
      invariant Swept(line, ts, j, out, alreadyMerged)
    {
      out, alreadyMerged := Visit(line, ts, j, out, alreadyMerged);
    }
    AccSweepResult(ts);
  }

  /** One iteration of the legacy `moveMerge` loop, on the j-th cell of the line. */
  method Visit(line: seq<Cell>, ghost ts: seq<Tile>, j: nat, out: seq<Cell>, alreadyMerged: bool)
    returns (out': seq<Cell>, merged': bool)
    requires Distinct(line) && j < |line| == |ts|
    requires Swept(line, ts, j, out, alreadyMerged)
    modifies line
    ensures Swept(line, ts, j + 1, out', merged')
  {
    var cell := line[j];
    ghost var s := AccSweepTo(ts, j);
    assert AccSweepTo(ts, j + 1) == AccNext(s, j);
    assert cell.View() == s.tiles[j];
    assert !alreadyMerged ==>
      out[|out| - 1] == line[s.out[|s.out| - 1]] && out[|out| - 1].View() == s.tiles[s.out[|s.out| - 1]];
    if !alreadyMerged && out[|out| - 1].value == cell.value {
      ghost var o := s.out[|s.out| - 1];
      var last := out[|out| - 1];
      last.value := last.value * 2;
      out' := out;
      merged' := true;
      forall k | 0 <= k < |line| ensures line[k].View() == AccNext(s, j).tiles[k] {
        if k != o {
          assert line[k] != last;
        }
      }
    } else {
      out' := out + [cell];
      merged' := false;
    }
  }
}
