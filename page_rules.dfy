// The older engine's `moveMerge` (src/app/page.tsx) on tile values: the
// same greedy pairing as the newer engine, but on a merge the accumulator,
// the tile already in the output, doubles and stays, while the incoming tile
// is left as it was and dropped. The method of module PageMerge is proved
// against these functions.
module PageRules {
  import opened Seqs
  import opened Pairing
  import opened Tiles
  import opened GameRules

  /** What one merge does: the first tile of the pair doubles; the second is not touched. */
  function AccFuse(ts: seq<Tile>, g: Group): (r: seq<Tile>)
    requires End(g) <= |ts|
    ensures |r| == |ts|
    ensures forall k :: 0 <= k < |ts| && k != g.at ==> r[k] == ts[k]
  {
    match g
    case Single(_) => ts
    case Pair(a) => ts[a := ts[a].(value := ts[a].value * 2)]
  }

  /** The merges of gs, applied in order. */
  function AccFuseAll(ts: seq<Tile>, gs: seq<Group>): (r: seq<Tile>)
    requires forall k :: 0 <= k < |gs| ==> End(gs[k]) <= |ts|
    ensures |r| == |ts|
  {
    if gs == [] then ts else AccFuse(AccFuseAll(ts, gs[..|gs| - 1]), gs[|gs| - 1])
  }

  /** Every tile of the line after the older `moveMerge`. */
  function AccMerged(ts: seq<Tile>): (r: seq<Tile>)
    ensures |r| == |ts|
  {
    AccFuseAll(ts, LineGroups(ts))
  }

  /** Which tiles the older `moveMerge` returns: the first tile of every group. */
  function AccKept(ts: seq<Tile>): (r: seq<nat>)
    ensures Below(r, |ts|)
  {
    Firsts(LineGroups(ts))
  }

  /** The tiles the older `moveMerge` returns, in order. */
  function AccMergeLine(ts: seq<Tile>): seq<Tile> {
    Pick(AccMerged(ts), AccKept(ts))
  }

  /** The tile a group leaves in the output: its first tile, with the group's value. */
  function AccSurvivor(ts: seq<Tile>, g: Group): Tile
    requires End(g) <= |ts|
  {
    match g
    case Single(a) => ts[a]
    case Pair(a) => ts[a].(value := ts[a].value * 2)
  }

  /** Merges only touch their own group, so tiles from n on are untouched when every group ends by n. */
  lemma {:induction false} AccFuseAllFrame(ts: seq<Tile>, gs: seq<Group>, n: nat)
    requires n <= |ts| && forall k :: 0 <= k < |gs| ==> End(gs[k]) <= n
    ensures forall i :: n <= i < |ts| ==> AccFuseAll(ts, gs)[i] == ts[i]
    decreases |gs|
  {
    if gs != [] {
      AccFuseAllFrame(ts, gs[..|gs| - 1], n);
    }
  }

  /** With groups in order, each tile ends up as its own group's merge made it. */
  lemma {:induction false} AccFuseAllAt(ts: seq<Tile>, gs: seq<Group>, k: nat, i: nat)
    requires forall m :: 0 <= m < |gs| ==> End(gs[m]) <= |ts|
    requires forall m, l :: 0 <= m < l < |gs| ==> End(gs[m]) <= gs[l].at
    requires k < |gs| && gs[k].at <= i < End(gs[k])
    ensures AccFuseAll(ts, gs)[i] == AccFuse(ts, gs[k])[i]
    decreases |gs|
  {
    var n := |gs| - 1;
    var rest := gs[..n];
    AccFuseAllFrame(ts, rest, gs[n].at);
    if k < n {
      AccFuseAllAt(ts, rest, k, i);
    }
  }

  /** Appending a group to the groups read so far applies its merge last and keeps its first tile. */
  lemma AccFuseAllSnoc(ts: seq<Tile>, gs: seq<Group>, g: Group)
    requires End(g) <= |ts| && forall k :: 0 <= k < |gs| ==> End(gs[k]) <= |ts|
    ensures AccFuseAll(ts, gs + [g]) == AccFuse(AccFuseAll(ts, gs), g)
    ensures Firsts(gs + [g]) == Firsts(gs) + [g.at]
  {
    assert (gs + [g])[..|gs|] == gs;
  }

  /** A trailing single after groups that end before it is untouched by their merges. */
  lemma AccTrailingSingle(ts: seq<Tile>, gs: seq<Group>)
    requires gs != [] && forall k :: 0 <= k < |gs| ==> End(gs[k]) <= |ts|
    requires gs[|gs| - 1].Single? && forall k :: 0 <= k < |gs| - 1 ==> End(gs[k]) <= gs[|gs| - 1].at
    ensures AccFuseAll(ts, gs)[gs[|gs| - 1].at] == ts[gs[|gs| - 1].at]
  {
    var n := |gs| - 1;
    AccFuseAllFrame(ts, gs[..n], gs[n].at);
  }

  /**
   * One step of the older loop on values: after tiles 0 .. j-1 tile j is
   * untouched, and a trailing single is tile j - 1, also untouched.
   */
  lemma AccSweepStep(ts: seq<Tile>, j: nat)
    requires j < |ts|
    ensures var gs := Groups(Values(ts)[..j], 0);
      && (forall k :: 0 <= k < |gs| ==> End(gs[k]) <= j)
      && AccFuseAll(ts, gs)[j] == ts[j]
      && (gs != [] && gs[|gs| - 1].Single? ==>
            && gs[|gs| - 1] == Single(j - 1)
            && AccFuseAll(ts, gs)[j - 1] == ts[j - 1])
  {
    AccStepOf(ts, j, Groups(Values(ts)[..j], 0));
  }

  /** AccSweepStep for any tiling of the first j values. */
  lemma AccStepOf(ts: seq<Tile>, j: nat, gs: seq<Group>)
    requires j < |ts| && Tiling(Values(ts)[..j], 0, gs)
    ensures forall k :: 0 <= k < |gs| ==> End(gs[k]) <= j
    ensures AccFuseAll(ts, gs)[j] == ts[j]
    ensures gs != [] && gs[|gs| - 1].Single? ==>
      && gs[|gs| - 1] == Single(j - 1)
      && AccFuseAll(ts, gs)[j - 1] == ts[j - 1]
  {
    TilingFacts(Values(ts)[..j], 0, gs);
    AccFuseAllFrame(ts, gs, j);
    if gs != [] && gs[|gs| - 1].Single? {
      AccTrailingSingle(ts, gs);
    }
  }

  /** The merge branch of the older loop: the trailing single pairs with tile j and stays in the output. */
  lemma AccSweepMerge(ts: seq<Tile>, j: nat, gs: seq<Group>)
    requires j < |ts| && gs == Groups(Values(ts)[..j], 0)
    requires gs != [] && gs[|gs| - 1].Single? && AccFuseAll(ts, gs)[j - 1].value == ts[j].value
    ensures gs[|gs| - 1] == Single(j - 1)
    ensures var next := gs[..|gs| - 1] + [Pair(j - 1)];
      && Groups(Values(ts)[..j + 1], 0) == next
      && (forall k :: 0 <= k < |next| ==> End(next[k]) <= j + 1)
      && AccFuseAll(ts, next) == AccFuse(AccFuseAll(ts, gs), Pair(j - 1))
      && Firsts(next) == Firsts(gs)
  {
    AccSweepStep(ts, j);
    GroupsSnoc(Values(ts), 0, j);
    AccPairUp(ts, j, gs);
  }

  /** Pairing the trailing single j - 1 with tile j: its merge is applied last, and the kept tiles follow. */
  lemma AccPairUp(ts: seq<Tile>, j: nat, gs: seq<Group>)
    requires 0 < j < |ts| && gs != [] && gs[|gs| - 1] == Single(j - 1)
    requires forall k :: 0 <= k < |gs| ==> End(gs[k]) <= j
    ensures var next := gs[..|gs| - 1] + [Pair(j - 1)];
      && (forall k :: 0 <= k < |next| ==> End(next[k]) <= j + 1)
      && AccFuseAll(ts, next) == AccFuse(AccFuseAll(ts, gs), Pair(j - 1))
      && Firsts(next) == Firsts(gs)
  {
    var rest := gs[..|gs| - 1];
    assert gs == rest + [Single(j - 1)];
    AccFuseAllSnoc(ts, rest, Single(j - 1));
    AccFuseAllSnoc(ts, rest, Pair(j - 1));
  }

  /** The append branch of the older loop: tile j starts a group of its own. */
  lemma AccSweepPush(ts: seq<Tile>, j: nat, gs: seq<Group>)
    requires j < |ts| && gs == Groups(Values(ts)[..j], 0)
    requires gs != [] && gs[|gs| - 1].Single? ==> AccFuseAll(ts, gs)[j - 1].value != ts[j].value
    ensures gs != [] && gs[|gs| - 1].Single? ==> gs[|gs| - 1] == Single(j - 1)
    ensures var next := gs + [Single(j)];
      && Groups(Values(ts)[..j + 1], 0) == next
      && (forall k :: 0 <= k < |next| ==> End(next[k]) <= j + 1)
      && AccFuseAll(ts, next) == AccFuseAll(ts, gs)
      && Firsts(next) == Firsts(gs) + [j]
  {
    AccSweepPushGroups(ts, j, gs);
    AccFuseAllSnoc(ts, gs, Single(j));
  }

  /** The pairing part of AccSweepPush: a trailing single is tile j - 1, and tile j starts a group of its own. */
  lemma AccSweepPushGroups(ts: seq<Tile>, j: nat, gs: seq<Group>)
    requires j < |ts| && gs == Groups(Values(ts)[..j], 0)
    requires gs != [] && gs[|gs| - 1].Single? ==> AccFuseAll(ts, gs)[j - 1].value != ts[j].value
    ensures gs != [] && gs[|gs| - 1].Single? ==> gs[|gs| - 1] == Single(j - 1)
    ensures Groups(Values(ts)[..j + 1], 0) == gs + [Single(j)]
  {
    AccSweepStep(ts, j);
    PushGroups(ts, j, gs);
  }

  /** One iteration of the older loop, on tile i: the last output tile doubles, or tile i is appended. */
  function AccNext(s: Sweep, i: nat): (r: Sweep)
    requires i < |s.tiles| && Below(s.out, |s.tiles|) && (!s.merged ==> s.out != [])
    ensures |r.tiles| == |s.tiles| && Below(r.out, |s.tiles|) && (!r.merged ==> r.out != [])
  {
    if !s.merged && s.tiles[s.out[|s.out| - 1]].value == s.tiles[i].value then
      var o := s.out[|s.out| - 1];
      Sweep(s.tiles[o := s.tiles[o].(value := s.tiles[o].value * 2)], s.out, true)
    else
      Sweep(s.tiles, s.out + [i], false)
  }

  /** The older loop after its first j iterations. */
  function AccSweepTo(ts: seq<Tile>, j: nat): (s: Sweep)
    requires j <= |ts|
    ensures |s.tiles| == |ts| && Below(s.out, j)
    ensures !s.merged ==> s.out != [] && s.out[|s.out| - 1] == j - 1
  {
    if j == 0 then Sweep(ts, [], true) else AccNext(AccSweepTo(ts, j - 1), j - 1)
  }

  /** The loop state that the groups gs describe: their merges applied, their first tiles kept. */
  function AccSweepOf(ts: seq<Tile>, gs: seq<Group>): Sweep
    requires forall k :: 0 <= k < |gs| ==> End(gs[k]) <= |ts|
  {
    Sweep(AccFuseAll(ts, gs), Firsts(gs), gs == [] || gs[|gs| - 1].Pair?)
  }

  /** The merge branch of one iteration pairs the trailing single of gs. */
  lemma AccNextMerge(ts: seq<Tile>, j: nat, gs: seq<Group>, next: seq<Group>)
    requires j < |ts| && forall k :: 0 <= k < |gs| ==> End(gs[k]) <= j
    requires 0 < j && gs != [] && gs[|gs| - 1] == Single(j - 1)
    requires AccFuseAll(ts, gs)[j - 1].value == AccFuseAll(ts, gs)[j].value
    requires next == gs[..|gs| - 1] + [Pair(j - 1)]
    requires AccFuseAll(ts, next) == AccFuse(AccFuseAll(ts, gs), Pair(j - 1))
    requires Firsts(next) == Firsts(gs)
    ensures AccNext(AccSweepOf(ts, gs), j) == AccSweepOf(ts, next)
  {
    var s := AccSweepOf(ts, gs);
    assert s.out[|s.out| - 1] == j - 1;
  }

  /** The append branch turns the state of gs into the state of gs followed by a single. */
  lemma AccNextPush(ts: seq<Tile>, j: nat, gs: seq<Group>)
    requires j < |ts| && forall k :: 0 <= k < |gs| ==> End(gs[k]) <= j
    requires gs != [] && gs[|gs| - 1].Single? ==>
      0 < j && gs[|gs| - 1] == Single(j - 1) && AccFuseAll(ts, gs)[j - 1].value != AccFuseAll(ts, gs)[j].value
    ensures AccNext(AccSweepOf(ts, gs), j) == Sweep(AccFuseAll(ts, gs), Firsts(gs) + [j], false)
  {
    var s := AccSweepOf(ts, gs);
    if !s.merged {
      assert s.out[|s.out| - 1] == j - 1;
    }
    AccNextAppends(s, j);
  }

  /** The older state of gs followed by a single j: the merges of gs, their first tiles and then j, and not merged. */
  lemma AccSweepOfSingle(ts: seq<Tile>, gs: seq<Group>, j: nat)
    requires j < |ts| && forall k :: 0 <= k < |gs| ==> End(gs[k]) <= j
    requires AccFuseAll(ts, gs + [Single(j)]) == AccFuseAll(ts, gs)
    requires Firsts(gs + [Single(j)]) == Firsts(gs) + [j]
    ensures AccSweepOf(ts, gs + [Single(j)]) == Sweep(AccFuseAll(ts, gs), Firsts(gs) + [j], false)
  {
    assert (gs + [Single(j)])[|gs|] == Single(j);
  }

  /** When the last output tile has merged already or differs from tile i, an older iteration appends i. */
  lemma AccNextAppends(s: Sweep, i: nat)
    requires i < |s.tiles| && Below(s.out, |s.tiles|) && (!s.merged ==> s.out != [])
    requires !s.merged ==> s.tiles[s.out[|s.out| - 1]].value != s.tiles[i].value
    ensures AccNext(s, i) == Sweep(s.tiles, s.out + [i], false)
  {
  }

  /** The older loop computes the greedy pairing too: after j tiles its state is that of the pairing of the prefix. */
  lemma {:induction false} AccSweepIsGroups(ts: seq<Tile>, j: nat)
    requires j <= |ts|
    ensures var gs := Groups(Values(ts)[..j], 0);
      && (forall k :: 0 <= k < |gs| ==> End(gs[k]) <= j)
      && AccSweepTo(ts, j) == AccSweepOf(ts, gs)
  {
    if j > 0 {
      var i := j - 1;
      AccSweepIsGroups(ts, i);
      var prev := Groups(Values(ts)[..i], 0);
      AccSweepStep(ts, i);
      if prev != [] && prev[|prev| - 1].Single? && AccFuseAll(ts, prev)[i - 1].value == ts[i].value {
        AccSweepMerge(ts, i, prev);
        AccNextMerge(ts, i, prev, prev[..|prev| - 1] + [Pair(i - 1)]);
      } else {
        AccSweepPush(ts, i, prev);
        AccNextPush(ts, i, prev);
        AccSweepOfSingle(ts, prev, i);
      }
    }
  }

  /** After the whole line the older loop has produced AccMerged and AccKept. */
  lemma AccSweepResult(ts: seq<Tile>)
    ensures AccSweepTo(ts, |ts|).tiles == AccMerged(ts) && AccSweepTo(ts, |ts|).out == AccKept(ts)
  {
    AccSweepIsGroups(ts, |ts|);
    assert Values(ts)[..|ts|] == Values(ts);
  }

  /** Tile i of group k after the pass is what that group's merge made of it. */
  lemma AccMergedAt(ts: seq<Tile>, k: nat, i: nat)
    requires k < |LineGroups(ts)| && LineGroups(ts)[k].at <= i < End(LineGroups(ts)[k])
    ensures AccMerged(ts)[i] == AccFuse(ts, LineGroups(ts)[k])[i]
  {
    var gs := LineGroups(ts);
    TilingFacts(Values(ts), 0, gs);
    AccFuseAllAt(ts, gs, k, i);
  }

  /**
   * The older `moveMerge` returns one tile per group of the greedy pairing:
   * the output is shorter by the number of merges, and its k-th tile is the
   * first tile of the k-th group with the group's value.
   */
  lemma AccMergeLineSpec(ts: seq<Tile>)
    ensures |AccMergeLine(ts)| == |LineGroups(ts)| == |ts| - Pairs(LineGroups(ts))
    ensures forall k :: 0 <= k < |LineGroups(ts)| ==> AccMergeLine(ts)[k] == AccSurvivor(ts, LineGroups(ts)[k])
  {
    GroupsCount(Values(ts), 0);
    forall k | 0 <= k < |LineGroups(ts)| ensures AccMergeLine(ts)[k] == AccSurvivor(ts, LineGroups(ts)[k]) {
      AccMergedAt(ts, k, LineGroups(ts)[k].at);
    }
  }

  /** On a merge the accumulator survives with twice its value, and the incoming tile is neither changed nor kept. */
  lemma AccMergeLineage(ts: seq<Tile>, k: nat)
    requires k < |LineGroups(ts)| && LineGroups(ts)[k].Pair?
    ensures var a := LineGroups(ts)[k].at;
      && AccMergeLine(ts)[k] == ts[a].(value := ts[a].value * 2)
      && AccMerged(ts)[a + 1] == ts[a + 1]
      && a + 1 !in AccKept(ts)
      && ts[a].value == ts[a + 1].value
  {
    var gs := LineGroups(ts);
    PairInside(Values(ts), gs, k);
    assert Forced(Values(ts), gs[k].at, gs[k]) by {
      TilingFacts(Values(ts), 0, gs);
    }
    assert AccMergeLine(ts)[k] == AccSurvivor(ts, gs[k]) by {
      AccMergeLineSpec(ts);
    }
    AccMergedAt(ts, k, gs[k].at + 1);
  }

  /** The value a group leaves behind is the sum of its tiles' values. */
  lemma AccSurvivorValue(ts: seq<Tile>, g: Group)
    requires End(g) <= |ts| && Forced(Values(ts), g.at, g)
    ensures AccSurvivor(ts, g).value == GroupValue(Values(ts), g)
  {
  }

  /** The values the older `moveMerge` returns are the group sums of the greedy pairing, so their total is conserved. */
  lemma AccMergeLineValues(ts: seq<Tile>)
    ensures Values(AccMergeLine(ts)) == GroupValues(Values(ts), LineGroups(ts))
    ensures Sum(Values(AccMergeLine(ts))) == Sum(Values(ts))
  {
    AccMergeLineSpec(ts);
    AccSurvivorValues(ts, LineGroups(ts), AccMergeLine(ts));
  }

  /** In any line, an older-engine output tile carries one input value, or twice a value equal to its neighbour's. */
  lemma AccMergeOnce(ts: seq<Tile>)
    ensures forall k :: 0 <= k < |AccMergeLine(ts)| ==> AtMostOneMerge(Values(ts), AccMergeLine(ts)[k].value)
  {
    var out, gs := AccMergeLine(ts), LineGroups(ts);
    AccMergeLineValues(ts);
    GroupValuesOnce(Values(ts), gs);
    forall k | 0 <= k < |out| ensures AtMostOneMerge(Values(ts), out[k].value) {
      assert out[k].value == Values(out)[k] == GroupValue(Values(ts), gs[k]);
    }
  }

  /** The older survivors of any tiling of a line carry the group sums, and their total is the line's. */
  lemma AccSurvivorValues(ts: seq<Tile>, gs: seq<Group>, out: seq<Tile>)
    requires Tiling(Values(ts), 0, gs) && |out| == |gs|
    requires forall k :: 0 <= k < |gs| ==> End(gs[k]) <= |ts| && out[k] == AccSurvivor(ts, gs[k])
    ensures Values(out) == GroupValues(Values(ts), gs)
    ensures Sum(Values(out)) == Sum(Values(ts))
  {
    var vs := Values(ts);
    TilingFacts(vs, 0, gs);
    var mv, gv := Values(out), GroupValues(vs, gs);
    forall k | 0 <= k < |gs| ensures mv[k] == gv[k] {
      AccSurvivorValue(ts, gs[k]);
    }
    assert mv == gv;
    TilingSum(vs, 0, gs);
    assert vs[0..] == vs;
  }

  /** Surviving tiles keep their order, and the first tile of the line is always kept. */
  lemma AccKeptOrder(ts: seq<Tile>)
    ensures Increasing(AccKept(ts))
    ensures ts == [] <==> AccKept(ts) == []
    ensures ts != [] ==> AccKept(ts)[0] == 0
  {
    TilingOrder(Values(ts), LineGroups(ts));
  }
}
