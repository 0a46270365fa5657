// The newer engine's `moveMerge` (src/app/gameUI.tsx) on tile values: the
// greedy pairing of equal neighbours, where on a merge the incoming tile
// doubles, records the absorbed tile's id and takes its place in the output.
// The method of module GameUIMerge is proved against these functions.
module GameRules {
  import opened Seqs
  import opened Sorting
  import opened Pairing
  import opened Grid
  import opened Tiles

  /** The greedy pairing of a line's values, front to back. */
  function LineGroups(ts: seq<Tile>): (gs: seq<Group>)
    ensures forall k :: 0 <= k < |gs| ==> End(gs[k]) <= |ts|
  {
    Groups(Values(ts), 0)
  }

  /** What one merge does to its two tiles: both double, and each records the other's id. */
  function Fuse(ts: seq<Tile>, g: Group): (r: seq<Tile>)
    requires End(g) <= |ts|
    ensures |r| == |ts|
    ensures forall k :: 0 <= k < |ts| && (k < g.at || End(g) <= k) ==> r[k] == ts[k]
  {
    match g
    case Single(_) => ts
    case Pair(a) =>
      ts[a := ts[a].(value := ts[a].value * 2, fusedWith := ts[a + 1].id)]
        [a + 1 := ts[a + 1].(value := ts[a + 1].value * 2, fusedWith := ts[a].id)]
  }

  /** The merges of gs, applied in order. */
  function FuseAll(ts: seq<Tile>, gs: seq<Group>): (r: seq<Tile>)
    requires forall k :: 0 <= k < |gs| ==> End(gs[k]) <= |ts|
    ensures |r| == |ts|
  {
    if gs == [] then ts else Fuse(FuseAll(ts, gs[..|gs| - 1]), gs[|gs| - 1])
  }

  /** Every tile of the line after `moveMerge`, the absorbed ones included. */
  function Merged(ts: seq<Tile>): (r: seq<Tile>)
    ensures |r| == |ts|
  {
    FuseAll(ts, LineGroups(ts))
  }

  /** Which tiles `moveMerge` returns: the last tile of every group. */
  function Kept(ts: seq<Tile>): (r: seq<nat>)
    ensures Below(r, |ts|)
  {
    Lasts(LineGroups(ts))
  }

  /** The tiles `moveMerge` returns, in order. */
  function MergeLine(ts: seq<Tile>): seq<Tile> {
    Pick(Merged(ts), Kept(ts))
  }

  /**
   * The tile a group leaves in the output: a single tile as it was, or the
   * incoming tile of a pair with twice its value and the absorbed tile's id.
   */
  function Survivor(ts: seq<Tile>, g: Group): Tile
    requires End(g) <= |ts|
  {
    match g
    case Single(a) => ts[a]
    case Pair(a) => ts[a + 1].(value := ts[a + 1].value * 2, fusedWith := ts[a].id)
  }

  /** Merges only touch their own group, so tiles from n on are untouched when every group ends by n. */
  lemma {:induction false} FuseAllFrame(ts: seq<Tile>, gs: seq<Group>, n: nat)
    requires n <= |ts| && forall k :: 0 <= k < |gs| ==> End(gs[k]) <= n
    ensures forall i :: n <= i < |ts| ==> FuseAll(ts, gs)[i] == ts[i]
    decreases |gs|
  {
    if gs != [] {
      FuseAllFrame(ts, gs[..|gs| - 1], n);
    }
  }

  /** With groups in order, each tile ends up as its own group's merge made it. */
  lemma {:induction false} FuseAllAt(ts: seq<Tile>, gs: seq<Group>, k: nat, i: nat)
    requires forall m :: 0 <= m < |gs| ==> End(gs[m]) <= |ts|
    requires forall m, l :: 0 <= m < l < |gs| ==> End(gs[m]) <= gs[l].at
    requires k < |gs| && gs[k].at <= i < End(gs[k])
    ensures FuseAll(ts, gs)[i] == Fuse(ts, gs[k])[i]
    decreases |gs|
  {
    var n := |gs| - 1;
    var rest := gs[..n];
    FuseAllFrame(ts, rest, gs[n].at);
    if k < n {
      FuseAllAt(ts, rest, k, i);
    }
  }

  /**
   * One step of the `moveMerge` loop on values: after tiles 0 .. j-1 the
   * groups read so far are those of the prefix; the state tells whether the
   * last output tile may still merge, and the tiles it compares are untouched.
   */
  lemma SweepStep(ts: seq<Tile>, j: nat)
    requires j < |ts|
    ensures var gs := Groups(Values(ts)[..j], 0);
      && (forall k :: 0 <= k < |gs| ==> End(gs[k]) <= j)
      && FuseAll(ts, gs)[j] == ts[j]
      && (gs != [] && gs[|gs| - 1].Single? ==>
            && gs[|gs| - 1] == Single(j - 1)
            && FuseAll(ts, gs)[j - 1] == ts[j - 1])
  {
    StepOf(ts, j, Groups(Values(ts)[..j], 0));
  }

  /** SweepStep for any tiling of the first j values. */
  lemma StepOf(ts: seq<Tile>, j: nat, gs: seq<Group>)
    requires j < |ts| && Tiling(Values(ts)[..j], 0, gs)
    ensures forall k :: 0 <= k < |gs| ==> End(gs[k]) <= j
    ensures FuseAll(ts, gs)[j] == ts[j]
    ensures gs != [] && gs[|gs| - 1].Single? ==>
      && gs[|gs| - 1] == Single(j - 1)
      && FuseAll(ts, gs)[j - 1] == ts[j - 1]
  {
    TilingFacts(Values(ts)[..j], 0, gs);
    FuseAllFrame(ts, gs, j);
    if gs != [] && gs[|gs| - 1].Single? {
      var rest := gs[..|gs| - 1];
      FuseAllFrame(ts, rest, j - 1);
      assert FuseAll(ts, gs) == Fuse(FuseAll(ts, rest), gs[|gs| - 1]);
    }
  }

  /** The merge branch of the `moveMerge` loop: the trailing single pairs with tile j. */
  lemma SweepMerge(ts: seq<Tile>, j: nat, gs: seq<Group>)
    requires j < |ts| && gs == Groups(Values(ts)[..j], 0)
    requires gs != [] && gs[|gs| - 1].Single? && FuseAll(ts, gs)[j - 1].value == ts[j].value
    ensures gs[|gs| - 1] == Single(j - 1)
    ensures var next := gs[..|gs| - 1] + [Pair(j - 1)];
      && Groups(Values(ts)[..j + 1], 0) == next
      && (forall k :: 0 <= k < |next| ==> End(next[k]) <= j + 1)
      && FuseAll(ts, next) == Fuse(FuseAll(ts, gs), Pair(j - 1))
      && Lasts(next) == Lasts(gs)[..|gs| - 1] + [j]
  {
    SweepStep(ts, j);
    GroupsSnoc(Values(ts), 0, j);
    PairUp(ts, j, gs);
  }

  /** Pairing the trailing single j - 1 with tile j: its merge is applied last, and the kept tiles follow. */
  lemma PairUp(ts: seq<Tile>, j: nat, gs: seq<Group>)
    requires 0 < j < |ts| && gs != [] && gs[|gs| - 1] == Single(j - 1)
    requires forall k :: 0 <= k < |gs| ==> End(gs[k]) <= j
    ensures var next := gs[..|gs| - 1] + [Pair(j - 1)];
      && (forall k :: 0 <= k < |next| ==> End(next[k]) <= j + 1)
      && FuseAll(ts, next) == Fuse(FuseAll(ts, gs), Pair(j - 1))
      && Lasts(next) == Lasts(gs)[..|gs| - 1] + [j]
  {
    var rest := gs[..|gs| - 1];
    assert gs == rest + [Single(j - 1)];
    FuseAllSnoc(ts, rest, Single(j - 1));
    FuseAllSnoc(ts, rest, Pair(j - 1));
  }

  /** The append branch of the `moveMerge` loop: tile j starts a group of its own. */
  lemma SweepPush(ts: seq<Tile>, j: nat, gs: seq<Group>)
    requires j < |ts| && gs == Groups(Values(ts)[..j], 0)
    requires gs != [] && gs[|gs| - 1].Single? ==> FuseAll(ts, gs)[j - 1].value != ts[j].value
    ensures gs != [] && gs[|gs| - 1].Single? ==> gs[|gs| - 1] == Single(j - 1)
    ensures var next := gs + [Single(j)];
      && Groups(Values(ts)[..j + 1], 0) == next
      && (forall k :: 0 <= k < |next| ==> End(next[k]) <= j + 1)
      && FuseAll(ts, next) == FuseAll(ts, gs)
      && Lasts(next) == Lasts(gs) + [j]
  {
    SweepPushGroups(ts, j, gs);
    FuseAllSnoc(ts, gs, Single(j));
  }

  /** The pairing part of SweepPush: a trailing single is tile j - 1, and tile j starts a group of its own. */
  lemma SweepPushGroups(ts: seq<Tile>, j: nat, gs: seq<Group>)
    requires j < |ts| && gs == Groups(Values(ts)[..j], 0)
    requires gs != [] && gs[|gs| - 1].Single? ==> FuseAll(ts, gs)[j - 1].value != ts[j].value
    ensures gs != [] && gs[|gs| - 1].Single? ==> gs[|gs| - 1] == Single(j - 1)
    ensures Groups(Values(ts)[..j + 1], 0) == gs + [Single(j)]
  {
    SweepStep(ts, j);
    PushGroups(ts, j, gs);
  }

  /** Tile j starts a group of its own after a pair, or after a trailing single j - 1 of another value. */
  lemma PushGroups(ts: seq<Tile>, j: nat, gs: seq<Group>)
    requires j < |ts| && gs == Groups(Values(ts)[..j], 0)
    requires gs != [] && gs[|gs| - 1].Single? ==> 0 < j && ts[j - 1].value != ts[j].value
    ensures Groups(Values(ts)[..j + 1], 0) == gs + [Single(j)]
  {
    var vals := Values(ts);
    assert gs != [] && gs[|gs| - 1].Single? ==> vals[j - 1] != vals[j];
    GroupsPush(vals, j);
  }

  /** The state of the `moveMerge` loop: every tile, the output so far (as positions), and `alreadyMerged`. */
  datatype Sweep = Sweep(tiles: seq<Tile>, out: seq<nat>, merged: bool)

  /** The incoming tile i absorbs the output tile o: both double and record each other's id. */
  function Absorb(tiles: seq<Tile>, o: nat, i: nat): (r: seq<Tile>)
    requires o < |tiles| && i < |tiles|
    ensures |r| == |tiles|
  {
    tiles[o := tiles[o].(value := tiles[o].value * 2, fusedWith := tiles[i].id)]
      [i := tiles[i].(value := tiles[i].value * 2, fusedWith := tiles[o].id)]
  }

  /** One iteration of the `moveMerge` loop, on tile i. */
  function Next(s: Sweep, i: nat): (r: Sweep)
    requires i < |s.tiles| && Below(s.out, |s.tiles|) && (!s.merged ==> s.out != [])
    ensures |r.tiles| == |s.tiles| && Below(r.out, |s.tiles|) && (!r.merged ==> r.out != [])
  {
    if !s.merged && s.tiles[s.out[|s.out| - 1]].value == s.tiles[i].value then
      Sweep(Absorb(s.tiles, s.out[|s.out| - 1], i), s.out[|s.out| - 1 := i], true)
    else
      Sweep(s.tiles, s.out + [i], false)
  }

  /** The `moveMerge` loop after its first j iterations. */
  function SweepTo(ts: seq<Tile>, j: nat): (s: Sweep)
    requires j <= |ts|
    ensures |s.tiles| == |ts| && Below(s.out, j)
    ensures !s.merged ==> s.out != [] && s.out[|s.out| - 1] == j - 1
  {
    if j == 0 then Sweep(ts, [], true) else Next(SweepTo(ts, j - 1), j - 1)
  }

  /** The loop state that the groups gs describe: their merges applied, their last tiles kept. */
  function SweepOf(ts: seq<Tile>, gs: seq<Group>): Sweep
    requires forall k :: 0 <= k < |gs| ==> End(gs[k]) <= |ts|
  {
    Sweep(FuseAll(ts, gs), Lasts(gs), gs == [] || gs[|gs| - 1].Pair?)
  }

  /** The merge branch of one iteration turns the state of gs into the state of gs with its trailing single paired. */
  lemma NextMerge(ts: seq<Tile>, j: nat, gs: seq<Group>, next: seq<Group>)
    requires j < |ts| && forall k :: 0 <= k < |gs| ==> End(gs[k]) <= j
    requires 0 < j && gs != [] && gs[|gs| - 1] == Single(j - 1) && FuseAll(ts, gs)[j] == ts[j]
    requires FuseAll(ts, gs)[j - 1].value == ts[j].value
    requires next == gs[..|gs| - 1] + [Pair(j - 1)]
    requires FuseAll(ts, next) == Fuse(FuseAll(ts, gs), Pair(j - 1))
    requires Lasts(next) == Lasts(gs)[..|gs| - 1] + [j]
    ensures Next(SweepOf(ts, gs), j) == SweepOf(ts, next)
  {
    var s := SweepOf(ts, gs);
    assert s.out[|s.out| - 1] == j - 1;
  }

  /** The append branch turns the state of gs into the state of gs followed by a single. */
  lemma NextPush(ts: seq<Tile>, j: nat, gs: seq<Group>)
    requires j < |ts| && forall k :: 0 <= k < |gs| ==> End(gs[k]) <= j
    requires FuseAll(ts, gs)[j] == ts[j]
    requires gs != [] && gs[|gs| - 1].Single? ==>
      0 < j && gs[|gs| - 1] == Single(j - 1) && FuseAll(ts, gs)[j - 1].value != ts[j].value
    ensures Next(SweepOf(ts, gs), j) == Sweep(FuseAll(ts, gs), Lasts(gs) + [j], false)
  {
    var s := SweepOf(ts, gs);
    if !s.merged {
      assert s.out[|s.out| - 1] == j - 1;
    }
    NextAppends(s, j);
  }

  /** The state of gs followed by a single j: the merges of gs, their last tiles and then j, and not merged. */
  lemma SweepOfSingle(ts: seq<Tile>, gs: seq<Group>, j: nat)
    requires j < |ts| && forall k :: 0 <= k < |gs| ==> End(gs[k]) <= j
    requires FuseAll(ts, gs + [Single(j)]) == FuseAll(ts, gs)
    requires Lasts(gs + [Single(j)]) == Lasts(gs) + [j]
    ensures SweepOf(ts, gs + [Single(j)]) == Sweep(FuseAll(ts, gs), Lasts(gs) + [j], false)
  {
    assert (gs + [Single(j)])[|gs|] == Single(j);
  }

  /** When the last output tile has merged already or differs from tile i, an iteration appends i. */
  lemma NextAppends(s: Sweep, i: nat)
    requires i < |s.tiles| && Below(s.out, |s.tiles|) && (!s.merged ==> s.out != [])
    requires !s.merged ==> s.tiles[s.out[|s.out| - 1]].value != s.tiles[i].value
    ensures Next(s, i) == Sweep(s.tiles, s.out + [i], false)
  {
  }

  /**
   * The loop computes the greedy pairing: after j tiles its state is the
   * merges, survivors and trailing-pair flag of the pairing of the prefix.
   */
  lemma {:induction false} SweepIsGroups(ts: seq<Tile>, j: nat)
    requires j <= |ts|
    ensures var gs := Groups(Values(ts)[..j], 0);
      && (forall k :: 0 <= k < |gs| ==> End(gs[k]) <= j)
      && SweepTo(ts, j) == SweepOf(ts, gs)
  {
    if j > 0 {
      var i := j - 1;
      SweepIsGroups(ts, i);
      var prev := Groups(Values(ts)[..i], 0);
      SweepStep(ts, i);
      if prev != [] && prev[|prev| - 1].Single? && FuseAll(ts, prev)[i - 1].value == ts[i].value {
        SweepMerge(ts, i, prev);
        NextMerge(ts, i, prev, prev[..|prev| - 1] + [Pair(i - 1)]);
      } else {
        SweepPush(ts, i, prev);
        NextPush(ts, i, prev);
        SweepOfSingle(ts, prev, i);
      }
    }
  }

  /** After the whole line the loop has produced Merged and Kept. */
  lemma SweepResult(ts: seq<Tile>)
    ensures SweepTo(ts, |ts|).tiles == Merged(ts) && SweepTo(ts, |ts|).out == Kept(ts)
  {
    SweepIsGroups(ts, |ts|);
    assert Values(ts)[..|ts|] == Values(ts);
  }

  /** Appending a group to the groups read so far applies its merge last. */
  lemma FuseAllSnoc(ts: seq<Tile>, gs: seq<Group>, g: Group)
    requires End(g) <= |ts| && forall k :: 0 <= k < |gs| ==> End(gs[k]) <= |ts|
    ensures FuseAll(ts, gs + [g]) == Fuse(FuseAll(ts, gs), g)
    ensures Lasts(gs + [g]) == Lasts(gs) + [Last(g)]
  {
    assert (gs + [g])[..|gs|] == gs;
  }

  /**
   * `moveMerge` returns one tile per group of the greedy pairing: the output
   * is shorter by the number of merges, and its k-th tile is the survivor of
   * the k-th group.
   */
  lemma MergeLineSpec(ts: seq<Tile>)
    ensures |MergeLine(ts)| == |LineGroups(ts)| == |ts| - Pairs(LineGroups(ts))
    ensures forall k :: 0 <= k < |LineGroups(ts)| ==> MergeLine(ts)[k] == Survivor(ts, LineGroups(ts)[k])
  {
    GroupsCount(Values(ts), 0);
    forall k | 0 <= k < |LineGroups(ts)| ensures MergeLine(ts)[k] == Survivor(ts, LineGroups(ts)[k]) {
      MergedAt(ts, k, Last(LineGroups(ts)[k]));
    }
  }

  /** Tile i of group k after the pass is what that group's merge made of it. */
  lemma MergedAt(ts: seq<Tile>, k: nat, i: nat)
    requires k < |LineGroups(ts)| && LineGroups(ts)[k].at <= i < End(LineGroups(ts)[k])
    ensures Merged(ts)[i] == Fuse(ts, LineGroups(ts)[k])[i]
  {
    var gs := LineGroups(ts);
    TilingFacts(Values(ts), 0, gs);
    FuseAllAt(ts, gs, k, i);
  }

  /**
   * On a merge the incoming tile survives with twice its value and the
   * absorbed tile's id; the absorbed tile is doubled too, records the
   * survivor's id, and is not kept.
   */
  lemma MergeLineage(ts: seq<Tile>, k: nat)
    requires k < |LineGroups(ts)| && LineGroups(ts)[k].Pair?
    ensures var a := LineGroups(ts)[k].at;
      && Merged(ts)[a] == ts[a].(value := ts[a].value * 2, fusedWith := ts[a + 1].id)
      && MergeLine(ts)[k] == ts[a + 1].(value := ts[a + 1].value * 2, fusedWith := ts[a].id)
      && ts[a].value == ts[a + 1].value
      && a !in Kept(ts)
  {
    var gs := LineGroups(ts);
    PairInside(Values(ts), gs, k);
    assert Forced(Values(ts), gs[k].at, gs[k]) by {
      TilingFacts(Values(ts), 0, gs);
    }
    assert MergeLine(ts)[k] == Survivor(ts, gs[k]) by {
      MergeLineSpec(ts);
    }
    MergedAt(ts, k, gs[k].at);
  }

  /** The value a group leaves behind is the sum of its tiles' values. */
  lemma SurvivorValue(ts: seq<Tile>, g: Group)
    requires End(g) <= |ts| && Forced(Values(ts), g.at, g)
    ensures Survivor(ts, g).value == GroupValue(Values(ts), g)
  {
  }

  /** The values `moveMerge` returns are the group sums of the greedy pairing, so their total is conserved. */
  lemma MergeLineValues(ts: seq<Tile>)
    ensures Values(MergeLine(ts)) == GroupValues(Values(ts), LineGroups(ts))
    ensures Sum(Values(MergeLine(ts))) == Sum(Values(ts))
  {
    MergeLineSpec(ts);
    SurvivorValues(ts, LineGroups(ts), MergeLine(ts));
  }

  /** The survivors of any tiling of a line carry the group sums, and their total is the line's. */
  lemma SurvivorValues(ts: seq<Tile>, gs: seq<Group>, out: seq<Tile>)
    requires Tiling(Values(ts), 0, gs) && |out| == |gs|
    requires forall k :: 0 <= k < |gs| ==> End(gs[k]) <= |ts| && out[k] == Survivor(ts, gs[k])
    ensures Values(out) == GroupValues(Values(ts), gs)
    ensures Sum(Values(out)) == Sum(Values(ts))
  {
    var vs := Values(ts);
    TilingFacts(vs, 0, gs);
    var mv, gv := Values(out), GroupValues(vs, gs);
    forall k | 0 <= k < |gs| ensures mv[k] == gv[k] {
      SurvivorValue(ts, gs[k]);
    }
    assert mv == gv;
    TilingSum(vs, 0, gs);
    assert vs[0..] == vs;
  }

  /** Surviving tiles keep their order: the kept positions increase, and the first group starts at the first tile. */
  lemma KeptOrder(ts: seq<Tile>)
    ensures Increasing(Kept(ts))
    ensures ts == [] <==> Kept(ts) == []
    ensures ts != [] ==> LineGroups(ts)[0].at == 0 && Kept(ts)[0] <= 1
  {
    TilingOrder(Values(ts), LineGroups(ts));
  }

  /** A merged tile never merges again: three equal tiles give two, four give two. */
  lemma NoDoubleMerge(a: Tile, b: Tile, c: Tile, d: Tile)
    requires a.value == b.value == c.value == d.value
    ensures Values(MergeLine([a, b, c])) == [2 * a.value, a.value]
    ensures Values(MergeLine([a, b, c, d])) == [2 * a.value, 2 * a.value]
  {
    ThreeEqualMerge(a, b, c);
    FourEqualMerge(a, b, c, d);
  }

  /**
   * In any line, a tile of `moveMerge`'s output carries the value of one
   * input tile, or twice the value of an input tile equal to its neighbour:
   * no tile merges twice in one pass.
   */
  lemma MergeOnce(ts: seq<Tile>)
    ensures forall k :: 0 <= k < |MergeLine(ts)| ==> AtMostOneMerge(Values(ts), MergeLine(ts)[k].value)
  {
    var out, gs := MergeLine(ts), LineGroups(ts);
    MergeLineValues(ts);
    GroupValuesOnce(Values(ts), gs);
    forall k | 0 <= k < |out| ensures AtMostOneMerge(Values(ts), out[k].value) {
      assert out[k].value == Values(out)[k] == GroupValue(Values(ts), gs[k]);
    }
  }

  /** Three equal tiles merge into a doubled tile followed by the third. */
  lemma ThreeEqualMerge(a: Tile, b: Tile, c: Tile)
    requires a.value == b.value == c.value
    ensures Values(MergeLine([a, b, c])) == [2 * a.value, a.value]
  {
    var x, three := a.value, [a, b, c];
    assert Values(three) == [x, x, x];
    ThreeEqualGroups(x);
    EqualRunValues(three, [Pair(0), Single(2)]);
    assert GroupValues([x, x, x], [Pair(0), Single(2)]) == [2 * x, x];
  }

  /** Four equal tiles merge into two doubled tiles. */
  lemma FourEqualMerge(a: Tile, b: Tile, c: Tile, d: Tile)
    requires a.value == b.value == c.value == d.value
    ensures Values(MergeLine([a, b, c, d])) == [2 * a.value, 2 * a.value]
  {
    var x, four := a.value, [a, b, c, d];
    assert Values(four) == [x, x, x, x];
    FourEqualGroups(x);
    EqualRunValues(four, [Pair(0), Pair(2)]);
    assert GroupValues([x, x, x, x], [Pair(0), Pair(2)]) == [2 * x, 2 * x];
  }

  /** The greedy pairing of three equal values pairs the first two and leaves the third. */
  lemma ThreeEqualGroups(x: int)
    ensures Groups([x, x, x], 0) == [Pair(0), Single(2)]
  {
    GroupsUnfold([x, x, x], 0);
    GroupsUnfold([x, x, x], 2);
  }

  /** The greedy pairing of four equal values pairs them two by two. */
  lemma FourEqualGroups(x: int)
    ensures Groups([x, x, x, x], 0) == [Pair(0), Pair(2)]
  {
    GroupsUnfold([x, x, x, x], 0);
    GroupsUnfold([x, x, x, x], 2);
  }

  /** A line whose pairing is gs merges into one tile per group, carrying the group's sum. */
  lemma EqualRunValues(ts: seq<Tile>, gs: seq<Group>)
    requires LineGroups(ts) == gs
    ensures Values(MergeLine(ts)) == GroupValues(Values(ts), gs)
  {
    MergeLineValues(ts);
  }
}
