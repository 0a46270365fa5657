// The reference definition of a 2048 line reduction, independent of the
// loops in gameUI.tsx and page.tsx: read the line front to back and pair
// each tile with the next one when their values are equal, so that every
// tile belongs to exactly one group and no group holds more than two tiles.
module Pairing {
  import opened Seqs

  /** Single(a) is tile a alone; Pair(a) is tiles a and a + 1 merged. */
  datatype Group = Single(at: nat) | Pair(at: nat)

  /** The last tile of a group, the one the newer engine keeps. */
  function Last(g: Group): nat {
    match g
    case Single(a) => a
    case Pair(a) => a + 1
  }

  /** The first tile after the group. */
  function End(g: Group): nat {
    Last(g) + 1
  }

  /** The group starting at tile j is the one the greedy rule forces there. */
  ghost predicate Forced(vals: seq<int>, j: nat, g: Group) {
    && g.at == j && End(g) <= |vals|
    && (g.Pair? ==> vals[j] == vals[j + 1])
    && (g.Single? ==> j + 1 == |vals| || vals[j] != vals[j + 1])
  }

  /**
   * gs cuts vals[j..] into consecutive groups, pairs equal neighbours, and
   * leaves a tile single only when it is last or differs from its neighbour.
   */
  ghost predicate Tiling(vals: seq<int>, j: nat, gs: seq<Group>)
    decreases |gs|
  {
    if gs == [] then j == |vals|
    else Forced(vals, j, gs[0]) && Tiling(vals, End(gs[0]), gs[1..])
  }

  /** The facts a tiling gives about each of its groups. */
  lemma {:induction false} TilingFacts(vals: seq<int>, j: nat, gs: seq<Group>)
    requires Tiling(vals, j, gs)
    ensures forall k :: 0 <= k < |gs| ==> j <= gs[k].at && Forced(vals, gs[k].at, gs[k])
    ensures forall k :: 0 <= k < |gs| - 1 ==> gs[k + 1].at == End(gs[k])
    ensures forall k, l :: 0 <= k < l < |gs| ==> End(gs[k]) <= gs[l].at
    ensures gs != [] ==> gs[0].at == j && End(gs[|gs| - 1]) == |vals|
    decreases |gs|
  {
    if gs != [] {
      TilingFacts(vals, End(gs[0]), gs[1..]);
    }
  }

  /** Greedy pairing of vals[j..], front to back. */
  function Groups(vals: seq<int>, j: nat): (gs: seq<Group>)
    requires j <= |vals|
    ensures Tiling(vals, j, gs)
    ensures forall k :: 0 <= k < |gs| ==> j <= gs[k].at && End(gs[k]) <= |vals|
    ensures gs == [] <==> j == |vals|
    decreases |vals| - j
  {
    if j == |vals| then []
    else if j + 1 < |vals| && vals[j] == vals[j + 1] then [Pair(j)] + Groups(vals, j + 2)
    else [Single(j)] + Groups(vals, j + 1)
  }

  /** The tiling of Groups is the only one: the pairing is forced at every step. */
  lemma {:induction false} TilingUnique(vals: seq<int>, j: nat, gs: seq<Group>, hs: seq<Group>)
    requires j <= |vals| && Tiling(vals, j, gs) && Tiling(vals, j, hs)
    ensures gs == hs
    decreases |vals| - j
  {
    if gs != [] {
      TilingUnique(vals, End(gs[0]), gs[1..], hs[1..]);
      assert gs == [gs[0]] + gs[1..] && hs == [hs[0]] + hs[1..];
    }
  }

  /** The greedy step at tile j: the group there, then the rest. */
  function Step(vals: seq<int>, j: nat): Group
    requires j < |vals|
  {
    if j + 1 < |vals| && vals[j] == vals[j + 1] then Pair(j) else Single(j)
  }

  lemma GroupsUnfold(vals: seq<int>, j: nat)
    requires j < |vals|
    ensures End(Step(vals, j)) <= |vals|
    ensures Groups(vals, j) == [Step(vals, j)] + Groups(vals, End(Step(vals, j)))
  {
  }

  /** The greedy pairing of `vals[..n + 1]` from j, in terms of that of `vals[..n]`. */
  function Extend(gs: seq<Group>, vals: seq<int>, n: nat): seq<Group>
    requires 0 < n < |vals|
  {
    if gs != [] && gs[|gs| - 1].Single? && vals[n - 1] == vals[n] then gs[..|gs| - 1] + [Pair(n - 1)]
    else gs + [Single(n)]
  }

  /**
   * Reading one more tile: the greedy pairing of a longer prefix differs from
   * the shorter one only at its end, where a trailing single either pairs with
   * the new tile or the new tile starts a group of its own.
   */
  lemma {:induction false} GroupsSnoc(vals: seq<int>, j: nat, n: nat)
    requires j <= n < |vals|
    ensures Groups(vals[..n + 1], j) == if n == 0 then [Single(0)] else Extend(Groups(vals[..n], j), vals, n)
    decreases n - j
  {
    var short, long := vals[..n], vals[..n + 1];
    if j == n {
      GroupsUnfold(long, n);
    } else if j + 1 == n {
      GroupsUnfold(short, j);
      GroupsUnfold(long, j);
      if vals[j] != vals[n] {
        GroupsUnfold(long, n);
      }
    } else {
      GroupsUnfold(short, j);
      GroupsUnfold(long, j);
      assert Step(short, j) == Step(long, j);
      var g := Step(short, j);
      GroupsSnoc(vals, End(g), n);
      ExtendCons(g, Groups(short, End(g)), vals, n);
    }
  }

  /** A value that differs from a trailing single, or follows a pair, starts a group of its own. */
  lemma GroupsPush(vals: seq<int>, j: nat)
    requires j < |vals|
    requires var gs := Groups(vals[..j], 0); gs != [] && gs[|gs| - 1].Single? ==> 0 < j && vals[j - 1] != vals[j]
    ensures Groups(vals[..j + 1], 0) == Groups(vals[..j], 0) + [Single(j)]
  {
    GroupsSnoc(vals, 0, j);
    if j == 0 {
      assert vals[..0] == [];
    }
  }

  lemma ExtendCons(g: Group, hs: seq<Group>, vals: seq<int>, n: nat)
    requires 0 < n < |vals| && (hs != [] || g.Pair?)
    ensures [g] + Extend(hs, vals, n) == Extend([g] + hs, vals, n)
  {
    var gs := [g] + hs;
    if hs != [] {
      assert gs[|gs| - 1] == hs[|hs| - 1];
      assert gs[..|gs| - 1] == [g] + hs[..|hs| - 1];
    }
  }

  /** The tiles the newer engine keeps, one per group. */
  function Lasts(gs: seq<Group>): (r: seq<nat>)
    ensures |r| == |gs| && forall k :: 0 <= k < |gs| ==> r[k] == Last(gs[k])
  {
    seq(|gs|, k requires 0 <= k < |gs| => Last(gs[k]))
  }

  /** The tiles the older engine keeps, one per group. */
  function Firsts(gs: seq<Group>): (r: seq<nat>)
    ensures |r| == |gs| && forall k :: 0 <= k < |gs| ==> r[k] == gs[k].at
  {
    seq(|gs|, k requires 0 <= k < |gs| => gs[k].at)
  }

  /** A tiling from 0 keeps groups in order and starts at the first tile. */
  lemma TilingOrder(vals: seq<int>, gs: seq<Group>)
    requires Tiling(vals, 0, gs)
    ensures Increasing(Lasts(gs)) && Increasing(Firsts(gs))
    ensures vals == [] <==> gs == []
    ensures gs != [] ==> gs[0].at == 0 && Lasts(gs)[0] <= 1
  {
    TilingFacts(vals, 0, gs);
  }

  /** The tile a pair absorbs is kept by neither engine: no other group starts or ends on it. */
  lemma PairInside(vals: seq<int>, gs: seq<Group>, k: nat)
    requires Tiling(vals, 0, gs) && k < |gs| && gs[k].Pair?
    ensures gs[k].at !in Lasts(gs) && gs[k].at + 1 !in Firsts(gs)
  {
    TilingFacts(vals, 0, gs);
    forall m | 0 <= m < |gs| ensures Lasts(gs)[m] != gs[k].at && Firsts(gs)[m] != gs[k].at + 1 {
      if m < k {
        assert End(gs[m]) <= gs[k].at;
      } else if k < m {
        assert End(gs[k]) <= gs[m].at;
      }
    }
  }

  function Pairs(gs: seq<Group>): nat {
    if gs == [] then 0 else (if gs[0].Pair? then 1 else 0) + Pairs(gs[1..])
  }

  /** The value a group becomes: its tiles' values added up. */
  function GroupValue(vals: seq<int>, g: Group): int
    requires End(g) <= |vals|
  {
    match g
    case Single(a) => vals[a]
    case Pair(a) => vals[a] + vals[a + 1]
  }

  function GroupValues(vals: seq<int>, gs: seq<Group>): (r: seq<int>)
    requires forall k :: 0 <= k < |gs| ==> End(gs[k]) <= |vals|
    ensures |r| == |gs| && forall k :: 0 <= k < |gs| ==> r[k] == GroupValue(vals, gs[k])
  {
    seq(|gs|, k requires 0 <= k < |gs| => GroupValue(vals, gs[k]))
  }

  /** v is a value of the line, or twice a value equal to its neighbour's: one merge at most went into it. */
  ghost predicate AtMostOneMerge(vals: seq<int>, v: int) {
    exists i :: 0 <= i < |vals| && (v == vals[i] || (i + 1 < |vals| && vals[i] == vals[i + 1] && v == 2 * vals[i]))
  }

  /** No group of a tiling merges more than once. */
  lemma GroupValuesOnce(vals: seq<int>, gs: seq<Group>)
    requires Tiling(vals, 0, gs)
    ensures forall k :: 0 <= k < |gs| ==> End(gs[k]) <= |vals| && AtMostOneMerge(vals, GroupValue(vals, gs[k]))
  {
    TilingFacts(vals, 0, gs);
    forall k | 0 <= k < |gs| ensures AtMostOneMerge(vals, GroupValue(vals, gs[k])) {
      var a := gs[k].at;
      assert a < |vals|;
    }
  }

  /** Every pair removes one tile from the line. */
  lemma {:induction false} GroupsCount(vals: seq<int>, j: nat)
    requires j <= |vals|
    ensures |Groups(vals, j)| == |vals| - j - Pairs(Groups(vals, j))
  {
    TilingCount(vals, j, Groups(vals, j));
  }

  /** Any tiling of vals[j..] has one group fewer than the tiles for every pair. */
  lemma {:induction false} TilingCount(vals: seq<int>, j: nat, gs: seq<Group>)
    requires j <= |vals| && Tiling(vals, j, gs)
    ensures |gs| == |vals| - j - Pairs(gs)
    decreases |gs|
  {
    if gs != [] {
      TilingCount(vals, End(gs[0]), gs[1..]);
    }
  }

  /** Grouping adds values up and loses none. */
  lemma {:induction false} TilingSum(vals: seq<int>, j: nat, gs: seq<Group>)
    requires j <= |vals| && Tiling(vals, j, gs)
    ensures forall k :: 0 <= k < |gs| ==> End(gs[k]) <= |vals|
    ensures Sum(GroupValues(vals, gs)) == Sum(vals[j..])
    decreases |gs|
  {
    if gs == [] {
      assert vals[j..] == [];
    } else {
      var e := End(gs[0]);
      TilingSum(vals, e, gs[1..]);
      var gv := GroupValues(vals, gs);
      assert gv[1..] == GroupValues(vals, gs[1..]);
      assert Sum(gv) == gv[0] + Sum(gv[1..]);
      assert vals[j..][1..] == vals[j + 1..];
      if gs[0].Pair? {
        assert vals[j + 1..][1..] == vals[e..];
      }
    }
  }
}
