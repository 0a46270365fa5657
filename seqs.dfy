// Sequence vocabulary shared by both engines: distinctness, selection by
// index lists, sums and concatenation of lines.
module Seqs {

  /** No element occurs twice (for objects: no aliasing inside the list). */
  predicate Distinct<T(==)>(s: seq<T>) {
    forall p, q :: 0 <= p < q < |s| ==> s[p] != s[q]
  }

  predicate Increasing(s: seq<int>) {
    forall p, q :: 0 <= p < q < |s| ==> s[p] < s[q]
  }

  /** Every index of the list addresses a sequence of length n. */
  predicate Below(idx: seq<nat>, n: int) {
    forall k :: 0 <= k < |idx| ==> idx[k] < n
  }

  /** The elements of s at the positions idx, in the order of idx. */
  function Pick<T>(s: seq<T>, idx: seq<nat>): (r: seq<T>)
    requires Below(idx, |s|)
    ensures |r| == |idx|
    ensures forall k :: 0 <= k < |idx| ==> r[k] == s[idx[k]]
  {
    seq(|idx|, k requires 0 <= k < |idx| => s[idx[k]])
  }

  /** Picking with rearranged positions picks a rearrangement. */
  lemma {:induction false} PickMultiset<T>(s: seq<T>, a: seq<nat>, b: seq<nat>)
    requires Below(a, |s|) && Below(b, |s|) && multiset(a) == multiset(b)
    ensures multiset(Pick(s, a)) == multiset(Pick(s, b))
    decreases |a|
  {
    if a == [] {
      assert |b| == |multiset(b)|;
    } else {
      assert a[0] in multiset(b);
      var i :| 0 <= i < |b| && b[i] == a[0];
      assert RemoveAt(a, 0) == a[1..];
      PickMultiset(s, a[1..], RemoveAt(b, i));
      PickRemoveAt(s, a, 0);
      PickRemoveAt(s, b, i);
    }
  }

  /** b without its entry at position i. */
  function RemoveAt<T>(b: seq<T>, i: nat): (r: seq<T>)
    requires i < |b|
    ensures |r| == |b| - 1 && multiset(r) == multiset(b) - multiset{b[i]}
  {
    assert b == b[..i] + [b[i]] + b[i + 1..];
    b[..i] + b[i + 1..]
  }

  /** Picking at all positions of b gives what picking without position i gives, plus the entry at b[i]. */
  lemma PickRemoveAt<T>(s: seq<T>, b: seq<nat>, i: nat)
    requires Below(b, |s|) && i < |b|
    ensures Below(RemoveAt(b, i), |s|)
    ensures multiset(Pick(s, b)) == multiset(Pick(s, RemoveAt(b, i))) + multiset{s[b[i]]}
  {
    var front, back := Pick(s, b[..i]), Pick(s, b[i + 1..]);
    assert Pick(s, b) == front + [s[b[i]]] + back;
    assert Pick(s, RemoveAt(b, i)) == front + back;
  }

  function Sum(s: seq<int>): int {
    if s == [] then 0 else s[0] + Sum(s[1..])
  }

  /** Concatenation of lines, line 0 first (JavaScript's `flat()`). */
  function Flatten<T>(ss: seq<seq<T>>): seq<T> {
    if ss == [] then [] else Flatten(ss[..|ss| - 1]) + ss[|ss| - 1]
  }

  lemma {:induction false} SumConcat(a: seq<int>, b: seq<int>)
    ensures Sum(a + b) == Sum(a) + Sum(b)
  {
    if a == [] {
      assert a + b == b;
    } else {
      assert (a + b)[1..] == a[1..] + b;
      SumConcat(a[1..], b);
    }
  }

  /** Every entry of a flattened list is an entry of one of its lines. */
  lemma {:induction false} FlattenMember<T>(ss: seq<seq<T>>, p: nat) returns (i: nat, k: nat)
    requires p < |Flatten(ss)|
    ensures i < |ss| && k < |ss[i]| && Flatten(ss)[p] == ss[i][k]
  {
    var n := |ss| - 1;
    var front := Flatten(ss[..n]);
    if p < |front| {
      i, k := FlattenMember(ss[..n], p);
      assert ss[..n][i] == ss[i];
    } else {
      i, k := n, p - |front|;
    }
  }

  /**
   * A relation that holds between earlier and later entries of every line,
   * and between any entry of a line and any entry of a later line, holds
   * between earlier and later entries of the flattened list.
   */
  lemma {:induction false} FlattenPairwise<T>(ss: seq<seq<T>>, R: (T, T) -> bool)
    requires forall i, k, l :: 0 <= i < |ss| && 0 <= k < l < |ss[i]| ==> R(ss[i][k], ss[i][l])
    requires forall i, j, k, l :: 0 <= i < j < |ss| && 0 <= k < |ss[i]| && 0 <= l < |ss[j]| ==> R(ss[i][k], ss[j][l])
    ensures forall p, q :: 0 <= p < q < |Flatten(ss)| ==> R(Flatten(ss)[p], Flatten(ss)[q])
  {
    if ss != [] {
      var n := |ss| - 1;
      var front, f := Flatten(ss[..n]), Flatten(ss);
      assert forall i :: 0 <= i < n ==> ss[..n][i] == ss[i];
      FlattenPairwise(ss[..n], R);
      forall p, q | 0 <= p < q < |f| ensures R(f[p], f[q]) {
        if q < |front| {
          assert f[p] == front[p] && f[q] == front[q];
        } else if |front| <= p {
          assert f[p] == ss[n][p - |front|] && f[q] == ss[n][q - |front|];
        } else {
          var i, k := FlattenMember(ss[..n], p);
          assert f[p] == ss[i][k] && f[q] == ss[n][q - |front|];
        }
      }
    }
  }

  /** Flattening lines that are each no longer gives a list that is no longer, and shorter when one line is. */
  lemma {:induction false} FlattenShorter<T, U>(ss: seq<seq<T>>, tt: seq<seq<U>>)
    requires |ss| == |tt| && forall i :: 0 <= i < |ss| ==> |ss[i]| <= |tt[i]|
    ensures |Flatten(ss)| <= |Flatten(tt)|
    ensures (exists i :: 0 <= i < |ss| && |ss[i]| < |tt[i]|) ==> |Flatten(ss)| < |Flatten(tt)|
  {
    if ss != [] {
      var n := |ss| - 1;
      FlattenShorter(ss[..n], tt[..n]);
      if exists i :: 0 <= i < |ss| && |ss[i]| < |tt[i]| {
        var i :| 0 <= i < |ss| && |ss[i]| < |tt[i]|;
        if i < n {
          assert |ss[..n][i]| < |tt[..n][i]|;
        }
      }
    }
  }

  /** No entry occurs twice across the lines, nor twice within one line. */
  predicate Separate<T(==)>(ss: seq<seq<T>>) {
    forall l, m, r, s ::
      (0 <= l < |ss| && 0 <= m < |ss| && 0 <= r < |ss[l]| && 0 <= s < |ss[m]| && (l != m || r != s))
      ==> ss[l][r] != ss[m][s]
  }

  /** Selecting separate index lists from a duplicate-free list gives separate lines. */
  lemma SeparatePick<T>(s: seq<T>, idx: seq<seq<nat>>)
    requires Distinct(s) && Separate(idx) && forall l :: 0 <= l < |idx| ==> Below(idx[l], |s|)
    ensures Separate(seq(|idx|, l requires 0 <= l < |idx| => Pick(s, idx[l])))
  {
  }

  /** Selecting distinct positions of each of separate lines keeps them separate. */
  lemma SeparateSub<T>(ss: seq<seq<T>>, idx: seq<seq<nat>>)
    requires Separate(ss) && |idx| == |ss|
    requires forall l :: 0 <= l < |ss| ==> Below(idx[l], |ss[l]|) && Distinct(idx[l])
    ensures Separate(seq(|ss|, l requires 0 <= l < |ss| => Pick(ss[l], idx[l])))
  {
  }

  /** Multiplicities in a duplicate-free list are at most one. */
  lemma {:induction false} DistinctCount<T>(s: seq<T>, x: T)
    requires Distinct(s)
    ensures multiset(s)[x] <= 1
  {
    if s != [] {
      var n := |s| - 1;
      assert s == s[..n] + [s[n]];
      assert s[n] !in s[..n];
      DistinctCount(s[..n], x);
    }
  }

  /** A rearrangement of a duplicate-free list is duplicate-free. */
  lemma DistinctPermutation<T>(a: seq<T>, b: seq<T>)
    requires multiset(a) == multiset(b) && Distinct(a)
    ensures Distinct(b)
  {
    forall p, q | 0 <= p < q < |b| ensures b[p] != b[q] {
      if b[p] == b[q] {
        assert b == b[..q] + b[q..];
        assert b[..q][p] == b[p];
        assert b[q..][0] == b[p];
        assert multiset(b)[b[p]] == multiset(b[..q])[b[p]] + multiset(b[q..])[b[p]];
        DistinctCount(a, b[p]);
        assert false;
      }
    }
  }

  /** Selecting distinct positions of a duplicate-free list gives a duplicate-free list. */
  lemma PickDistinct<T>(s: seq<T>, idx: seq<nat>)
    requires Below(idx, |s|) && Distinct(s) && Distinct(idx)
    ensures Distinct(Pick(s, idx))
  {
  }

  /** A duplicate-free list has as many distinct elements as it has entries. */
  lemma {:induction false} DistinctCard<T>(s: seq<T>)
    requires Distinct(s)
    ensures |set x | x in s| == |s|
  {
    if s != [] {
      var n := |s| - 1;
      DistinctCard(s[..n]);
      assert (set x | x in s) == (set x | x in s[..n]) + {s[n]};
      assert s[n] !in (set x | x in s[..n]);
    }
  }

  /** A list holds at most as many different elements as it is long. */
  lemma {:induction false} SetCard<T>(s: seq<T>)
    ensures |set x | x in s| <= |s|
  {
    if s != [] {
      var n := |s| - 1;
      SetCard(s[..n]);
      assert (set x | x in s) == (set x | x in s[..n]) + {s[n]};
    }
  }

  /** Pigeonhole: n slots hold at most n different numbers. */
  lemma DistinctBounded(s: seq<int>, n: nat)
    requires Distinct(s) && forall k :: 0 <= k < |s| ==> 0 <= s[k] < n
    ensures |s| <= n
  {
    var range := seq(n, k requires 0 <= k < n => k);
    DistinctCard(s);
    DistinctCard(range);
    assert forall x :: x in s ==> x in range by {
      forall x | x in s ensures x in range {
        assert range[x] == x;
      }
    }
    var a, b := set x | x in s, set x | x in range;
    assert a <= b;
    assert b == a + (b - a);
    assert |b| == |a| + |b - a|;
  }

  /** Each element after the first is step applied to the one before it and the next label. */
  ghost predicate Steps<S, L>(xs: seq<S>, labels: seq<L>, step: (S, L) -> S)
    requires |xs| <= |labels| + 1
  {
    forall j :: 0 <= j < |xs| - 1 ==> xs[j + 1] == step(xs[j], labels[j])
  }

  /** One more step extends a run of steps. */
  lemma StepsSnoc<S, L>(xs: seq<S>, labels: seq<L>, step: (S, L) -> S, next: S)
    requires 1 <= |xs| <= |labels| && Steps(xs, labels, step)
    requires next == step(xs[|xs| - 1], labels[|xs| - 1])
    ensures Steps(xs + [next], labels, step)
  {
    var ys := xs + [next];
    forall j | 0 <= j < |ys| - 1 ensures ys[j + 1] == step(ys[j], labels[j]) {
      assert ys[j] == xs[j];
    }
  }
}
