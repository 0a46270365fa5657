// The stable sort both engines get from `Array.prototype.sort` and
// `toSorted` with a numeric comparator `(a, b) => key(a) - key(b)`:
// here it rearranges a list of indices by an integer key per index.
module Sorting {
  import opened Seqs

  predicate SortedBy(keys: seq<int>, s: seq<nat>)
    requires Below(s, |keys|)
  {
    forall p, q :: 0 <= p < q < |s| ==> keys[s[p]] <= keys[s[q]]
  }

  /** Puts j after every entry whose key is not larger (so equal keys keep their order). */
  function Insert(keys: seq<int>, j: nat, s: seq<nat>): (r: seq<nat>)
    requires j < |keys| && Below(s, |keys|) && SortedBy(keys, s)
    ensures Below(r, |keys|) && SortedBy(keys, r)
    ensures multiset(r) == multiset(s) + multiset{j} && |r| == |s| + 1
  {
    if s == [] || keys[j] < keys[s[0]] then
      [j] + s
    else
      var rest := Insert(keys, j, s[1..]);
      assert s == [s[0]] + s[1..];
      HeadBelow(keys, j, s, rest);
      ConsSorted(keys, s[0], rest);
      [s[0]] + rest
  }

  /** An entry no larger than anything in a sorted list can go in front of it. */
  lemma ConsSorted(keys: seq<int>, h: nat, rest: seq<nat>)
    requires h < |keys| && Below(rest, |keys|) && SortedBy(keys, rest)
    requires forall q :: 0 <= q < |rest| ==> keys[h] <= keys[rest[q]]
    ensures Below([h] + rest, |keys|) && SortedBy(keys, [h] + rest)
  {
    var r := [h] + rest;
    forall p, q | 0 <= p < q < |r| ensures keys[r[p]] <= keys[r[q]] {
      assert r[q] == rest[q - 1];
      if p > 0 {
        assert r[p] == rest[p - 1];
      }
    }
  }

  /** The head of a sorted list is no larger than anything in a rearrangement of its tail and a larger entry j. */
  lemma HeadBelow(keys: seq<int>, j: nat, s: seq<nat>, rest: seq<nat>)
    requires j < |keys| && s != [] && Below(s, |keys|) && Below(rest, |keys|) && SortedBy(keys, s)
    requires keys[s[0]] <= keys[j] && multiset(rest) == multiset(s[1..]) + multiset{j}
    ensures forall q :: 0 <= q < |rest| ==> keys[s[0]] <= keys[rest[q]]
  {
    forall q | 0 <= q < |rest| ensures keys[s[0]] <= keys[rest[q]] {
      assert rest[q] in multiset(rest);
      if rest[q] != j {
        assert rest[q] in multiset(s[1..]);
        var p :| 0 <= p < |s[1..]| && s[1..][p] == rest[q];
        assert s[p + 1] == rest[q];
      }
    }
  }

  /** Insertion sort by key: a sorted rearrangement of idx. */
  function SortBy(keys: seq<int>, idx: seq<nat>): (r: seq<nat>)
    requires Below(idx, |keys|)
    ensures Below(r, |keys|) && SortedBy(keys, r)
    ensures multiset(r) == multiset(idx) && |r| == |idx|
  {
    if idx == [] then []
    else
      var n := |idx| - 1;
      assert idx == idx[..n] + [idx[n]];
      Insert(keys, idx[n], SortBy(keys, idx[..n]))
  }

  /** x occurs somewhere before y in s. */
  predicate Before(s: seq<nat>, x: nat, y: nat) {
    exists p, q :: 0 <= p < q < |s| && s[p] == x && s[q] == y
  }

  /** Insert puts j at some position m: everything before has a key no larger, everything after a larger key. */
  lemma {:induction false} InsertAt(keys: seq<int>, j: nat, s: seq<nat>) returns (m: nat)
    requires j < |keys| && Below(s, |keys|) && SortedBy(keys, s)
    ensures m <= |s| && Insert(keys, j, s) == s[..m] + [j] + s[m..]
    ensures forall p :: m <= p < |s| ==> keys[j] < keys[s[p]]
    decreases |s|
  {
    if s == [] || keys[j] < keys[s[0]] {
      m := 0;
      assert Insert(keys, j, s) == [j] + s;
      assert s[..0] + [j] + s[0..] == [j] + s;
    } else {
      var tail := s[1..];
      var m' := InsertAt(keys, j, tail);
      m := m' + 1;
      assert Insert(keys, j, s) == [s[0]] + Insert(keys, j, tail);
      assert s[..m] == [s[0]] + tail[..m'] && s[m..] == tail[m'..];
      assert [s[0]] + (tail[..m'] + [j] + tail[m'..]) == ([s[0]] + tail[..m']) + [j] + tail[m'..];
      forall p | m <= p < |s| ensures keys[j] < keys[s[p]] {
        assert s[p] == tail[p - 1];
      }
    }
  }

  /** Where the entries of t go when j is put at position m. */
  lemma InsertShift(t: seq<nat>, m: nat, j: nat)
    requires m <= |t|
    ensures var r := t[..m] + [j] + t[m..];
      && |r| == |t| + 1 && r[m] == j
      && (forall p :: 0 <= p < m ==> r[p] == t[p])
      && (forall p :: m <= p < |t| ==> r[p + 1] == t[p])
  {
  }

  /**
   * The sort is stable: entries with equal keys keep the order they had in
   * idx.
   */
  lemma {:induction false} SortByStable(keys: seq<int>, idx: seq<nat>)
    requires Below(idx, |keys|)
    ensures forall a, b :: 0 <= a < b < |idx| && keys[idx[a]] == keys[idx[b]] ==>
      Before(SortBy(keys, idx), idx[a], idx[b])
  {
    if idx != [] {
      var n := |idx| - 1;
      var init, j := idx[..n], idx[n];
      assert idx == init + [j];
      SortBySnoc(keys, idx);
      var t := SortBy(keys, init);
      SortByStable(keys, init);
      var m := InsertAt(keys, j, t);
      InsertStable(keys, init, j, t, m, idx, SortBy(keys, idx));
    }
  }

  /** SortBy inserts the last entry into the sorted front. */
  lemma SortBySnoc(keys: seq<int>, idx: seq<nat>)
    requires Below(idx, |keys|) && idx != []
    ensures Below(idx[..|idx| - 1], |keys|)
    ensures SortBy(keys, idx) == Insert(keys, idx[|idx| - 1], SortBy(keys, idx[..|idx| - 1]))
  {
  }

  /** The inductive step of SortByStable: inserting the last entry at m keeps the earlier pairs and orders it after its equals. */
  lemma InsertStable(keys: seq<int>, init: seq<nat>, j: nat, t: seq<nat>, m: nat, idx: seq<nat>, r: seq<nat>)
    requires j < |keys| && Below(init, |keys|) && Below(t, |keys|) && multiset(t) == multiset(init)
    requires forall a, b :: 0 <= a < b < |init| && keys[init[a]] == keys[init[b]] ==> Before(t, init[a], init[b])
    requires m <= |t| && forall p :: m <= p < |t| ==> keys[j] < keys[t[p]]
    requires idx == init + [j] && r == t[..m] + [j] + t[m..]
    ensures forall a, b :: 0 <= a < b < |idx| && keys[idx[a]] == keys[idx[b]] ==> Before(r, idx[a], idx[b])
  {
    InsertShift(t, m, j);
    forall a, b | 0 <= a < b < |idx| && keys[idx[a]] == keys[idx[b]] ensures Before(r, idx[a], idx[b]) {
      var x := init[a];
      assert idx[a] == x;
      if b == |init| {
        assert x in multiset(t);
        var p :| 0 <= p < |t| && t[p] == x;
        assert r[p] == x;
      } else {
        assert idx[b] == init[b];
        var p, q :| 0 <= p < q < |t| && t[p] == x && t[q] == init[b];
        if q < m {
          assert r[p] == x && r[q] == init[b];
        } else if p < m {
          assert r[p] == x && r[q + 1] == init[b];
        } else {
          assert r[p + 1] == x && r[q + 1] == init[b];
        }
      }
    }
  }

  /** Sorting a duplicate-free list keeps it duplicate-free and keeps its members. */
  lemma SortByDistinct(keys: seq<int>, idx: seq<nat>)
    requires Below(idx, |keys|) && Distinct(idx)
    ensures Distinct(SortBy(keys, idx))
    ensures forall j :: j in SortBy(keys, idx) <==> j in idx
  {
    var r := SortBy(keys, idx);
    DistinctPermutation(idx, r);
    forall j ensures j in r <==> j in idx {
      assert j in r <==> j in multiset(r);
      assert j in idx <==> j in multiset(idx);
    }
  }

  /** The indices 0 .. n-1 in order. */
  function Range(n: nat): (r: seq<nat>)
    ensures |r| == n && forall k :: 0 <= k < n ==> r[k] == k
    ensures Distinct(r) && forall k :: k in r <==> 0 <= k < n
  {
    var r := seq(n, k requires 0 <= k < n => k);
    assert forall k :: 0 <= k < n ==> r[k] == k && k in r;
    r
  }
}
