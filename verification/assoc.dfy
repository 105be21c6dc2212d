/**
 The map a Go loop builds with `m[k] = v` over a sequence of pairs: a later
 pair overwrites an earlier one with the same key. The controllers build their
 node-status map, their parsed throttle files and their capacity cache this
 way, so the "last one wins" fact is proved once here.
 */
module Assoc {

  /** Assign every pair in order, starting from the empty map. */
  function FromPairs<K, V>(ps: seq<(K, V)>): (m: map<K, V>)
    ensures m.Keys == Firsts(ps)
  {
    if |ps| == 0 then map[] else FromPairs(ps[..|ps| - 1])[ps[|ps| - 1].0 := ps[|ps| - 1].1]
  }

  /** The keys occurring in `ps`. */
  function Firsts<K, V>(ps: seq<(K, V)>): set<K> {
    if |ps| == 0 then {} else Firsts(ps[..|ps| - 1]) + {ps[|ps| - 1].0}
  }

  lemma {:induction false} FirstsMembers<K, V>(ps: seq<(K, V)>, k: K)
    ensures k in Firsts(ps) <==> exists i :: 0 <= i < |ps| && ps[i].0 == k
  {
    if |ps| > 0 {
      var n := |ps| - 1;
      FirstsMembers(ps[..n], k);
      if k in Firsts(ps[..n]) {
        var i :| 0 <= i < n && ps[..n][i].0 == k;
        assert ps[i].0 == k;
      }
      if exists i :: 0 <= i < |ps| && ps[i].0 == k {
        var i :| 0 <= i < |ps| && ps[i].0 == k;
        if i < n {
          assert ps[..n][i].0 == k;
        }
      }
    }
  }

  /** Position `i` holds the last pair for its key. */
  ghost predicate LastFor<K, V>(ps: seq<(K, V)>, i: int) {
    0 <= i < |ps| && forall j :: i < j < |ps| ==> ps[j].0 != ps[i].0
  }

  /** The map holds `k -> v` exactly when the last pair with key `k` is `(k, v)`. */
  lemma LastWins<K, V>(ps: seq<(K, V)>, k: K, v: V)
    ensures (k in FromPairs(ps) && FromPairs(ps)[k] == v) <==> exists i :: LastFor(ps, i) && ps[i] == (k, v)
  {
    if k in FromPairs(ps) && FromPairs(ps)[k] == v {
      var i := LastPair(ps, k);
    }
    if exists i :: LastFor(ps, i) && ps[i] == (k, v) {
      var i :| LastFor(ps, i) && ps[i] == (k, v);
      LastPairKept(ps, i);
    }
  }

  /** Every entry of the map comes from the last pair with its key. */
  lemma {:induction false} LastPair<K, V>(ps: seq<(K, V)>, k: K) returns (i: nat)
    requires k in FromPairs(ps)
    ensures LastFor(ps, i) && ps[i] == (k, FromPairs(ps)[k])
  {
    var n := |ps| - 1;
    if ps[n].0 == k {
      i := n;
    } else {
      var pre := ps[..n];
      i := LastPair(pre, k);
      assert pre[i] == ps[i];
      forall j | i < j < |ps|
        ensures ps[j].0 != ps[i].0
      {
        if j < n {
          assert pre[j] == ps[j];
        }
      }
    }
  }

  /** The last pair with its key survives to the end. */
  lemma {:induction false} LastPairKept<K, V>(ps: seq<(K, V)>, i: int)
    requires LastFor(ps, i)
    ensures ps[i].0 in FromPairs(ps) && FromPairs(ps)[ps[i].0] == ps[i].1
  {
    var n := |ps| - 1;
    if i < n {
      var pre := ps[..n];
      assert pre[i] == ps[i];
      assert LastFor(pre, i) by {
        forall j | i < j < |pre|
          ensures pre[j].0 != pre[i].0
        {
          assert pre[j] == ps[j];
        }
      }
      LastPairKept(pre, i);
    }
  }

  /** The keys of `ps` are pairwise different. */
  ghost predicate DistinctKeys<K, V>(ps: seq<(K, V)>) {
    forall i, j :: 0 <= i < j < |ps| ==> ps[i].0 != ps[j].0
  }

  /** With pairwise different keys, no pair is overwritten: one entry per pair. */
  lemma {:induction false} DistinctKeysSize<K, V>(ps: seq<(K, V)>)
    requires DistinctKeys(ps)
    ensures |FromPairs(ps)| == |ps|
    ensures forall i :: 0 <= i < |ps| ==> ps[i].0 in FromPairs(ps) && FromPairs(ps)[ps[i].0] == ps[i].1
  {
    if |ps| > 0 {
      var n := |ps| - 1;
      var pre := ps[..n];
      assert DistinctKeys(pre) by {
        forall i, j | 0 <= i < j < |pre|
          ensures pre[i].0 != pre[j].0
        {
          assert pre[i] == ps[i] && pre[j] == ps[j];
        }
      }
      DistinctKeysSize(pre);
      forall i | 0 <= i < n
        ensures pre[i].0 != ps[n].0
      {
        assert pre[i] == ps[i];
      }
      FirstsMembers(pre, ps[n].0);
      forall i | 0 <= i < |ps|
        ensures ps[i].0 in FromPairs(ps) && FromPairs(ps)[ps[i].0] == ps[i].1
      {
        if i < n {
          assert pre[i] == ps[i];
          assert ps[i].0 != ps[n].0;
        }
      }
    }
  }
}
