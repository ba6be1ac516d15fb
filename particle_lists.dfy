/**
 * The list operations the particle sets share: a particle list is a
 * sequence without repeats, and erasing elements while iterating over it
 * leaves `Filter` of it, the elements kept in their order. The random
 * number stream of reseeding is a function from draw number to value.
 */
module ParticleLists {

  /** No element is in the list twice. */
  predicate Distinct<T(==)>(ps: seq<T>)
  {
    forall a, b {:trigger ps[a], ps[b]} :: 0 <= a < b < |ps| ==> ps[a] != ps[b]
  }

  /** The elements of ps whose flag in `keep` is set, in their order: what erasing the others leaves. */
  function Filter<T>(ps: seq<T>, keep: seq<bool>): (r: seq<T>)
    requires |keep| == |ps|
    ensures |r| <= |ps|
  {
    if ps == [] then []
    else
      var n := |ps| - 1;
      Filter(ps[..n], keep[..n]) + (if keep[n] then [ps[n]] else [])
  }

  /**
   * Everything `Filter` returns is a kept element of the list, and they come
   * in the list's order: `idx` gives, for each, its strictly increasing index.
   */
  lemma {:induction false} FilterSound<T>(ps: seq<T>, keep: seq<bool>) returns (idx: seq<int>)
    requires |keep| == |ps|
    ensures |idx| == |Filter(ps, keep)|
    ensures forall k {:trigger idx[k]} :: 0 <= k < |idx| ==>
              0 <= idx[k] < |ps| && keep[idx[k]] && Filter(ps, keep)[k] == ps[idx[k]]
    ensures forall k, l {:trigger idx[k], idx[l]} :: 0 <= k < l < |idx| ==> idx[k] < idx[l]
  {
    if ps == [] {
      idx := [];
    } else {
      var n := |ps| - 1;
      var i0 := FilterSound(ps[..n], keep[..n]);
      var s := Filter(ps[..n], keep[..n]);
      assert Filter(ps, keep) == s + (if keep[n] then [ps[n]] else []);
      idx := if keep[n] then i0 + [n] else i0;
      forall k | 0 <= k < |i0|
        ensures idx[k] == i0[k] && 0 <= idx[k] < n && keep[idx[k]] && Filter(ps, keep)[k] == ps[idx[k]]
      {
        assert ps[..n][i0[k]] == ps[i0[k]] && keep[..n][i0[k]] == keep[i0[k]];
      }
    }
  }

  /** Every kept element of the list is in what `Filter` returns. */
  lemma {:induction false} FilterComplete<T>(ps: seq<T>, keep: seq<bool>)
    requires |keep| == |ps|
    ensures forall m {:trigger ps[m]} :: 0 <= m < |ps| && keep[m] ==> ps[m] in Filter(ps, keep)
  {
    if ps != [] {
      var n := |ps| - 1;
      FilterComplete(ps[..n], keep[..n]);
      forall m | 0 <= m < |ps| && keep[m]
        ensures ps[m] in Filter(ps, keep)
      {
        if m < n {
          assert ps[..n][m] == ps[m] && keep[..n][m];
        }
      }
    }
  }

  /** Erasing elements from a list without repeats leaves a list without repeats. */
  lemma FilterDistinct<T>(ps: seq<T>, keep: seq<bool>)
    requires |keep| == |ps| && Distinct(ps)
    ensures Distinct(Filter(ps, keep))
  {
    var r := Filter(ps, keep);
    var idx := FilterSound(ps, keep);
    forall a, b | 0 <= a < b < |r|
      ensures r[a] != r[b]
    {
      assert r[a] == ps[idx[a]] && r[b] == ps[idx[b]] && idx[a] < idx[b];
    }
  }

  /** Filtering one more element: it is appended when kept. */
  lemma FilterSnoc<T>(ps: seq<T>, keep: seq<bool>, k: int)
    requires |keep| == |ps| && 0 <= k < |ps|
    ensures Filter(ps[..k + 1], keep[..k + 1]) == Filter(ps[..k], keep[..k]) + (if keep[k] then [ps[k]] else [])
  {
    assert ps[..k + 1][..k] == ps[..k] && keep[..k + 1][..k] == keep[..k];
  }

  /** Filtering the whole list. */
  lemma FilterAll<T>(ps: seq<T>, keep: seq<bool>)
    requires |keep| == |ps|
    ensures Filter(ps[..|ps|], keep[..|keep|]) == Filter(ps, keep)
  {
    assert ps[..|ps|] == ps && keep[..|keep|] == keep;
  }

  /** Every random number is in [0, 1). */
  ghost predicate UnitRandom(rand: nat -> real)
  {
    forall n {:trigger rand(n)} :: 0.0 <= rand(n) < 1.0
  }
}
