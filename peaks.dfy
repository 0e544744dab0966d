/**
 * Selection of the highest-density grid cells: `np.argsort(dens)[-k:][::-1]`,
 * the indices of the k largest scores, largest first.
 */
module Peaks {
  import opened Wrappers

  /** Number of hotspots reported. */
  const PeakCount: nat := 5

  predicate Distinct(s: seq<nat>)
  {
    forall i, j :: 0 <= i < j < |s| ==> s[i] != s[j]
  }

  /**
   * `r` lists distinct indices of `dens` in non-increasing score order, and
   * no index left out scores more than any index listed.
   */
  ghost predicate Ranked(dens: seq<real>, r: seq<nat>)
  {
    && (forall t :: 0 <= t < |r| ==> r[t] < |dens|)
    && Distinct(r)
    && (forall s, t :: 0 <= s <= t < |r| ==> dens[r[t]] <= dens[r[s]])
    && (forall j :: 0 <= j < |dens| && j !in r ==> forall t :: 0 <= t < |r| ==> dens[j] <= dens[r[t]])
  }

  /**
   * Every result `argsort(dens)[-k:][::-1]` can give, whatever order the sort
   * puts equal scores in: as many indices as the slice holds, ranked.
   */
  ghost predicate IsTopK(dens: seq<real>, k: nat, r: seq<nat>)
  {
    |r| == Min(k, |dens|) && Ranked(dens, r)
  }

  /** The best-scoring index below `n` that is not yet taken; among equal scores the highest index. */
  function ArgMaxOutside(dens: seq<real>, taken: seq<nat>, n: nat): (r: Option<nat>)
    requires n <= |dens|
    ensures r.None? ==> forall j :: 0 <= j < n ==> j in taken
    ensures r.Some? ==> r.value < n && r.value !in taken
    ensures r.Some? ==> forall j :: 0 <= j < n && j !in taken ==> dens[j] <= dens[r.value]
  {
    if n == 0 then None
    else
      var best := ArgMaxOutside(dens, taken, n - 1);
      if n - 1 in taken then best
      else if best.None? || dens[best.value] <= dens[n - 1] then Some(n - 1)
      else best
  }

  /** The elements of a sequence, as a set. */
  function Elements(s: seq<nat>): set<nat>
  {
    set x | x in s
  }

  lemma {:induction false} ElementsCard(s: seq<nat>)
    ensures |Elements(s)| <= |s|
    ensures Distinct(s) ==> |Elements(s)| == |s|
  {
    if |s| > 0 {
      var init := s[..|s| - 1];
      ElementsCard(init);
      assert Elements(s) == Elements(init) + {s[|s| - 1]};
      if Distinct(s) {
        assert Distinct(init);
        assert s[|s| - 1] !in Elements(init);
      }
    }
  }

  /** The indices below `n`, as a set of exactly n elements. */
  function Below(n: nat): (r: set<nat>)
    ensures |r| == n
    ensures forall j: nat :: j in r <==> j < n
  {
    if n == 0 then {} else Below(n - 1) + {n - 1}
  }

  lemma SubsetCard(a: set<nat>, b: set<nat>)
    requires a <= b
    ensures |a| <= |b|
  {
    assert b == a + (b - a);
  }

  /** A sequence shorter than `n` misses some index below `n` (pigeonhole). */
  lemma Uncovered(s: seq<nat>, n: nat)
    requires |s| < n
    ensures exists j :: 0 <= j < n && j !in s
  {
    if forall j :: 0 <= j < n ==> j in s {
      assert Below(n) <= Elements(s);
      SubsetCard(Below(n), Elements(s));
      ElementsCard(s);
    }
  }

  /** The k best indices, best first, picked one at a time. */
  function Select(dens: seq<real>, k: nat): (r: seq<nat>)
    requires k <= |dens|
    ensures |r| == k && Ranked(dens, r)
  {
    if k == 0 then []
    else
      var chosen := Select(dens, k - 1);
      Uncovered(chosen, |dens|);
      var next := ArgMaxOutside(dens, chosen, |dens|).value;
      chosen + [next]
  }

  /**
   * `argsort(dens)[-k:][::-1]`: the slice keeps all of `dens` when it is
   * shorter than k. Equal scores are ordered by decreasing index, as a stable
   * argsort would leave them.
   */
  function TopK(dens: seq<real>, k: nat): (r: seq<nat>)
    ensures IsTopK(dens, k, r)
  {
    Select(dens, Min(k, |dens|))
  }

  /**
   * A ranked selection scores at least as well, place by place, as any other
   * of the same length: otherwise the first t + 1 picks of `r1` would all
   * have to be among the first t picks of `r2`.
   */
  lemma ScoreAtLeast(dens: seq<real>, r1: seq<nat>, r2: seq<nat>, t: nat)
    requires Ranked(dens, r1) && Ranked(dens, r2) && |r1| == |r2| && t < |r1|
    ensures dens[r1[t]] <= dens[r2[t]]
  {
    if dens[r2[t]] < dens[r1[t]] {
      var front1, front2 := r1[..t + 1], r2[..t];
      assert Elements(front1) <= Elements(front2) by {
        forall x | x in Elements(front1)
          ensures x in Elements(front2)
        {
          var s :| 0 <= s <= t && r1[s] == x;
          assert dens[r2[t]] < dens[x];
          assert x in r2;
          var u :| 0 <= u < |r2| && r2[u] == x;
          assert u < t;
          assert front2[u] == x;
        }
      }
      assert Distinct(front1);
      ElementsCard(front1);
      ElementsCard(front2);
      SubsetCard(Elements(front1), Elements(front2));
    }
  }

  /**
   * The scores of the selected cells do not depend on how ties are broken:
   * any two valid top-k answers agree score by score.
   */
  lemma TopKScoresUnique(dens: seq<real>, k: nat, r1: seq<nat>, r2: seq<nat>)
    requires IsTopK(dens, k, r1) && IsTopK(dens, k, r2)
    ensures forall t :: 0 <= t < |r1| ==> dens[r1[t]] == dens[r2[t]]
  {
    forall t | 0 <= t < |r1|
      ensures dens[r1[t]] == dens[r2[t]]
    {
      ScoreAtLeast(dens, r1, r2, t);
      ScoreAtLeast(dens, r2, r1, t);
    }
  }
}
