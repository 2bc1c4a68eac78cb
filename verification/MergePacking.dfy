/**
 Auto-merge: small micro-partitions are packed greedily, in order, into bins of about the
 target number of rows.
*/
module MergePacking {
  datatype Mp = Mp(id: nat, rows: nat)

  function Total(mps: seq<Mp>): nat {
    if mps == [] then 0 else Total(mps[..|mps| - 1]) + mps[|mps| - 1].rows
  }

  function Flat(bins: seq<seq<Mp>>): seq<Mp> {
    if bins == [] then [] else Flat(bins[..|bins| - 1]) + bins[|bins| - 1]
  }

  /** The micro-partitions small enough to be merged, in order. */
  function Candidates(mps: seq<Mp>, target: nat): (cs: seq<Mp>)
    ensures forall i :: 0 <= i < |cs| ==> cs[i].rows < target / 2
  {
    if mps == [] then []
    else Candidates(mps[..|mps| - 1], target) + if mps[|mps| - 1].rows < target / 2 then [mps[|mps| - 1]] else []
  }

  /** Every micro-partition small enough is a candidate, once, and in order: the positions ix of
      the candidates ascend and are exactly those of the small ones. */
  lemma {:induction false} CandidatesInOrder(mps: seq<Mp>, target: nat) returns (ix: seq<nat>)
    ensures |ix| == |Candidates(mps, target)| && forall j, k :: 0 <= j < k < |ix| ==> ix[j] < ix[k]
    ensures forall k :: 0 <= k < |ix| ==> ix[k] < |mps| && Candidates(mps, target)[k] == mps[ix[k]]
    ensures forall i: nat :: i in ix <==> i < |mps| && mps[i].rows < target / 2
    decreases |mps|
  {
    ix := [];
    if mps != [] {
      var n := |mps| - 1;
      ix := CandidatesInOrder(mps[..n], target);
      if mps[n].rows < target / 2 {
        ix := ix + [n];
      }
    }
  }

  /** A bin closed by reaching the target. */
  ghost predicate Full(bin: seq<Mp>, target: nat) {
    target <= Total(bin) < target + target / 2 && |bin| >= 3
  }

  lemma NextCandidate(candidates: seq<Mp>, i: nat, packed: seq<Mp>, batch: seq<Mp>, target: nat)
    requires i < |candidates| && packed + batch == candidates[..i]
    requires forall j :: 0 <= j < |candidates| ==> candidates[j].rows < target / 2
    ensures packed + (batch + [candidates[i]]) == candidates[..i + 1]
    ensures forall j :: 0 <= j < |batch + [candidates[i]]| ==> (batch + [candidates[i]])[j].rows < target / 2
  {
    assert forall j :: 0 <= j < |batch| ==> batch[j] == candidates[|packed| + j];
  }

  /** Packs the candidates: `bins` are the groups that are merged, the last of them possibly
      short; `left` stays unmerged. */
  method MergeGroup(candidates: seq<Mp>, target: nat) returns (bins: seq<seq<Mp>>, left: seq<Mp>, superseded: nat)
    requires forall i :: 0 <= i < |candidates| ==> candidates[i].rows < target / 2
    ensures Flat(bins) + left == candidates && |left| <= 1
    ensures superseded == |Flat(bins)|
    ensures forall k :: 0 <= k < |bins| - 1 ==> Full(bins[k], target)
    ensures bins != [] ==>
            var last := bins[|bins| - 1];
            Full(last, target) || (2 <= |last| && Total(last) < target && left == [])
  {
    bins, superseded := [], 0;
    var batch: seq<Mp>, rows: nat := [], 0;
    for i := 0 to |candidates|
      invariant Flat(bins) + batch == candidates[..i] && rows == Total(batch)
      invariant batch != [] ==> rows < target
      invariant superseded == |Flat(bins)|
      invariant forall k :: 0 <= k < |bins| ==> Full(bins[k], target)
    {
      var mp := candidates[i];
      NextCandidate(candidates, i, Flat(bins), batch, target);
      batch := batch + [mp];
      rows := rows + mp.rows;
      if rows >= target {
        superseded := superseded + |batch|;
        bins := bins + [batch];
        batch, rows := [], 0;
      }
    }
    if |batch| >= 2 {
      superseded := superseded + |batch|;
      bins := bins + [batch];
      left := [];
    } else {
      left := batch;
    }
  }

  lemma {:induction false} TotalAppend(a: seq<Mp>, b: seq<Mp>)
    ensures Total(a + b) == Total(a) + Total(b)
    decreases |b|
  {
    if b == [] {
      assert a + b == a;
    } else {
      var n := |b| - 1;
      assert (a + b)[..|a| + n] == a + b[..n];
      TotalAppend(a, b[..n]);
    }
  }

  lemma {:induction false} FullBinsTotal(bins: seq<seq<Mp>>, target: nat)
    requires forall k :: 0 <= k < |bins| ==> Full(bins[k], target)
    ensures |bins| * target <= Total(Flat(bins))
    decreases |bins|
  {
    if bins != [] {
      var n := |bins| - 1;
      FullBinsTotal(bins[..n], target);
      TotalAppend(Flat(bins[..n]), bins[n]);
      assert |bins| * target == n * target + target;
    }
  }

  /** All merged partitions but one have the target's rows: there are at most as many as the
      total holds targets, plus one. */
  lemma OutputsAreFew(bins: seq<seq<Mp>>, target: nat)
    requires forall k :: 0 <= k < |bins| - 1 ==> Full(bins[k], target)
    ensures bins != [] ==> (|bins| - 1) * target <= Total(Flat(bins))
  {
    if bins != [] {
      var n := |bins| - 1;
      FullBinsTotal(bins[..n], target);
      TotalAppend(Flat(bins[..n]), bins[n]);
    }
  }
}
