/**
 Splitting micro-partitions into query fragments, one per worker, and moving the fragments of
 failed workers. A deal records which worker each micro-partition goes to.
*/
module Fragments {
  import opened Wrappers

  /** A micro-partition's metadata, as far as placement needs it. */
  datatype Mp = Mp(id: nat, partition: Option<nat>)

  datatype Fragment = Fragment(id: nat, worker: nat, mps: seq<nat>)

  datatype Deal = Deal(worker: nat, mp: nat)

  /** What a worker is dealt, in order. */
  function MpsOf(w: nat, deals: seq<Deal>): seq<nat> {
    if deals == [] then []
    else
      var n := |deals| - 1;
      MpsOf(w, deals[..n]) + if deals[n].worker == w then [deals[n].mp] else []
  }

  ghost predicate IsDealt(w: nat, deals: seq<Deal>) {
    exists i :: 0 <= i < |deals| && deals[i].worker == w
  }

  lemma {:induction false} DealtIffSome(w: nat, deals: seq<Deal>)
    ensures IsDealt(w, deals) <==> MpsOf(w, deals) != []
    decreases |deals|
  {
    if deals != [] {
      var n := |deals| - 1;
      DealtIffSome(w, deals[..n]);
      if IsDealt(w, deals[..n]) {
        var i :| 0 <= i < n && deals[..n][i].worker == w;
        assert deals[i].worker == w;
      }
      if IsDealt(w, deals) && deals[n].worker != w {
        var i :| 0 <= i < |deals| && deals[i].worker == w;
        assert deals[..n][i].worker == w;
      }
    }
  }

  lemma DealtPrefix(deals: seq<Deal>, n: nat)
    requires n <= |deals|
    ensures forall w :: IsDealt(w, deals[..n]) ==> IsDealt(w, deals)
  {
    forall w | IsDealt(w, deals[..n])
      ensures IsDealt(w, deals)
    {
      var i :| 0 <= i < n && deals[..n][i].worker == w;
      assert deals[i].worker == w;
    }
  }

  // ---- Buckets ----

  type Buckets = map<nat, seq<nat>>

  ghost predicate Holds(b: Buckets, deals: seq<Deal>) {
    forall w: nat :: (if w in b then b[w] else []) == MpsOf(w, deals) && (w in b <==> MpsOf(w, deals) != [])
  }

  function Push(b: Buckets, w: nat, mp: nat): Buckets {
    b[w := (if w in b then b[w] else []) + [mp]]
  }

  lemma PushHolds(b: Buckets, deals: seq<Deal>, i: nat)
    requires i < |deals| && Holds(b, deals[..i])
    ensures Holds(Push(b, deals[i].worker, deals[i].mp), deals[..i + 1])
  {
    assert deals[..i + 1][..i] == deals[..i];
  }

  ghost predicate Increasing(s: seq<nat>) {
    forall i, j :: 0 <= i < j < |s| ==> s[i] < s[j]
  }

  lemma {:induction false} HasMinimum(s: set<nat>) returns (x: nat)
    requires s != {}
    ensures x in s && forall y :: y in s ==> x <= y
    decreases |s|
  {
    var z :| z in s;
    if s - {z} == {} {
      assert s == {z};
      x := z;
    } else {
      var m := HasMinimum(s - {z});
      x := if z < m then z else m;
      assert forall y :: y in s ==> y == z || y in s - {z};
    }
  }

  /** A map's keys in ascending order, the order in which a B-tree map is walked. */
  method SortedKeys(s: set<nat>) returns (keys: seq<nat>)
    ensures Increasing(keys) && forall x :: x in keys <==> x in s
  {
    keys := [];
    var rest := s;
    while rest != {}
      invariant Increasing(keys) && rest <= s
      invariant forall x :: x in keys <==> x in s && x !in rest
      invariant forall i, y :: 0 <= i < |keys| && y in rest ==> keys[i] < y
      decreases |rest|
    {
      ghost var least := HasMinimum(rest);
      var x :| x in rest && forall y :: y in rest ==> x <= y;
      keys := keys + [x];
      rest := rest - {x};
    }
  }

  // ---- Dispatching ----

  /** One fragment per worker that is dealt anything, in worker order, with fresh ids. */
  ghost predicate Dispatches(frags: seq<Fragment>, first: nat, deals: seq<Deal>) {
    && (forall k :: 0 <= k < |frags| ==> frags[k].id == first + k && frags[k].mps == MpsOf(frags[k].worker, deals)
                                         && frags[k].mps != [])
    && Increasing(Workers(frags))
    && forall w :: IsDealt(w, deals) ==> w in Workers(frags)
  }

  ghost function Workers(frags: seq<Fragment>): (ws: seq<nat>)
    ensures |ws| == |frags| && forall k :: 0 <= k < |frags| ==> ws[k] == frags[k].worker
  {
    seq(|frags|, k requires 0 <= k < |frags| => frags[k].worker)
  }

  /** Round-robin. */
  ghost function ScanDeals(workers: seq<nat>, mps: seq<Mp>): (deals: seq<Deal>)
    requires workers != []
    ensures |deals| == |mps|
    ensures forall i :: 0 <= i < |mps| ==> deals[i] == Deal(workers[i % |workers|], mps[i].id)
  {
    seq(|mps|, i requires 0 <= i < |mps| => Deal(workers[i % |workers|], mps[i].id))
  }

  function Key(mp: Mp): nat {
    if mp.partition.Some? then mp.partition.value else mp.id
  }

  /** By partition key; `place` is the hash of the key, or the key itself when co-located. */
  ghost function KeyDeals(workers: seq<nat>, place: nat -> nat, mps: seq<Mp>): (deals: seq<Deal>)
    requires workers != []
    ensures |deals| == |mps|
    ensures forall i :: 0 <= i < |mps| ==> deals[i] == Deal(workers[place(Key(mps[i])) % |workers|], mps[i].id)
  {
    seq(|mps|, i requires 0 <= i < |mps| => Deal(workers[place(Key(mps[i])) % |workers|], mps[i].id))
  }

  // ---- Moving fragments off dead workers ----

  function Live(workers: seq<nat>, dead: seq<nat>): (live: seq<nat>)
    ensures forall w :: w in live <==> w in workers && w !in dead
  {
    if workers == [] then []
    else (if workers[0] in dead then [] else [workers[0]]) + Live(workers[1..], dead)
  }

  predicate Ascending(s: seq<nat>) {
    forall i, j :: 0 <= i < j < |s| ==> s[i] <= s[j]
  }

  /** x after the elements of s that are smaller. */
  function Insert(s: seq<nat>, x: nat): seq<nat> {
    if s == [] || x <= s[0] then [x] + s else [s[0]] + Insert(s[1..], x)
  }

  lemma {:induction false} InsertMembers(s: seq<nat>, x: nat)
    ensures multiset(Insert(s, x)) == multiset(s) + multiset{x}
    decreases |s|
  {
    if s != [] && x > s[0] {
      InsertMembers(s[1..], x);
      assert s == [s[0]] + s[1..];
    }
  }

  lemma {:induction false} InsertAscends(s: seq<nat>, x: nat)
    requires Ascending(s)
    ensures Ascending(Insert(s, x))
    decreases |s|
  {
    if s != [] && x > s[0] {
      InsertAscends(s[1..], x);
      InsertMembers(s[1..], x);
      var t := Insert(s[1..], x);
      forall j | 0 <= j < |t|
        ensures s[0] <= t[j]
      {
        assert t[j] in multiset(t);
        assert t[j] in multiset(s[1..]) || t[j] == x;
      }
    }
  }

  function Sorted(s: seq<nat>): seq<nat> {
    if s == [] then [] else Insert(Sorted(s[1..]), s[0])
  }

  lemma {:induction false} SortedSorts(s: seq<nat>)
    ensures multiset(Sorted(s)) == multiset(s) && Ascending(Sorted(s))
    decreases |s|
  {
    if s != [] {
      SortedSorts(s[1..]);
      InsertMembers(Sorted(s[1..]), s[0]);
      InsertAscends(Sorted(s[1..]), s[0]);
      assert s == [s[0]] + s[1..];
    }
  }

  /** The fragments in order, those of dead workers given new ids and dealt out to the live
      workers by position; and the next id. */
  function MoveFrom(active: seq<nat>, next: nat, frags: seq<Fragment>, dead: seq<nat>): (r: (seq<Fragment>, nat))
    requires active != []
  {
    if frags == [] then ([], next)
    else
      var n := |frags| - 1;
      var (moved, next') := MoveFrom(active, next, frags[..n], dead);
      if frags[n].worker in dead then (moved + [Fragment(next', active[n % |active|], frags[n].mps)], next' + 1)
      else (moved + [frags[n]], next')
  }

  function Reschedule(workers: seq<nat>, next: nat, frags: seq<Fragment>, dead: seq<nat>): (r: (seq<Fragment>, nat)) {
    var active := Sorted(Live(workers, dead));
    if active == [] then ([], next) else MoveFrom(active, next, frags, dead)
  }

  class FragmentDispatcher {
    const workers: seq<nat>
    var nextFragmentId: nat

    constructor (workers: seq<nat>)
      ensures this.workers == workers && nextFragmentId == 1
    {
      this.workers := workers;
      nextFragmentId := 1;
    }

    method FragmentsFromBuckets(buckets: Buckets, ghost deals: seq<Deal>) returns (frags: seq<Fragment>)
      requires Holds(buckets, deals)
      modifies this`nextFragmentId
      ensures Dispatches(frags, old(nextFragmentId), deals) && nextFragmentId == old(nextFragmentId) + |frags|
    {
      var keys := SortedKeys(buckets.Keys);
      assert forall k :: 0 <= k < |keys| ==> keys[k] in keys;
      frags := [];
      for k := 0 to |keys|
        invariant |frags| == k && nextFragmentId == old(nextFragmentId) + k
        invariant forall j :: 0 <= j < k ==> frags[j] == Fragment(old(nextFragmentId) + j, keys[j], buckets[keys[j]])
      {
        frags := frags + [Fragment(nextFragmentId, keys[k], buckets[keys[k]])];
        nextFragmentId := nextFragmentId + 1;
      }
      assert Workers(frags) == keys;
      forall w | IsDealt(w, deals)
        ensures w in keys
      {
        DealtIffSome(w, deals);
      }
    }

    /** Round-robin distribution of a scan. */
    method DistributeScan(mps: seq<Mp>) returns (frags: seq<Fragment>)
      modifies this`nextFragmentId
      ensures nextFragmentId == old(nextFragmentId) + |frags|
      ensures workers == [] ==> frags == []
      ensures workers != [] ==> Dispatches(frags, old(nextFragmentId), ScanDeals(workers, mps))
    {
      if workers == [] || mps == [] {
        return [];
      }
      var buckets: Buckets := map[];
      ghost var deals := ScanDeals(workers, mps);
      for i := 0 to |mps|
        invariant Holds(buckets, deals[..i]) && nextFragmentId == old(nextFragmentId)
      {
        var worker := workers[i % |workers|];
        PushHolds(buckets, deals, i);
        buckets := Push(buckets, worker, mps[i].id);
      }
      assert deals[..|mps|] == deals;
      frags := FragmentsFromBuckets(buckets, deals);
    }

    /** Every worker gets all micro-partitions of the small table. */
    method DistributeBroadcast(mps: seq<Mp>) returns (frags: seq<Fragment>)
      modifies this`nextFragmentId
      ensures nextFragmentId == old(nextFragmentId) + |frags| && |frags| == |workers|
      ensures forall k :: 0 <= k < |frags| ==>
                            frags[k] == Fragment(old(nextFragmentId) + k, workers[k],
                                                 seq(|mps|, i requires 0 <= i < |mps| => mps[i].id))
    {
      frags := [];
      var all := seq(|mps|, i requires 0 <= i < |mps| => mps[i].id);
      for k := 0 to |workers|
        invariant |frags| == k && nextFragmentId == old(nextFragmentId) + k
        invariant forall j :: 0 <= j < k ==> frags[j] == Fragment(old(nextFragmentId) + j, workers[j], all)
      {
        frags := frags + [Fragment(nextFragmentId, workers[k], all)];
        nextFragmentId := nextFragmentId + 1;
      }
    }

    /** Moves the fragments of dead workers to live ones. */
    method RescheduleFailed(frags: seq<Fragment>, dead: seq<nat>) returns (moved: seq<Fragment>)
      modifies this`nextFragmentId
      ensures var r := Reschedule(workers, old(nextFragmentId), frags, dead);
              moved == r.0 && nextFragmentId == r.1
    {
      var active := Sorted(Live(workers, dead));
      if active == [] {
        return [];
      }
      moved := [];
      for i := 0 to |frags|
        invariant (moved, nextFragmentId) == MoveFrom(active, old(nextFragmentId), frags[..i], dead)
      {
        assert frags[..i + 1][..i] == frags[..i];
        var f := frags[i];
        if f.worker in dead {
          f := Fragment(nextFragmentId, active[i % |active|], f.mps);
          nextFragmentId := nextFragmentId + 1;
        }
        moved := moved + [f];
      }
      assert frags[..|frags|] == frags;
    }

    /** Distribution by partition key: `place` is the hash seeded with the join column for a
        shuffle, and the identity for a co-located join. */
    method DistributeByKey(place: nat -> nat, mps: seq<Mp>) returns (frags: seq<Fragment>)
      modifies this`nextFragmentId
      ensures nextFragmentId == old(nextFragmentId) + |frags|
      ensures workers == [] ==> frags == []
      ensures workers != [] ==> Dispatches(frags, old(nextFragmentId), KeyDeals(workers, place, mps))
    {
      if workers == [] || mps == [] {
        return [];
      }
      var buckets: Buckets := map[];
      ghost var deals := KeyDeals(workers, place, mps);
      for i := 0 to |mps|
        invariant Holds(buckets, deals[..i]) && nextFragmentId == old(nextFragmentId)
      {
        var worker := workers[place(Key(mps[i])) % |workers|];
        PushHolds(buckets, deals, i);
        buckets := Push(buckets, worker, mps[i].id);
      }
      assert deals[..|mps|] == deals;
      frags := FragmentsFromBuckets(buckets, deals);
    }
  }
}
