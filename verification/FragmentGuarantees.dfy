/**
 What fragment distribution guarantees: every micro-partition is dealt once, evenly for scans,
 and stays dealt once over every run of reschedules.
*/
module FragmentGuarantees {
  import opened Wrappers
  import opened Fragments

  // ---- Sums over workers ----

  ghost function Sum<T>(ws: seq<nat>, f: nat -> multiset<T>): multiset<T> {
    if ws == [] then multiset{} else Sum(ws[1..], f) + f(ws[0])
  }

  lemma {:induction false} SumSame<T>(ws: seq<nat>, f: nat -> multiset<T>, g: nat -> multiset<T>)
    requires forall w :: w in ws ==> f(w) == g(w)
    ensures Sum(ws, f) == Sum(ws, g)
    decreases |ws|
  {
    if ws != [] {
      assert ws[0] in ws;
      SumSame(ws[1..], f, g);
    }
  }

  /** Adding d at one worker adds d to the sum. */
  lemma {:induction false} SumBump<T>(ws: seq<nat>, f: nat -> multiset<T>, g: nat -> multiset<T>,
                                      t: nat, d: multiset<T>)
    requires Increasing(ws) && t in ws
    requires g(t) == f(t) + d && forall w :: w in ws && w != t ==> g(w) == f(w)
    ensures Sum(ws, g) == Sum(ws, f) + d
    decreases |ws|
  {
    assert ws == [ws[0]] + ws[1..];
    if ws[0] == t {
      SumSame(ws[1..], f, g);
    } else {
      SumBump(ws[1..], f, g, t, d);
      assert ws[0] in ws;
    }
  }

  // ---- Coverage ----

  ghost function MpsIn(frags: seq<Fragment>): multiset<nat> {
    if frags == [] then multiset{} else MpsIn(frags[..|frags| - 1]) + multiset(frags[|frags| - 1].mps)
  }

  ghost function Ids(mps: seq<Mp>): (ids: seq<nat>)
    ensures |ids| == |mps| && forall i :: 0 <= i < |mps| ==> ids[i] == mps[i].id
  {
    seq(|mps|, i requires 0 <= i < |mps| => mps[i].id)
  }

  ghost function Dealt(deals: seq<Deal>): (ids: seq<nat>)
    ensures |ids| == |deals| && forall i :: 0 <= i < |deals| ==> ids[i] == deals[i].mp
  {
    seq(|deals|, i requires 0 <= i < |deals| => deals[i].mp)
  }

  ghost function Shares(deals: seq<Deal>): nat -> multiset<nat> {
    w => multiset(MpsOf(w, deals))
  }

  lemma {:induction false} SumOfShares(ws: seq<nat>, deals: seq<Deal>)
    requires Increasing(ws) && forall w :: IsDealt(w, deals) ==> w in ws
    ensures Sum(ws, Shares(deals)) == multiset(Dealt(deals))
    decreases |deals|
  {
    if deals == [] {
      SumOfNothing(ws, Shares(deals));
    } else {
      var n := |deals| - 1;
      var init, d := deals[..n], deals[n];
      DealtPrefix(deals, n);
      SumOfShares(ws, init);
      assert IsDealt(d.worker, deals);
      SumBump(ws, Shares(init), Shares(deals), d.worker, multiset{d.mp});
      DealtStep(deals);
    }
  }

  lemma DealtStep(deals: seq<Deal>)
    requires deals != []
    ensures var init, d := deals[..|deals| - 1], deals[|deals| - 1];
            Dealt(deals) == Dealt(init) + [d.mp] && multiset(Dealt(deals)) == multiset(Dealt(init)) + multiset{d.mp}
  {
    var init, d := deals[..|deals| - 1], deals[|deals| - 1];
    assert Dealt(deals) == Dealt(init) + [d.mp];
  }

  lemma {:induction false} SumOfNothing<T>(ws: seq<nat>, f: nat -> multiset<T>)
    requires forall w :: w in ws ==> f(w) == multiset{}
    ensures Sum(ws, f) == multiset{}
    decreases |ws|
  {
    if ws != [] {
      assert ws[0] in ws;
      SumOfNothing(ws[1..], f);
    }
  }

  lemma {:induction false} FragmentsAreShares(frags: seq<Fragment>, deals: seq<Deal>)
    requires forall k :: 0 <= k < |frags| ==> frags[k].mps == MpsOf(frags[k].worker, deals)
    ensures MpsIn(frags) == Sum(Workers(frags), Shares(deals))
    decreases |frags|
  {
    if frags != [] {
      var n := |frags| - 1;
      FragmentsAreShares(frags[..n], deals);
      assert Workers(frags) == Workers(frags[..n]) + [frags[n].worker];
      SumSnoc(Workers(frags[..n]), frags[n].worker, Shares(deals));
    }
  }

  lemma {:induction false} SumSnoc<T>(ws: seq<nat>, w: nat, f: nat -> multiset<T>)
    ensures Sum(ws + [w], f) == Sum(ws, f) + f(w)
    decreases |ws|
  {
    if ws == [] {
      assert Sum([w], f) == Sum([], f) + f(w);
    } else {
      assert (ws + [w])[1..] == ws[1..] + [w];
      SumSnoc(ws[1..], w, f);
    }
  }

  /** Every micro-partition that is dealt, by whichever rule, lands in exactly one fragment,
      as often as it was listed. */
  lemma DispatchCovers(frags: seq<Fragment>, first: nat, deals: seq<Deal>)
    requires Dispatches(frags, first, deals)
    ensures MpsIn(frags) == multiset(Dealt(deals))
  {
    FragmentsAreShares(frags, deals);
    SumOfShares(Workers(frags), deals);
  }

  // ---- What a worker is sent ----

  /** A table snapshot reduced to the fragment's micro-partitions. */
  function Retain(all: seq<nat>, keep: set<nat>): seq<nat> {
    if all == [] then []
    else Retain(all[..|all| - 1], keep) + if all[|all| - 1] in keep then [all[|all| - 1]] else []
  }

  lemma {:induction false} RetainChosen(deals: seq<Deal>, w: nat, keep: set<nat>)
    requires forall i :: 0 <= i < |deals| ==> (deals[i].mp in keep <==> deals[i].worker == w)
    ensures Retain(Dealt(deals), keep) == MpsOf(w, deals)
    decreases |deals|
  {
    if deals != [] {
      var n := |deals| - 1;
      RetainChosen(deals[..n], w, keep);
      assert Dealt(deals)[..n] == Dealt(deals[..n]);
    }
  }

  lemma {:induction false} ShareMembers(deals: seq<Deal>, w: nat, x: nat)
    ensures x in MpsOf(w, deals) <==> exists i :: 0 <= i < |deals| && deals[i].worker == w && deals[i].mp == x
    decreases |deals|
  {
    if deals != [] {
      var n := |deals| - 1;
      ShareMembers(deals[..n], w, x);
      if i :| 0 <= i < n && deals[..n][i].worker == w && deals[..n][i].mp == x {
        assert deals[i].worker == w && deals[i].mp == x;
      }
      if i :| 0 <= i < n && deals[i].worker == w && deals[i].mp == x {
        assert deals[..n][i].worker == w && deals[..n][i].mp == x;
      }
    }
  }

  /** The snapshot a worker is sent for the partitioned table is exactly its share, so it is
      never empty and never read as the whole table. */
  lemma SnapshotIsShare(deals: seq<Deal>, w: nat)
    requires (forall i, j :: 0 <= i < j < |deals| ==> deals[i].mp != deals[j].mp) && IsDealt(w, deals)
    ensures var kept := Retain(Dealt(deals), set x | x in MpsOf(w, deals));
            kept == MpsOf(w, deals) && kept != []
  {
    var keep := set x | x in MpsOf(w, deals);
    forall i | 0 <= i < |deals|
      ensures deals[i].mp in keep <==> deals[i].worker == w
    {
      ShareMembers(deals, w, deals[i].mp);
    }
    RetainChosen(deals, w, keep);
    DealtIffSome(w, deals);
  }

  // ---- Balance ----

  ghost predicate DistinctIds(workers: seq<nat>) {
    forall i, j :: 0 <= i < j < |workers| ==> workers[i] != workers[j]
  }

  lemma DivMod(m: nat, n: nat)
    requires n > 0
    ensures var q, r := m / n, m % n;
            if r + 1 < n then (m + 1) / n == q && (m + 1) % n == r + 1 else (m + 1) / n == q + 1 && (m + 1) % n == 0
  {
    var q, r := m / n, m % n;
    assert m == q * n + r;
    if r + 1 < n {
      DivUnique(m + 1, n, q, r + 1);
    } else {
      assert m + 1 == (q + 1) * n;
      DivUnique(m + 1, n, q + 1, 0);
    }
  }

  lemma MulGrows(a: nat, b: nat, n: nat)
    requires a < b
    ensures a * n + n <= b * n
  {
    assert b * n == a * n + (b - a - 1) * n + n;
  }

  lemma DivUnique(m: nat, n: nat, q: nat, r: nat)
    requires r < n && m == q * n + r
    ensures m / n == q && m % n == r
  {
    var q', r' := m / n, m % n;
    assert m == q' * n + r';
    if q < q' {
      MulGrows(q, q', n);
    }
    if q' < q {
      MulGrows(q', q, n);
    }
  }

  /** Round-robin deals worker j its exact share: the quotient, and one of the remainder if j
      comes early enough. So no two workers differ by more than one. */
  lemma {:induction false} ScanIsBalanced(workers: seq<nat>, mps: seq<Mp>, j: nat)
    requires DistinctIds(workers) && j < |workers|
    ensures |MpsOf(workers[j], ScanDeals(workers, mps))| == |mps| / |workers| + if j < |mps| % |workers| then 1 else 0
    decreases |mps|
  {
    var n := |workers|;
    if mps == [] {
      DivUnique(0, n, 0, 0);
    } else {
      var m := |mps| - 1;
      ScanIsBalanced(workers, mps[..m], j);
      assert ScanDeals(workers, mps)[..m] == ScanDeals(workers, mps[..m]);
      DivMod(m, n);
      assert ScanDeals(workers, mps)[m].worker == workers[m % n];
      assert workers[m % n] == workers[j] <==> m % n == j;
    }
  }

  // ---- Reschedules ----

  ghost predicate FreshIds(frags: seq<Fragment>, next: nat) {
    && (forall i :: 0 <= i < |frags| ==> frags[i].id < next)
    && forall i, j :: 0 <= i < j < |frags| ==> frags[i].id != frags[j].id
  }

  ghost predicate SameMps(a: seq<Fragment>, b: seq<Fragment>) {
    |a| == |b| && forall i :: 0 <= i < |a| ==> a[i].mps == b[i].mps
  }

  /** Fragments of live workers stay as they are; the others get new ids and live workers. */
  ghost predicate Moved(f: Fragment, g: Fragment, next: nat, dead: seq<nat>) {
    g.mps == f.mps && g.worker !in dead && (g == f || g.id >= next)
  }

  lemma {:induction false} MoveEach(active: seq<nat>, next: nat, frags: seq<Fragment>, dead: seq<nat>)
    requires active != [] && forall w :: w in active ==> w !in dead
    ensures var (moved, next') := MoveFrom(active, next, frags, dead);
            && next <= next' && |moved| == |frags|
            && forall i :: 0 <= i < |frags| ==> Moved(frags[i], moved[i], next, dead)
    decreases |frags|
  {
    if frags != [] {
      var n := |frags| - 1;
      MoveEach(active, next, frags[..n], dead);
      var (moved, next') := MoveFrom(active, next, frags[..n], dead);
      assert active[n % |active|] in active;
      forall i | 0 <= i < n
        ensures Moved(frags[i], moved[i], next, dead)
      {
        assert Moved(frags[..n][i], moved[i], next, dead);
      }
    }
  }

  lemma {:induction false} MoveFresh(active: seq<nat>, next: nat, frags: seq<Fragment>, dead: seq<nat>)
    requires active != [] && FreshIds(frags, next) && forall w :: w in active ==> w !in dead
    ensures var (moved, next') := MoveFrom(active, next, frags, dead); FreshIds(moved, next')
    decreases |frags|
  {
    if frags != [] {
      var n := |frags| - 1;
      MoveFresh(active, next, frags[..n], dead);
      MoveEach(active, next, frags[..n], dead);
      var (moved, next') := MoveFrom(active, next, frags[..n], dead);
      forall i | 0 <= i < n
        ensures moved[i].id != frags[n].id
      {
        assert Moved(frags[..n][i], moved[i], next, dead);
      }
    }
  }

  /** A series of reschedules, each with its own list of dead workers. */
  ghost function RescheduleAll(workers: seq<nat>, next: nat, frags: seq<Fragment>,
                               deaths: seq<seq<nat>>): (seq<Fragment>, nat)
    decreases |deaths|
  {
    if deaths == [] then (frags, next)
    else
      var (moved, next') := Reschedule(workers, next, frags, deaths[0]);
      RescheduleAll(workers, next', moved, deaths[1..])
  }

  ghost predicate SomeLive(workers: seq<nat>, dead: seq<nat>) {
    exists w :: w in workers && w !in dead
  }

  /** As long as some worker lives each time: over every run of reschedules the fragments keep
      their micro-partitions, position by position, their ids stay distinct and below the
      next id, and none is left on a worker of the last list. */
  lemma {:induction false} ReschedulesConserve(workers: seq<nat>, next: nat, frags: seq<Fragment>,
                                               deaths: seq<seq<nat>>)
    requires FreshIds(frags, next) && forall i :: 0 <= i < |deaths| ==> SomeLive(workers, deaths[i])
    ensures var (moved, next') := RescheduleAll(workers, next, frags, deaths);
            && SameMps(frags, moved) && FreshIds(moved, next') && next <= next'
            && (deaths != [] ==> forall i :: 0 <= i < |moved| ==> moved[i].worker !in deaths[|deaths| - 1])
    decreases |deaths|
  {
    if deaths != [] {
      var (moved, next') := Reschedule(workers, next, frags, deaths[0]);
      StepConserves(workers, next, frags, deaths[0]);
      ReschedulesConserve(workers, next', moved, deaths[1..]);
    }
  }

  /** One reschedule: nothing is lost if and only if some worker lives or there was nothing. */
  lemma StepConserves(workers: seq<nat>, next: nat, frags: seq<Fragment>, dead: seq<nat>)
    requires FreshIds(frags, next)
    ensures var (moved, next') := Reschedule(workers, next, frags, dead);
            && (SameMps(frags, moved) <==> SomeLive(workers, dead) || frags == [])
            && (SomeLive(workers, dead) ==> FreshIds(moved, next') && next <= next'
                                            && forall i :: 0 <= i < |moved| ==> moved[i].worker !in dead)
  {
    var live := Live(workers, dead);
    var active := Sorted(live);
    SortedSorts(live);
    assert forall w :: w in active <==> w in multiset(active);
    assert forall w :: w in live <==> w in multiset(live);
    if active == [] {
      assert live == [];
    } else {
      assert active[0] in active;
      MoveEach(active, next, frags, dead);
      MoveFresh(active, next, frags, dead);
    }
  }

  /** Equal micro-partitions position by position are equal as a whole. */
  lemma {:induction false} SameMpsSameTotal(a: seq<Fragment>, b: seq<Fragment>)
    requires SameMps(a, b)
    ensures MpsIn(a) == MpsIn(b)
    decreases |a|
  {
    if a != [] {
      SameMpsSameTotal(a[..|a| - 1], b[..|b| - 1]);
    }
  }

  /** A distribution followed by any number of reschedules still covers every micro-partition
      exactly once, without an empty fragment. */
  lemma DistributionSurvives(workers: seq<nat>, first: nat, frags: seq<Fragment>, deals: seq<Deal>,
                             deaths: seq<seq<nat>>)
    requires Dispatches(frags, first, deals) && forall i :: 0 <= i < |deaths| ==> SomeLive(workers, deaths[i])
    ensures var (moved, _) := RescheduleAll(workers, first + |frags|, frags, deaths);
            && MpsIn(moved) == multiset(Dealt(deals))
            && forall i :: 0 <= i < |moved| ==> moved[i].mps != []
  {
    ReschedulesConserve(workers, first + |frags|, frags, deaths);
    var (moved, _) := RescheduleAll(workers, first + |frags|, frags, deaths);
    SameMpsSameTotal(frags, moved);
    DispatchCovers(frags, first, deals);
  }
}
