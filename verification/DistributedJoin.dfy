/**
 Distributed inner joins: each worker joins the micro-partitions it was dealt, and the union
 of the workers' results is the join of the whole tables.
*/
module DistributedJoin {
  import opened Wrappers
  import opened Fragments
  import opened FragmentGuarantees

  // ---- Inner join of row lists ----

  ghost function JoinRow<A, B>(x: A, ys: seq<B>, on: (A, B) -> bool): multiset<(A, B)> {
    if ys == [] then multiset{}
    else JoinRow(x, ys[..|ys| - 1], on) + if on(x, ys[|ys| - 1]) then multiset{(x, ys[|ys| - 1])} else multiset{}
  }

  ghost function InnerJoin<A, B>(xs: seq<A>, ys: seq<B>, on: (A, B) -> bool): multiset<(A, B)> {
    if xs == [] then multiset{}
    else InnerJoin(xs[..|xs| - 1], ys, on) + JoinRow(xs[|xs| - 1], ys, on)
  }

  lemma SnocSeq<T>(a: seq<T>, b: seq<T>)
    requires b != []
    ensures var n := |b| - 1;
            (a + b)[..|a + b| - 1] == a + b[..n] && (a + b)[|a + b| - 1] == b[n]
  {}

  lemma {:induction false} JoinRowAppend<A, B>(x: A, a: seq<B>, b: seq<B>, on: (A, B) -> bool)
    ensures JoinRow(x, a + b, on) == JoinRow(x, a, on) + JoinRow(x, b, on)
    decreases |b|
  {
    if b == [] {
      assert a + b == a;
    } else {
      var n := |b| - 1;
      SnocSeq(a, b);
      JoinRowAppend(x, a, b[..n], on);
    }
  }

  lemma {:induction false} JoinAppendLeft<A, B>(a: seq<A>, b: seq<A>, ys: seq<B>, on: (A, B) -> bool)
    ensures InnerJoin(a + b, ys, on) == InnerJoin(a, ys, on) + InnerJoin(b, ys, on)
    decreases |b|
  {
    if b == [] {
      assert a + b == a;
    } else {
      var n := |b| - 1;
      SnocSeq(a, b);
      JoinAppendLeft(a, b[..n], ys, on);
    }
  }

  lemma {:induction false} JoinAppendRight<A, B>(xs: seq<A>, a: seq<B>, b: seq<B>, on: (A, B) -> bool)
    ensures InnerJoin(xs, a + b, on) == InnerJoin(xs, a, on) + InnerJoin(xs, b, on)
    decreases |xs|
  {
    if xs != [] {
      var init, x := xs[..|xs| - 1], xs[|xs| - 1];
      JoinAppendRight(init, a, b, on);
      JoinRowAppend(x, a, b, on);
    }
  }

  ghost predicate NoMatch<A, B>(xs: seq<A>, ys: seq<B>, on: (A, B) -> bool) {
    forall i, j :: 0 <= i < |xs| && 0 <= j < |ys| ==> !on(xs[i], ys[j])
  }

  lemma {:induction false} JoinRowEmpty<A, B>(x: A, ys: seq<B>, on: (A, B) -> bool)
    requires forall j :: 0 <= j < |ys| ==> !on(x, ys[j])
    ensures JoinRow(x, ys, on) == multiset{}
    decreases |ys|
  {
    if ys != [] {
      JoinRowEmpty(x, ys[..|ys| - 1], on);
    }
  }

  lemma {:induction false} JoinEmpty<A, B>(xs: seq<A>, ys: seq<B>, on: (A, B) -> bool)
    requires NoMatch(xs, ys, on)
    ensures InnerJoin(xs, ys, on) == multiset{}
    decreases |xs|
  {
    if xs != [] {
      JoinEmpty(xs[..|xs| - 1], ys, on);
      JoinRowEmpty(xs[|xs| - 1], ys, on);
    }
  }

  // ---- Reading micro-partitions ----

  /** The rows of a list of micro-partitions. */
  ghost function ReadAll<R>(ids: seq<nat>, file: nat -> seq<R>): seq<R> {
    if ids == [] then [] else ReadAll(ids[..|ids| - 1], file) + file(ids[|ids| - 1])
  }

  /** What each worker's join yields, with `rightOf` the right-hand rows it has. */
  ghost function Locals<A, B>(left: seq<Deal>, lf: nat -> seq<A>, rightOf: nat -> seq<B>,
                              on: (A, B) -> bool): nat -> multiset<(A, B)> {
    (w: nat) => InnerJoin(ReadAll(MpsOf(w, left), lf), rightOf(w), on)
  }

  lemma LocalsStep<A, B>(left: seq<Deal>, lf: nat -> seq<A>, rightOf: nat -> seq<B>, on: (A, B) -> bool, w: nat)
    requires left != []
    ensures var init, d := left[..|left| - 1], left[|left| - 1];
            Locals(left, lf, rightOf, on)(w)
            == Locals(init, lf, rightOf, on)(w)
               + if w == d.worker then InnerJoin(lf(d.mp), rightOf(w), on) else multiset{}
  {
    var init, d := left[..|left| - 1], left[|left| - 1];
    if w == d.worker {
      JoinAppendLeft(ReadAll(MpsOf(w, init), lf), lf(d.mp), rightOf(w), on);
    } else {
      assert MpsOf(w, left) == MpsOf(w, init);
    }
  }

  lemma WholeStep<A, B>(left: seq<Deal>, lf: nat -> seq<A>, whole: seq<B>, on: (A, B) -> bool)
    requires left != []
    ensures var init, d := left[..|left| - 1], left[|left| - 1];
            InnerJoin(ReadAll(Dealt(left), lf), whole, on)
            == InnerJoin(ReadAll(Dealt(init), lf), whole, on) + InnerJoin(lf(d.mp), whole, on)
  {
    var init, d := left[..|left| - 1], left[|left| - 1];
    assert Dealt(left) == Dealt(init) + [d.mp];
    JoinAppendLeft(ReadAll(Dealt(init), lf), lf(d.mp), whole, on);
  }

  /** Each left micro-partition finds at its own worker all it would find in the whole. */
  ghost predicate Suffices<A, B>(left: seq<Deal>, lf: nat -> seq<A>, rightOf: nat -> seq<B>, whole: seq<B>,
                                 on: (A, B) -> bool) {
    forall i :: 0 <= i < |left| ==>
                  InnerJoin(lf(left[i].mp), rightOf(left[i].worker), on) == InnerJoin(lf(left[i].mp), whole, on)
  }

  /** The workers' joins together are the whole join. */
  lemma {:induction false} LocalsMakeWhole<A, B>(ws: seq<nat>, left: seq<Deal>, lf: nat -> seq<A>,
                                                 rightOf: nat -> seq<B>,
                                                 whole: seq<B>, on: (A, B) -> bool)
    requires Increasing(ws) && (forall w :: IsDealt(w, left) ==> w in ws) && Suffices(left, lf, rightOf, whole, on)
    ensures Sum(ws, Locals(left, lf, rightOf, on)) == InnerJoin(ReadAll(Dealt(left), lf), whole, on)
    decreases |left|
  {
    var here := Locals(left, lf, rightOf, on);
    if left == [] {
      SumOfNothing(ws, here);
    } else {
      var n := |left| - 1;
      var init, d := left[..n], left[n];
      var before := Locals(init, lf, rightOf, on);
      DealtPrefix(left, n);
      assert Suffices(init, lf, rightOf, whole, on);
      LocalsMakeWhole(ws, init, lf, rightOf, whole, on);
      forall w: nat
        ensures here(w) == before(w) + if w == d.worker then InnerJoin(lf(d.mp), rightOf(w), on) else multiset{}
      {
        LocalsStep(left, lf, rightOf, on, w);
      }
      assert IsDealt(d.worker, left);
      SumBump(ws, before, here, d.worker, InnerJoin(lf(d.mp), whole, on));
      WholeStep(left, lf, whole, on);
    }
  }

  // ---- Scan-partitioned with broadcast ----

  ghost function Everywhere<B>(whole: seq<B>): nat -> seq<B> {
    (w: nat) => whole
  }

  ghost function FragmentJoins<A, B>(frags: seq<Fragment>, lf: nat -> seq<A>, whole: seq<B>,
                                     on: (A, B) -> bool): multiset<(A, B)> {
    if frags == [] then multiset{}
    else FragmentJoins(frags[..|frags| - 1], lf, whole, on) + InnerJoin(ReadAll(frags[|frags| - 1].mps, lf), whole, on)
  }

  lemma WorkersSnoc(frags: seq<Fragment>)
    requires frags != []
    ensures Workers(frags) == Workers(frags[..|frags| - 1]) + [frags[|frags| - 1].worker]
  {}

  /** `f` gives each fragment's own join at the fragment's worker. */
  lemma {:induction false} FragmentJoinsAreSum<A, B>(frags: seq<Fragment>, f: nat -> multiset<(A, B)>,
                                                     lf: nat -> seq<A>,
                                                     whole: seq<B>, on: (A, B) -> bool)
    requires forall k :: 0 <= k < |frags| ==> f(frags[k].worker) == InnerJoin(ReadAll(frags[k].mps, lf), whole, on)
    ensures FragmentJoins(frags, lf, whole, on) == Sum(Workers(frags), f)
    decreases |frags|
  {
    if frags != [] {
      var init, last := frags[..|frags| - 1], frags[|frags| - 1];
      FragmentJoinsAreSum(init, f, lf, whole, on);
      WorkersSnoc(frags);
      SumSnoc(Workers(init), last.worker, f);
      assert f(last.worker) == InnerJoin(ReadAll(last.mps, lf), whole, on);
    }
  }

  lemma {:induction false} SameMpsSameJoins<A, B>(a: seq<Fragment>, b: seq<Fragment>, lf: nat -> seq<A>, whole: seq<B>,
                                                  on: (A, B) -> bool)
    requires SameMps(a, b)
    ensures FragmentJoins(a, lf, whole, on) == FragmentJoins(b, lf, whole, on)
    decreases |a|
  {
    if a != [] {
      SameMpsSameJoins(a[..|a| - 1], b[..|b| - 1], lf, whole, on);
    }
  }

  lemma DispatchedJoinIsJoin<A, B>(first: nat, frags: seq<Fragment>, deals: seq<Deal>, lf: nat -> seq<A>, whole: seq<B>,
                                   on: (A, B) -> bool)
    requires Dispatches(frags, first, deals)
    ensures FragmentJoins(frags, lf, whole, on) == InnerJoin(ReadAll(Dealt(deals), lf), whole, on)
  {
    FragmentJoinsAreSum(frags, Locals(deals, lf, Everywhere(whole), on), lf, whole, on);
    LocalsMakeWhole(Workers(frags), deals, lf, Everywhere(whole), whole, on);
  }

  /** The fragments of a distributed scan, each joined with the whole broadcast table, give the
      join of the two tables: as dispatched, and after any run of reschedules in which some
      worker lives. */
  lemma BroadcastJoinIsJoin<A, B>(workers: seq<nat>, first: nat, frags: seq<Fragment>, deals: seq<Deal>,
                                  deaths: seq<seq<nat>>,
                                  lf: nat -> seq<A>, whole: seq<B>, on: (A, B) -> bool)
    requires Dispatches(frags, first, deals) && forall i :: 0 <= i < |deaths| ==> SomeLive(workers, deaths[i])
    ensures var (moved, _) := RescheduleAll(workers, first + |frags|, frags, deaths);
            FragmentJoins(moved, lf, whole, on) == InnerJoin(ReadAll(Dealt(deals), lf), whole, on)
  {
    var (moved, _) := RescheduleAll(workers, first + |frags|, frags, deaths);
    assert SameMps(frags, moved) by {
      ReschedulesConserve(workers, first + |frags|, frags, deaths);
    }
    SameMpsSameJoins(frags, moved, lf, whole, on);
    DispatchedJoinIsJoin(first, frags, deals, lf, whole, on);
  }

  // ---- Shuffle and co-located joins ----

  /** Micro-partitions dealt to different workers have no matching rows. */
  ghost predicate CoPartitioned<A, B>(left: seq<Deal>, lf: nat -> seq<A>, right: seq<Deal>, rf: nat -> seq<B>,
                                      on: (A, B) -> bool) {
    forall i, j :: 0 <= i < |left| && 0 <= j < |right| && left[i].worker != right[j].worker ==>
                     NoMatch(lf(left[i].mp), rf(right[j].mp), on)
  }

  /** Rows that match nothing dealt elsewhere find all their matches at worker w. */
  lemma {:induction false} OwnWorkerSuffices<A, B>(x: seq<A>, w: nat, right: seq<Deal>, rf: nat -> seq<B>,
                                                   on: (A, B) -> bool)
    requires forall j :: 0 <= j < |right| && right[j].worker != w ==> NoMatch(x, rf(right[j].mp), on)
    ensures InnerJoin(x, ReadAll(MpsOf(w, right), rf), on) == InnerJoin(x, ReadAll(Dealt(right), rf), on)
    decreases |right|
  {
    if right != [] {
      var n := |right| - 1;
      var init, d := right[..n], right[n];
      OwnWorkerSuffices(x, w, init, rf, on);
      assert Dealt(right) == Dealt(init) + [d.mp];
      JoinAppendRight(x, ReadAll(Dealt(init), rf), rf(d.mp), on);
      if d.worker == w {
        JoinAppendRight(x, ReadAll(MpsOf(w, init), rf), rf(d.mp), on);
      } else {
        JoinEmpty(x, rf(d.mp), on);
        assert MpsOf(w, right) == MpsOf(w, init);
      }
    }
  }

  /** The same from the other side. */
  lemma {:induction false} OwnWorkerSufficesLeft<A, B>(w: nat, left: seq<Deal>, lf: nat -> seq<A>, y: seq<B>,
                                                       on: (A, B) -> bool)
    requires forall i :: 0 <= i < |left| && left[i].worker != w ==> NoMatch(lf(left[i].mp), y, on)
    ensures InnerJoin(ReadAll(MpsOf(w, left), lf), y, on) == InnerJoin(ReadAll(Dealt(left), lf), y, on)
    decreases |left|
  {
    if left != [] {
      var n := |left| - 1;
      var init, d := left[..n], left[n];
      OwnWorkerSufficesLeft(w, init, lf, y, on);
      WholeStep(left, lf, y, on);
      if d.worker == w {
        JoinAppendLeft(ReadAll(MpsOf(w, init), lf), lf(d.mp), y, on);
      } else {
        JoinEmpty(lf(d.mp), y, on);
        assert MpsOf(w, left) == MpsOf(w, init);
      }
    }
  }

  lemma {:induction false} SharesMatchNothing<A, B>(w: nat, left: seq<Deal>, lf: nat -> seq<A>, y: seq<B>,
                                                    on: (A, B) -> bool)
    requires forall i :: 0 <= i < |left| && left[i].worker == w ==> NoMatch(lf(left[i].mp), y, on)
    ensures NoMatch(ReadAll(MpsOf(w, left), lf), y, on)
    decreases |left|
  {
    if left != [] {
      var n := |left| - 1;
      SharesMatchNothing(w, left[..n], lf, y, on);
      if left[n].worker == w {
      } else {
        assert MpsOf(w, left) == MpsOf(w, left[..n]);
      }
    }
  }

  lemma {:induction false} NothingMatchesShares<A, B>(x: seq<A>, w: nat, right: seq<Deal>, rf: nat -> seq<B>,
                                                      on: (A, B) -> bool)
    requires forall j :: 0 <= j < |right| && right[j].worker == w ==> NoMatch(x, rf(right[j].mp), on)
    ensures NoMatch(x, ReadAll(MpsOf(w, right), rf), on)
    decreases |right|
  {
    if right != [] {
      var n := |right| - 1;
      NothingMatchesShares(x, w, right[..n], rf, on);
      if right[n].worker == w {
      } else {
        assert MpsOf(w, right) == MpsOf(w, right[..n]);
      }
    }
  }

  /** What a worker reads for a table: the listed micro-partitions, or all of the table's when
      the list it was sent is empty. */
  function ListedOrAll(listed: seq<nat>, all: seq<nat>): seq<nat> {
    if listed == [] then all else listed
  }

  ghost function WorkerJoins<A, B>(left: seq<Deal>, lf: nat -> seq<A>, right: seq<Deal>, rf: nat -> seq<B>,
                                   on: (A, B) -> bool): nat -> multiset<(A, B)> {
    (w: nat) => InnerJoin(ReadAll(ListedOrAll(MpsOf(w, left), Dealt(left)), lf),
                          ReadAll(ListedOrAll(MpsOf(w, right), Dealt(right)), rf), on)
  }

  ghost function RightAt<B>(right: seq<Deal>, rf: nat -> seq<B>): nat -> seq<B> {
    (w: nat) => ReadAll(MpsOf(w, right), rf)
  }

  /** Reading a whole table in place of an empty list adds nothing to a worker's join. */
  lemma EmptyListIsHarmless<A, B>(left: seq<Deal>, lf: nat -> seq<A>, right: seq<Deal>, rf: nat -> seq<B>,
                                  on: (A, B) -> bool, w: nat)
    requires CoPartitioned(left, lf, right, rf, on) && (IsDealt(w, left) || IsDealt(w, right))
    ensures WorkerJoins(left, lf, right, rf, on)(w) == Locals(left, lf, RightAt(right, rf), on)(w)
  {
    DealtIffSome(w, left);
    DealtIffSome(w, right);
    if MpsOf(w, right) == [] {
      var x := ReadAll(MpsOf(w, left), lf);
      forall j | 0 <= j < |right|
        ensures NoMatch(x, rf(right[j].mp), on)
      {
        assert right[j].worker != w;
        SharesMatchNothing(w, left, lf, rf(right[j].mp), on);
      }
      OwnWorkerSuffices(x, w, right, rf, on);
    } else if MpsOf(w, left) == [] {
      var y := ReadAll(MpsOf(w, right), rf);
      forall i | 0 <= i < |left|
        ensures NoMatch(lf(left[i].mp), y, on)
      {
        assert left[i].worker != w;
        NothingMatchesShares(lf(left[i].mp), w, right, rf, on);
      }
      OwnWorkerSufficesLeft(w, left, lf, y, on);
    }
  }

  /** For tables dealt so that matching rows meet: the workers' joins, over all workers that
      were dealt anything, are together the join of the two tables. */
  lemma DealtJoinIsJoin<A, B>(ws: seq<nat>, left: seq<Deal>, lf: nat -> seq<A>, right: seq<Deal>, rf: nat -> seq<B>,
                              on: (A, B) -> bool)
    requires CoPartitioned(left, lf, right, rf, on)
    requires Increasing(ws) && forall w :: w in ws <==> IsDealt(w, left) || IsDealt(w, right)
    ensures Sum(ws, WorkerJoins(left, lf, right, rf, on))
            == InnerJoin(ReadAll(Dealt(left), lf), ReadAll(Dealt(right), rf), on)
  {
    forall w | w in ws
      ensures WorkerJoins(left, lf, right, rf, on)(w) == Locals(left, lf, RightAt(right, rf), on)(w)
    {
      EmptyListIsHarmless(left, lf, right, rf, on, w);
    }
    SumSame(ws, WorkerJoins(left, lf, right, rf, on), Locals(left, lf, RightAt(right, rf), on));
    forall i | 0 <= i < |left|
      ensures InnerJoin(lf(left[i].mp), RightAt(right, rf)(left[i].worker), on)
              == InnerJoin(lf(left[i].mp), ReadAll(Dealt(right), rf), on)
    {
      OwnWorkerSuffices(lf(left[i].mp), left[i].worker, right, rf, on);
    }
    LocalsMakeWhole(ws, left, lf, RightAt(right, rf), ReadAll(Dealt(right), rf), on);
  }

  /** Rows match only across micro-partitions with equal partition keys. */
  ghost predicate KeysAlign<A, B>(left: seq<Mp>, lf: nat -> seq<A>, right: seq<Mp>, rf: nat -> seq<B>,
                                  on: (A, B) -> bool) {
    forall i, j :: 0 <= i < |left| && 0 <= j < |right| && Key(left[i]) != Key(right[j]) ==>
                     NoMatch(lf(left[i].id), rf(right[j].id), on)
  }

  /** Two tables distributed by key over the same workers with the same placement, be it the
      key itself or any hash of it: the workers' joins are together the join of the tables. */
  lemma CoLocatedJoinIsJoin<A, B>(ws: seq<nat>, workers: seq<nat>, place: nat -> nat, left: seq<Mp>, lf: nat -> seq<A>,
                                  right: seq<Mp>, rf: nat -> seq<B>, on: (A, B) -> bool)
    requires workers != [] && KeysAlign(left, lf, right, rf, on)
    requires Increasing(ws)
    requires forall w :: w in ws <==>
                           IsDealt(w, KeyDeals(workers, place, left)) || IsDealt(w, KeyDeals(workers, place, right))
    ensures Sum(ws, WorkerJoins(KeyDeals(workers, place, left), lf, KeyDeals(workers, place, right), rf, on))
            == InnerJoin(ReadAll(Ids(left), lf), ReadAll(Ids(right), rf), on)
  {
    var l, r := KeyDeals(workers, place, left), KeyDeals(workers, place, right);
    assert Dealt(l) == Ids(left) && Dealt(r) == Ids(right);
    DealtJoinIsJoin(ws, l, lf, r, rf, on);
  }

}
