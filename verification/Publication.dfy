/**
 How one statement publishes its change rows: it allocates one sequence range per group of
 rows and commits them all together. With no other writer active, the log then continues
 with exactly the statement's rows in order.
*/
module Publication {
  import opened ChangeLog
  import opened Wrappers
  import opened StreamProtocol
  import opened StreamGuarantees
  import opened CopyOnWrite

  ghost predicate NoneEmpty<T>(groups: seq<seq<T>>) {
    forall i :: 0 <= i < |groups| ==> groups[i] != []
  }

  /** Allocates a range for every group in turn. */
  ghost function AllocateAll<D>(s: Store<D>, txn: nat, groups: seq<seq<D>>): (s': Store<D>)
    requires NoneEmpty(groups) && Allocated(s) + |Concat(groups)| < U64_MAX
    ensures Allocated(s') == Allocated(s) + |Concat(groups)|
    ensures s'.log == s.log && s'.watermark == s.watermark && s'.commits == s.commits
    decreases |groups|
  {
    if groups == [] then s
    else Step(AllocateAll(s, txn, groups[..|groups| - 1]), Allocate(txn, |groups[|groups| - 1]|))
  }

  lemma {:induction false} AllocateMore<D>(s: Store<D>, txn: nat, a: seq<seq<D>>, b: seq<seq<D>>)
    requires NoneEmpty(a) && NoneEmpty(b) && Allocated(s) + |Concat(a)| + |Concat(b)| < U64_MAX
    ensures NoneEmpty(a + b) && |Concat(a + b)| == |Concat(a)| + |Concat(b)|
    ensures AllocateAll(s, txn, a + b) == AllocateAll(AllocateAll(s, txn, a), txn, b)
    decreases |b|
  {
    ConcatAppend(a, b);
    if b == [] {
      assert a + b == a;
    } else {
      var init, last := b[..|b| - 1], b[|b| - 1];
      assert b == init + [last] && a + b == (a + init) + [last];
      AllocateMore(s, txn, a, init);
    }
  }

  /** The ranges the groups receive, end to end behind n. */
  ghost function SpansFor<D>(n: nat, groups: seq<seq<D>>): (spans: seq<Span>)
    requires NoneEmpty(groups)
    ensures |spans| == |groups|
    decreases |groups|
  {
    if groups == [] then []
    else
      var init := groups[..|groups| - 1];
      SpansFor(n, init) + [Span(n + |Concat(init)| + 1, n + |Concat(groups)|)]
  }

  lemma {:induction false} SpansFit<D>(n: nat, groups: seq<seq<D>>)
    requires NoneEmpty(groups)
    ensures Fits(SpansFor(n, groups), groups)
    decreases |groups|
  {
    if groups != [] {
      var k := |groups| - 1;
      SpansFit(n, groups[..k]);
      assert |Concat(groups)| == |Concat(groups[..k])| + |groups[k]|;
      forall i | 0 <= i < |groups|
        ensures SpansFor(n, groups)[i].first + |groups[i]| == SpansFor(n, groups)[i].last + 1
      {
        assert i < k ==> SpansFor(n, groups)[i] == SpansFor(n, groups[..k])[i];
      }
    }
  }

  ghost predicate OnlyHolds<D>(s: Store<D>, txn: nat, spans: seq<Span>, s': Store<D>) {
    && Held(s', txn) == spans && s'.open - {txn} == s.open
    && s'.streams == s.streams && s'.creations == s.creations && s'.readers == s.readers
  }

  lemma {:induction false} HeldAfterAllocate<D>(s: Store<D>, txn: nat, groups: seq<seq<D>>)
    requires txn !in s.open && NoneEmpty(groups) && Allocated(s) + |Concat(groups)| < U64_MAX
    ensures OnlyHolds(s, txn, SpansFor(Allocated(s), groups), AllocateAll(s, txn, groups))
    decreases |groups|
  {
    if groups == [] {
      assert s.open - {txn} == s.open;
    } else {
      var k := |groups| - 1;
      HeldAfterAllocate(s, txn, groups[..k]);
    }
  }

  /** Begin, allocate, commit: one statement's whole effect on the store. */
  ghost function Publishes<D>(s: Store<D>, txn: nat, groups: seq<seq<D>>): Store<D>
    requires txn !in s.open && NoneEmpty(groups) && Allocated(s) + |Concat(groups)| < U64_MAX
  {
    HeldAfterAllocate(s, txn, groups);
    SpansFit(Allocated(s), groups);
    Step(AllocateAll(s, txn, groups), Commit(txn, groups))
  }

  ghost function Data<D>(rows: seq<ChangeRow<D>>): seq<D> {
    seq(|rows|, i requires 0 <= i < |rows| => rows[i].data)
  }

  ghost predicate HeldAt<D>(log: Log<D>, first: nat, data: seq<D>) {
    first in log && log[first].rows == NumberRows(first, data)
  }

  /** The record of span i holds group i. */
  ghost predicate Holds<D>(log: Log<D>, groups: seq<seq<D>>, spans: seq<Span>) {
    |spans| == |groups| && forall i :: 0 <= i < |groups| ==> HeldAt(log, spans[i].first, groups[i])
  }

  /** The log's records tile a+1 .. b and carry exactly this data. */
  ghost predicate Carries<D>(log: Log<D>, a: nat, b: nat, data: seq<D>) {
    Tiled(log, a, b) && Data(LogRows(log, a, b)) == data
  }

  lemma CarriesJoin<D>(log: Log<D>, a: nat, b: nat, c: nat, x: seq<D>, y: seq<D>)
    requires Carries(log, a, b, x) && Carries(log, b, c, y)
    ensures Carries(log, a, c, x + y)
  {
    TiledJoin(log, a, b, c);
  }

  lemma CarriesSnoc<D>(log: Log<D>, n: nat, mid: nat, data: seq<D>, last: seq<D>)
    requires Carries(log, n, mid, data)
    requires last != [] && HeldAt(log, mid + 1, last)
    ensures Carries(log, n, mid + |last|, data + last)
  {
    CarriesJoin(log, n, mid, mid + |last|, data, last);
  }

  lemma LastHeld<D>(log: Log<D>, n: nat, groups: seq<seq<D>>) returns (init: seq<seq<D>>, last: seq<D>)
    requires NoneEmpty(groups) && groups != [] && Holds(log, groups, SpansFor(n, groups))
    ensures |init| < |groups| && NoneEmpty(init) && last != [] && Concat(groups) == Concat(init) + last
    ensures Holds(log, init, SpansFor(n, init)) && HeldAt(log, n + |Concat(init)| + 1, last)
  {
    var k := |groups| - 1;
    init, last := groups[..k], groups[k];
  }

  lemma {:induction false} HeldRowsInOrder<D>(log: Log<D>, n: nat, groups: seq<seq<D>>)
    requires NoneEmpty(groups) && Holds(log, groups, SpansFor(n, groups))
    ensures Carries(log, n, n + |Concat(groups)|, Concat(groups))
    decreases |groups|
  {
    if groups == [] {
      assert LogRows(log, n, n) == [];
    } else {
      var init, last := LastHeld(log, n, groups);
      HeldRowsInOrder(log, n, init);
      CarriesSnoc(log, n, n + |Concat(init)|, Concat(init), last);
    }
  }

  /** The records a commit of these groups writes hold the groups. */
  lemma CommitHolds<D>(log: Log<D>, w: nat, high: nat, commit: nat, n: nat, groups: seq<seq<D>>)
    requires NoneEmpty(groups) && Fits(SpansFor(n, groups), groups)
    requires LogOk(log, w, high, commit) && WriterOk(log, w, high, SpansFor(n, groups))
    ensures Holds(Publish(log, MakeRecords(SpansFor(n, groups), groups, commit)), groups, SpansFor(n, groups))
  {
    var spans := SpansFor(n, groups);
    var rs := MakeRecords(spans, groups, commit);
    forall i | 0 <= i < |rs|
      ensures rs[i].sequence !in log
    {
      assert forall k :: k in log ==> |log[k].rows| > 0 && log[k].sequence == k && Apart(spans[i], Extent(log[k]));
    }
    PublishContents(log, rs);
    forall i | 0 <= i < |groups|
      ensures HeldAt(Publish(log, rs), spans[i].first, groups[i])
    {
      assert Publish(log, rs)[rs[i].sequence] == rs[i];
    }
  }

  /** No writer is active and everything issued is published. */
  ghost predicate Quiet<D>(s: Store<D>) {
    Inv(s) && s.open == map[] && s.watermark == Allocated(s)
  }

  lemma {:induction false} SpansContiguous<D>(n: nat, groups: seq<seq<D>>)
    requires NoneEmpty(groups)
    ensures Contiguous(SpansFor(n, groups), n, n + |Concat(groups)|)
    decreases |groups|
  {
    if groups != [] {
      var k := |groups| - 1;
      SpansContiguous(n, groups[..k]);
      ContiguousAppend(SpansFor(n, groups[..k]), n, n + |Concat(groups[..k])|, |groups[k]|);
    }
  }

  lemma {:induction false} AllocateAllInv<D>(s: Store<D>, txn: nat, groups: seq<seq<D>>)
    requires Inv(s) && NoneEmpty(groups) && Allocated(s) + |Concat(groups)| < U64_MAX
    ensures Inv(AllocateAll(s, txn, groups))
    decreases |groups|
  {
    if groups != [] {
      var k := |groups| - 1;
      AllocateAllInv(s, txn, groups[..k]);
      StepInv(AllocateAll(s, txn, groups[..k]), Allocate(txn, |groups[k]|));
    }
  }

  /** After the allocations: the statement holds its ranges end to end behind the watermark. */
  lemma StatementHolds<D>(s: Store<D>, txn: nat, groups: seq<seq<D>>)
    requires s.open == map[] && s.watermark == Allocated(s)
    requires NoneEmpty(groups) && Allocated(s) + |Concat(groups)| < U64_MAX
    ensures var s1, spans := AllocateAll(s, txn, groups), SpansFor(s.watermark, groups);
            && OnlyHolds(s, txn, spans, s1) && Fits(spans, groups)
            && WalkFrom(s.watermark, spans) == s.watermark + |Concat(groups)|
  {
    var n := s.watermark;
    HeldAfterAllocate(s, txn, groups);
    SpansFit(n, groups);
    SpansContiguous(n, groups);
    ContiguousWalk(SpansFor(n, groups), n, n + |Concat(groups)|);
  }

  /** Committing the held ranges appends the groups to the readable log. */
  lemma CommitAppends<D>(s1: Store<D>, txn: nat, n: nat, groups: seq<seq<D>>)
    requires WritersOk(s1) && NoneEmpty(groups) && s1.watermark == n
    requires Held(s1, txn) == SpansFor(n, groups) && Fits(SpansFor(n, groups), groups)
    ensures var s' := Step(s1, Commit(txn, groups));
            && Allocated(s') == Allocated(s1) && Extends(s1.log, s'.log)
            && Carries(s'.log, n, n + |Concat(groups)|, Concat(groups))
  {
    var s' := Step(s1, Commit(txn, groups));
    CommitWriters(s1, txn, groups);
    assert Holds(s'.log, groups, SpansFor(n, groups)) by {
      HeldOk(s1, txn);
      CommitHolds(s1.log, s1.watermark, Allocated(s1), s1.commits, n, groups);
    }
    HeldRowsInOrder(s'.log, n, groups);
  }

  /** A statement that runs alone appends its rows, and nothing else, to the readable log. */
  lemma StatementAppends<D>(s: Store<D>, txn: nat, groups: seq<seq<D>>)
    requires s.open == map[] && s.watermark == Allocated(s)
    requires NoneEmpty(groups) && Allocated(s) + |Concat(groups)| < U64_MAX
    requires WritersOk(AllocateAll(s, txn, groups))
    ensures var s' := Publishes(s, txn, groups);
            && Extends(s.log, s'.log) && s'.open == map[]
            && s'.watermark == Allocated(s') == s.watermark + |Concat(groups)|
            && Carries(s'.log, s.watermark, s'.watermark, Concat(groups))
            && s'.streams == s.streams && s'.creations == s.creations && s'.readers == s.readers
  {
    StatementHolds(s, txn, groups);
    CommitAppends(AllocateAll(s, txn, groups), txn, s.watermark, groups);
  }

  lemma StatementInv<D>(s: Store<D>, txn: nat, groups: seq<seq<D>>)
    requires Inv(s) && txn !in s.open && NoneEmpty(groups) && Allocated(s) + |Concat(groups)| < U64_MAX
    ensures WritersOk(AllocateAll(s, txn, groups)) && Inv(Publishes(s, txn, groups))
  {
    HeldAfterAllocate(s, txn, groups);
    SpansFit(Allocated(s), groups);
    AllocateAllInv(s, txn, groups);
    StepInv(AllocateAll(s, txn, groups), Commit(txn, groups));
  }

  /** Alone between two quiet states, a statement keeps the store quiet and appends exactly
      its change rows to what every stream will read. */
  lemma QuietStatement<D>(s: Store<D>, txn: nat, groups: seq<seq<D>>)
    requires Quiet(s) && NoneEmpty(groups) && Allocated(s) + |Concat(groups)| < U64_MAX
    ensures Quiet(Publishes(s, txn, groups))
    ensures var s' := Publishes(s, txn, groups);
            && Extends(s.log, s'.log) && s'.streams == s.streams
            && s'.watermark == s.watermark + |Concat(groups)|
            && Carries(s'.log, s.watermark, s'.watermark, Concat(groups))
  {
    StatementInv(s, txn, groups);
    StatementAppends(s, txn, groups);
  }
}
