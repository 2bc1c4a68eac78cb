/**
 What the change-stream protocol guarantees over whole runs, and where it falls short.
*/
module StreamGuarantees {
  import opened ChangeLog
  import opened Wrappers
  import opened StreamProtocol

  /** `actions` is a run from s: each action is enabled when its turn comes. */
  ghost predicate Runs<D>(s: Store<D>, actions: seq<Action<D>>)
    decreases |actions|
  {
    actions == [] || (Enabled(s, actions[0]) && Runs(Step(s, actions[0]), actions[1..]))
  }

  ghost function RunFrom<D>(s: Store<D>, actions: seq<Action<D>>): Store<D>
    requires Runs(s, actions)
    decreases |actions|
  {
    if actions == [] then s else RunFrom(Step(s, actions[0]), actions[1..])
  }

  lemma RunCons<D>(s: Store<D>, a: Action<D>, rest: seq<Action<D>>)
    requires Enabled(s, a) && Runs(Step(s, a), rest)
    ensures Runs(s, [a] + rest) && RunFrom(s, [a] + rest) == RunFrom(Step(s, a), rest)
  {
    assert ([a] + rest)[1..] == rest;
  }

  lemma {:induction false} RunInv<D>(s: Store<D>, actions: seq<Action<D>>)
    requires Inv(s) && Runs(s, actions)
    ensures Inv(RunFrom(s, actions))
    decreases |actions|
  {
    if actions != [] {
      StepInv(s, actions[0]);
      RunInv(Step(s, actions[0]), actions[1..]);
    }
  }

  // ---- Exactly once, in order, and only what is new ----

  /** Row x of `rows` stands in a published record of commit `born` or later. */
  ghost predicate FromCommitSince<D>(log: Log<D>, row: ChangeRow<D>, born: nat) {
    exists k :: k in log && born <= log[k].commit && row in log[k].rows
  }

  lemma {:induction false} LogRowsFrom<D>(log: Log<D>, a: nat, b: nat, w: nat, born: nat)
    requires Tiled(log, a, b) && b <= w && NewSince(log, w, a, born)
    ensures forall row :: row in LogRows(log, a, b) ==> FromCommitSince(log, row, born)
    decreases b - a
  {
    if a != b {
      LogRowsFrom(log, a + |log[a + 1].rows|, b, w, born);
    }
  }

  ghost predicate IsPublished<D>(log: Log<D>, n: nat) {
    exists k :: k in log && k <= n < k + |log[k].rows|
  }

  lemma OffsetIsPublished<D>(s: Store<D>, i: nat)
    requires Inv(s) && i in s.streams
    ensures s.streams[i].created <= s.streams[i].offset <= s.watermark
    ensures forall n :: 0 < n <= s.streams[i].offset ==> IsPublished(s.log, n)
  {
    var st := s.streams[i];
    assert StreamOk(s.log, s.watermark, s.commits, st);
    forall n | 0 < n <= st.offset
      ensures IsPublished(s.log, n)
    {
      TiledCovers(s.log, 0, s.watermark, n);
    }
  }

  lemma DeliveredRows<D>(log: Log<D>, w: nat, high: nat, commits: nat, st: Stream<D>)
    requires LogOk(log, w, high, commits) && StreamOk(log, w, commits, st)
    ensures |st.delivered| == st.offset - st.created && Numbered(st.created + 1, st.delivered)
    ensures forall row :: row in st.delivered ==> FromCommitSince(log, row, st.born)
  {
    assert WellNumbered(log) by {
      assert forall k :: k in log ==> RecordFits(k, log[k], w, high, commits);
    }
    LogRowsNumbered(log, st.created, st.offset);
    LogRowsFrom(log, st.created, st.offset, w, st.born);
  }

  /** In every run, the rows a stream has handed out carry exactly the sequence numbers from
      its creation offset to its committed offset, each once and in order; every number up to
      the offset has been published; and every row comes from a commit made after the stream's
      starting point was chosen, never from a row that existed before. */
  lemma DeliversExactlyOnce<D>(actions: seq<Action<D>>, i: nat)
    requires Runs(Init<D>(), actions) && i in RunFrom(Init<D>(), actions).streams
    ensures var s := RunFrom(Init<D>(), actions);
            var st := s.streams[i];
            && st.created <= st.offset <= s.watermark
            && |st.delivered| == st.offset - st.created && Numbered(st.created + 1, st.delivered)
            && (forall n :: 0 < n <= st.offset ==> IsPublished(s.log, n))
            && (forall row :: row in st.delivered ==> FromCommitSince(s.log, row, st.born))
  {
    RunInv(Init<D>(), actions);
    var s := RunFrom(Init<D>(), actions);
    OffsetIsPublished(s, i);
    DeliveredRows(s.log, s.watermark, Allocated(s), s.commits, s.streams[i]);
  }

  /** Offsets only move forward, and what was handed out is never taken back or reordered. */
  lemma {:induction false} StreamsOnlyGrow<D>(s: Store<D>, actions: seq<Action<D>>, i: nat)
    requires Runs(s, actions) && i in s.streams
    ensures var s' := RunFrom(s, actions);
            && i in s'.streams && s'.streams[i].created == s.streams[i].created
            && s.streams[i].offset <= s'.streams[i].offset
            && s.streams[i].delivered <= s'.streams[i].delivered
    decreases |actions|
  {
    if actions != [] {
      StepGrows(s, actions[0], i);
      StreamsOnlyGrow(Step(s, actions[0]), actions[1..], i);
    }
  }

  /** Only a committing finish moves an offset, and it moves it forward. */
  lemma StepGrows<D>(s: Store<D>, a: Action<D>, i: nat)
    requires Enabled(s, a) && i in s.streams
    ensures var s' := Step(s, a);
            && i in s'.streams && s'.streams[i].created == s.streams[i].created
            && s.streams[i].offset <= s'.streams[i].offset
            && s.streams[i].delivered <= s'.streams[i].delivered
            && (s'.streams[i] != s.streams[i] ==> a.Finish? && a.mode == Committing)
  {}

  // ---- What becomes visible, and what never does ----

  lemma StepWatermark<D>(s: Store<D>, a: Action<D>, k: nat)
    requires Inv(s) && Enabled(s, a)
    ensures s.watermark <= Step(s, a).watermark
    ensures k in s.log ==> k in Step(s, a).log
    ensures k in s.log && s.watermark < k ==> Step(s, a).watermark < k
  {
    if a.Commit? {
      HeldOk(s, a.txn);
      CommitCoversOwn(s.log, s.watermark, Allocated(s), Held(s, a.txn));
      CommitWriters(s, a.txn, a.payloads);
      if k in s.log && s.watermark < k {
        PassedIsNew(s.log, s.watermark, Allocated(s), Held(s, a.txn), k, s.commits);
      }
    }
  }

  lemma {:induction false} WatermarkGrows<D>(s: Store<D>, actions: seq<Action<D>>)
    requires Inv(s) && Runs(s, actions)
    ensures s.watermark <= RunFrom(s, actions).watermark
    decreases |actions|
  {
    if actions != [] {
      StepInv(s, actions[0]);
      StepWatermark(s, actions[0], 0);
      WatermarkGrows(Step(s, actions[0]), actions[1..]);
    }
  }

  /** A record that is published above the watermark is never reached by it, in any run. */
  lemma {:induction false} ParkedForever<D>(s: Store<D>, actions: seq<Action<D>>, k: nat)
    requires Inv(s) && Runs(s, actions) && k in s.log && s.watermark < k
    ensures RunFrom(s, actions).watermark < k
    ensures forall i :: i in RunFrom(s, actions).streams ==> RunFrom(s, actions).streams[i].offset < k
    decreases |actions|
  {
    if actions != [] {
      StepInv(s, actions[0]);
      StepWatermark(s, actions[0], k);
      ParkedForever(Step(s, actions[0]), actions[1..], k);
    } else {
      forall i | i in s.streams
        ensures s.streams[i].offset < k
      {}
    }
  }

  /** Exactly when a committed record ever becomes readable: when the committing writer
      itself holds every number between the watermark and the record. Otherwise no
      continuation of the run, however long, brings any stream to it. */
  lemma ReadableIffOwnPrefix<D>(s: Store<D>, txn: nat, payloads: seq<seq<D>>, later: seq<Action<D>>, j: nat)
    requires Inv(s) && Enabled(s, Commit(txn, payloads)) && j < |Held(s, txn)|
    requires Runs(Step(s, Commit(txn, payloads)), later)
    ensures var k, s' := Held(s, txn)[j].first, RunFrom(Step(s, Commit(txn, payloads)), later);
            && (k <= s'.watermark <==> forall n :: s.watermark < n < k ==> Covered(n, Held(s, txn)))
            && (s'.watermark < k ==> forall i :: i in s'.streams ==> s'.streams[i].offset < k)
  {
    var spans, s1 := Held(s, txn), Step(s, Commit(txn, payloads));
    var k := spans[j].first;
    StepInv(s, Commit(txn, payloads));
    HeldOk(s, txn);
    CommitWriters(s, txn, payloads);
    assert Wrote(s1.log, spans[j], s.commits);
    CommitCoversOwn(s.log, s.watermark, Allocated(s), spans);
    assert Covered(k, spans);
    WatermarkGrows(s1, later);
    if s1.watermark < k {
      ParkedForever(s1, later, k);
      var gap := s1.watermark + 1;
      assert !Covered(gap, spans) && gap != k;
    }
  }

  /** Two writers that commit against their allocation order: everything is published and
      nothing is pending, yet the second change is beyond every stream for good. */
  lemma OutOfOrderCommitStalls<D>(x: D, y: D, later: seq<Action<D>>)
    requires Runs(AfterSwap(x, y), later)
    ensures var s := AfterSwap(x, y);
            && Inv(s) && s.open == map[] && Allocated(s) == 2 && 1 in s.log && 2 in s.log
            && RunFrom(s, later).watermark == 1
  {
    SwapReached(x, y);
    WatermarkGrows(AfterSwap(x, y), later);
    ParkedForever(AfterSwap(x, y), later, 2);
  }

  function SwappedCommits<D>(x: D, y: D): seq<Action<D>> {
    [Allocate(1, 1), Allocate(2, 1), Commit(2, [[y]]), Commit(1, [[x]])]
  }

  function AfterSwap<D>(x: D, y: D): Store<D> {
    Store(Some(2), 1, map[2 := Record(2, [ChangeRow(2, y)], 0), 1 := Record(1, [ChangeRow(1, x)], 1)], 2,
          map[], map[], map[], map[])
  }

  lemma PublishOne<D>(log: Log<D>, r: Record<D>)
    ensures Publish(log, [r]) == log[r.sequence := r]
  {
    assert [r][1..] == [];
  }

  function BothHold<D>(): Store<D> {
    Init<D>().(issued := Some(2), open := map[1 := [Span(1, 1)], 2 := [Span(2, 2)]])
  }

  function OneHolds<D>(): Store<D> {
    Init<D>().(issued := Some(1), open := map[1 := [Span(1, 1)]])
  }

  lemma TwoAllocations<D>()
    ensures Step(Init<D>(), Allocate(1, 1)) == OneHolds<D>() && Step(OneHolds<D>(), Allocate(2, 1)) == BothHold<D>()
  {
    assert [] + [Span(1, 1)] == [Span(1, 1)] && [] + [Span(2, 2)] == [Span(2, 2)];
  }

  lemma BothAllocate<D>(rest: seq<Action<D>>)
    requires Runs(BothHold<D>(), rest)
    ensures Runs(Init<D>(), [Allocate(1, 1), Allocate(2, 1)] + rest)
    ensures RunFrom(Init<D>(), [Allocate(1, 1), Allocate(2, 1)] + rest) == RunFrom(BothHold<D>(), rest)
  {
    var first: Action<D>, second: Action<D> := Allocate(1, 1), Allocate(2, 1);
    TwoAllocations<D>();
    RunCons(OneHolds<D>(), second, rest);
    RunCons(Init<D>(), first, [second] + rest);
    assert [first, second] + rest == [first] + ([second] + rest);
  }

  lemma CommitOne<D>(s: Store<D>, txn: nat, first: nat, x: D)
    requires txn in s.open && s.open[txn] == [Span(first, first)]
    ensures Enabled(s, Commit(txn, [[x]]))
    ensures Step(s, Commit(txn, [[x]])) ==
            s.(log := s.log[first := Record(first, [ChangeRow(first, x)], s.commits)],
               watermark := WalkFrom(s.watermark, [Span(first, first)]), commits := s.commits + 1,
               open := s.open - {txn})
  {
    assert NumberRows(first, [x]) == [ChangeRow(first, x)];
    assert MakeRecords([Span(first, first)], [[x]], s.commits) == [Record(first, [ChangeRow(first, x)], s.commits)];
    PublishOne(s.log, Record(first, [ChangeRow(first, x)], s.commits));
  }

  lemma SwapReached<D>(x: D, y: D)
    ensures Runs(Init<D>(), SwappedCommits(x, y)) && RunFrom(Init<D>(), SwappedCommits(x, y)) == AfterSwap(x, y)
    ensures Inv(AfterSwap(x, y))
  {
    var s2: Store<D> := BothHold();
    CommitOne(s2, 2, 2, y);
    var s3 := Step(s2, Commit(2, [[y]]));
    assert s3.open == map[1 := [Span(1, 1)]];
    CommitOne(s3, 1, 1, x);
    assert s3.open - {1} == map[];
    assert Step(s3, Commit(1, [[x]])) == AfterSwap(x, y);
    RunCons(s3, Commit(1, [[x]]), []);
    RunCons(s2, Commit(2, [[y]]), [Commit(1, [[x]])]);
    BothAllocate([Commit(2, [[y]]), Commit(1, [[x]])]);
    RunInv(Init<D>(), SwappedCommits(x, y));
  }

  // ---- One writer at a time ----

  /** Spans that lie end to end from a+1 to b. */
  ghost predicate Contiguous(spans: seq<Span>, a: nat, b: nat)
    decreases |spans|
  {
    if spans == [] then a == b
    else spans[0].first == a + 1 <= spans[0].last && Contiguous(spans[1..], spans[0].last, b)
  }

  lemma {:induction false} ContiguousAppend(spans: seq<Span>, a: nat, b: nat, count: nat)
    requires Contiguous(spans, a, b) && count > 0
    ensures Contiguous(spans + [Span(b + 1, b + count)], a, b + count)
    decreases |spans|
  {
    var all := spans + [Span(b + 1, b + count)];
    if spans != [] {
      ContiguousAppend(spans[1..], spans[0].last, b, count);
      assert all[1..] == spans[1..] + [Span(b + 1, b + count)];
    }
  }

  lemma {:induction false} ContiguousWalk(spans: seq<Span>, a: nat, b: nat)
    requires Contiguous(spans, a, b) && b < U64_MAX
    ensures WalkFrom(a, spans) == b && a <= b
    decreases |spans|
  {
    if spans != [] {
      ContiguousWalk(spans[1..], spans[0].last, b);
    }
  }

  /** No other writer holds ranges when a writer acts, and writers do not give up ranges.
      Readers may act at any time. */
  ghost predicate Serial<D>(s: Store<D>, a: Action<D>) {
    match a
    case Allocate(txn, _) => s.open.Keys <= {txn}
    case Commit(txn, _) => s.open.Keys <= {txn}
    case Abandon(txn) => txn !in s.open
    case _ => true
  }

  ghost predicate SerialRuns<D>(s: Store<D>, actions: seq<Action<D>>)
    decreases |actions|
  {
    actions == [] ||
    (Enabled(s, actions[0]) && Serial(s, actions[0]) && SerialRuns(Step(s, actions[0]), actions[1..]))
  }

  /** Everything issued is published, except for what the one active writer still holds. */
  ghost predicate GapFree<D>(s: Store<D>) {
    exists txn :: s.open.Keys <= {txn} && Contiguous(Held(s, txn), s.watermark, Allocated(s))
  }

  lemma SerialAllocate<D>(s: Store<D>, txn: nat, count: nat)
    requires GapFree(s) && Enabled(s, Allocate(txn, count)) && Serial(s, Allocate(txn, count))
    ensures GapFree(Step(s, Allocate(txn, count)))
  {
    var s' := Step(s, Allocate(txn, count));
    if count > 0 {
      ContiguousAppend(Held(s, txn), s.watermark, Allocated(s), count);
    }
    assert Contiguous(Held(s', txn), s'.watermark, Allocated(s'));
  }

  lemma SerialCommit<D>(s: Store<D>, txn: nat, payloads: seq<seq<D>>)
    requires WritersOk(s) && GapFree(s) && Enabled(s, Commit(txn, payloads)) && Serial(s, Commit(txn, payloads))
    ensures GapFree(Step(s, Commit(txn, payloads)))
  {
    var s' := Step(s, Commit(txn, payloads));
    ContiguousWalk(Held(s, txn), s.watermark, Allocated(s));
    CommitWriters(s, txn, payloads);
    assert Contiguous(Held(s', txn), s'.watermark, Allocated(s'));
  }

  lemma SerialStep<D>(s: Store<D>, a: Action<D>)
    requires Inv(s) && GapFree(s) && Enabled(s, a) && Serial(s, a)
    ensures GapFree(Step(s, a))
  {
    match a
    case Allocate(txn, count) => SerialAllocate(s, txn, count);
    case Commit(txn, payloads) => SerialCommit(s, txn, payloads);
    case _ =>
      QuietStep(s, a);
  }

  /** Readers and serial abandons leave ranges, counter and watermark alone. */
  lemma QuietStep<D>(s: Store<D>, a: Action<D>)
    requires Enabled(s, a) && Serial(s, a) && !a.Allocate? && !a.Commit?
    ensures Step(s, a).open == s.open && Step(s, a).issued == s.issued && Step(s, a).watermark == s.watermark
  {
    if a.Abandon? {
      assert s.open - {a.txn} == s.open;
    }
  }

  /** With one writer at a time and no abandoned ranges, the watermark keeps up: whenever no
      writer is active, every change ever made is readable. */
  lemma {:induction false} SerialWritersLoseNothing<D>(s: Store<D>, actions: seq<Action<D>>)
    requires Inv(s) && GapFree(s) && SerialRuns(s, actions)
    ensures Runs(s, actions) && GapFree(RunFrom(s, actions))
    ensures RunFrom(s, actions).open == map[] ==> RunFrom(s, actions).watermark == Allocated(RunFrom(s, actions))
    decreases |actions|
  {
    if actions != [] {
      StepInv(s, actions[0]);
      SerialStep(s, actions[0]);
      SerialWritersLoseNothing(Step(s, actions[0]), actions[1..]);
    }
  }

  /** A committing read that meets no conflict consumes the whole backlog: everything from the
      stream's offset to the watermark, in order. */
  lemma CommittingReadTakesBacklog<D>(s: Store<D>, reader: nat, i: nat)
    requires Inv(s) && i in s.streams && reader !in s.readers
    ensures var read := [ReadOffset(reader, i), ReadSequence(reader), FetchRecords(reader), Finish(reader, Committing)];
            var st := s.streams[i];
            && Runs(s, read) && Tiled(s.log, st.offset, s.watermark)
            && RunFrom(s, read) == s.(streams := s.streams[i := st.(offset := s.watermark,
                                      delivered := st.delivered + LogRows(s.log, st.offset, s.watermark))])
  {
    var st := s.streams[i];
    var finish: Action<D> := Finish(reader, Committing);
    var s1, s2 := BeginRead(s, reader, i);
    FetchGets(s2, reader);
    var s3 := FetchBacklog(s, reader, i, s2);
    FinishTakes(s, reader, i, s3);
    RunFour(s, s1, s2, s3, ReadOffset(reader, i), ReadSequence(reader), FetchRecords(reader), finish);
  }

  lemma RunFour<D>(s: Store<D>, s1: Store<D>, s2: Store<D>, s3: Store<D>,
                   a: Action<D>, b: Action<D>, c: Action<D>, d: Action<D>)
    requires Enabled(s, a) && s1 == Step(s, a) && Enabled(s1, b) && s2 == Step(s1, b)
    requires Enabled(s2, c) && s3 == Step(s2, c) && Enabled(s3, d)
    ensures Runs(s, [a, b, c, d]) && RunFrom(s, [a, b, c, d]) == Step(s3, d)
  {
    RunCons(s3, d, []);
    RunCons(s2, c, [d]);
    RunCons(s1, b, [c, d]);
    RunCons(s, a, [b, c, d]);
  }

  lemma BeginRead<D>(s: Store<D>, reader: nat, i: nat) returns (s1: Store<D>, s2: Store<D>)
    requires Inv(s) && i in s.streams && reader !in s.readers
    ensures Enabled(s, ReadOffset(reader, i)) && s1 == Step(s, ReadOffset(reader, i))
    ensures Enabled(s1, ReadSequence(reader)) && s2 == Step(s1, ReadSequence(reader))
    ensures Inv(s2)
    ensures s2 == s.(readers := s.readers[reader := AtSequence(i, s.streams[i].offset, s.watermark)])
  {
    s1, s2 := BeginReadStates(s, reader, i);
    StepInv(s, ReadOffset(reader, i));
    StepInv(s1, ReadSequence(reader));
  }

  lemma BeginReadStates<D>(s: Store<D>, reader: nat, i: nat) returns (s1: Store<D>, s2: Store<D>)
    requires i in s.streams && reader !in s.readers
    ensures Enabled(s, ReadOffset(reader, i)) && s1 == Step(s, ReadOffset(reader, i))
    ensures Enabled(s1, ReadSequence(reader)) && s2 == Step(s1, ReadSequence(reader))
    ensures s2 == s.(readers := s.readers[reader := AtSequence(i, s.streams[i].offset, s.watermark)])
  {
    var at, at' := AtOffset(i, s.streams[i].offset), AtSequence(i, s.streams[i].offset, s.watermark);
    s1 := Step(s, ReadOffset(reader, i));
    s2 := Step(s1, ReadSequence(reader));
    assert s1.readers[reader] == at && s2.readers == s1.readers[reader := at'];
    assert s.readers[reader := at][reader := at'] == s.readers[reader := at'];
  }

  /** A fetch gets all rows up to the sequence the reader saw. */
  lemma FetchGets<D>(s: Store<D>, reader: nat)
    requires Inv(s) && reader in s.readers && s.readers[reader].AtSequence?
    ensures var r := s.readers[reader];
            && Tiled(s.log, r.offset, r.through)
            && Step(s, FetchRecords(reader)).readers[reader]
               == Fetched(r.stream, r.offset, r.through, LogRows(s.log, r.offset, r.through))
  {
    FetchReadsAll(s, reader);
  }

  lemma FetchBacklog<D>(s: Store<D>, reader: nat, i: nat, s2: Store<D>) returns (s3: Store<D>)
    requires i in s.streams && Tiled(s.log, s.streams[i].offset, s.watermark)
    requires s2 == s.(readers := s.readers[reader := AtSequence(i, s.streams[i].offset, s.watermark)])
    requires Step(s2, FetchRecords(reader)).readers[reader]
             == Fetched(i, s.streams[i].offset, s.watermark, LogRows(s.log, s.streams[i].offset, s.watermark))
    ensures Enabled(s2, FetchRecords(reader)) && s3 == Step(s2, FetchRecords(reader))
    ensures var st := s.streams[i];
            s3 == s.(readers := s.readers[reader :=
              Fetched(i, st.offset, s.watermark, LogRows(s.log, st.offset, s.watermark))])
  {
    var st := s.streams[i];
    var got := Fetched(i, st.offset, s.watermark, LogRows(s.log, st.offset, s.watermark));
    s3 := Step(s2, FetchRecords(reader));
    assert s2.readers[reader := got] == s.readers[reader := got];
  }

  lemma FinishTakes<D>(s: Store<D>, reader: nat, i: nat, s3: Store<D>)
    requires i in s.streams && reader !in s.readers && Tiled(s.log, s.streams[i].offset, s.watermark)
    requires var st := s.streams[i];
             s3 == s.(readers := s.readers[reader :=
              Fetched(i, st.offset, s.watermark, LogRows(s.log, st.offset, s.watermark))])
    ensures var st := s.streams[i];
            Step(s3, Finish(reader, Committing)) ==
            s.(streams := s.streams[i := st.(offset := s.watermark,
                                             delivered := st.delivered + LogRows(s.log, st.offset, s.watermark))])
  {
    var st := s.streams[i];
    assert s3.readers - {reader} == s.readers;
    assert st.offset == s.watermark ==> s.streams[i := st] == s.streams && st.delivered + [] == st.delivered;
  }
}
