/**
 The change-stream protocol of one table as a labelled transition system.

 Every action is one metadata-store transaction: writers allocate sequence ranges and later
 commit or abandon them; CREATE STREAM reads the published watermark and then installs it
 as the stream's offset; a read fetches offset, watermark and records one after the other and
 finally advances the offset by compare-and-set. Actions of any number of writers and readers
 interleave freely.
*/
module StreamProtocol {
  import opened ChangeLog
  import opened Wrappers

  /** A stream with its history: the rows handed out by reads that committed. `born` is the
      number of commits the table had seen when the stream's offset was chosen. */
  datatype Stream<D> = Stream(created: nat, offset: nat, delivered: seq<ChangeRow<D>>, born: nat)

  datatype Creation = Creation(offset: nat, born: nat)

  datatype Reader<D> =
    | AtOffset(stream: nat, offset: nat)
    | AtSequence(stream: nat, offset: nat, through: nat)
    | Fetched(stream: nat, offset: nat, published: nat, rows: seq<ChangeRow<D>>)

  /** `issued` is the allocation counter (absent until first used), `watermark` the
      published table sequence, `open` the ranges writers hold but have not yet published. */
  datatype Store<D> = Store(
    issued: Option<nat>,
    watermark: nat,
    log: Log<D>,
    commits: nat,
    open: map<nat, seq<Span>>,
    streams: map<nat, Stream<D>>,
    creations: map<nat, Creation>,
    readers: map<nat, Reader<D>>)

  datatype ReadMode = Committing | Preview

  datatype Action<D> =
    | Allocate(txn: nat, count: nat)
    | Commit(txn: nat, payloads: seq<seq<D>>)
    | Abandon(txn: nat)
    | ReadWatermark(stream: nat)
    | InstallOffset(stream: nat)
    | ReadOffset(reader: nat, stream: nat)
    | ReadSequence(reader: nat)
    | FetchRecords(reader: nat)
    | Finish(reader: nat, mode: ReadMode)

  function Init<D>(): Store<D> {
    Store(None, 0, map[], 0, map[], map[], map[], map[])
  }

  /** The last sequence number handed out to any writer. */
  function Allocated<D>(s: Store<D>): nat {
    match s.issued
    case None => s.watermark
    case Some(n) => n
  }

  function Held<D>(s: Store<D>, txn: nat): seq<Span> {
    if txn in s.open then s.open[txn] else []
  }

  /** The rows of one payload, numbered from `first`. */
  function NumberRows<D>(first: nat, data: seq<D>): (rows: seq<ChangeRow<D>>)
    ensures |rows| == |data| && Numbered(first, rows)
    ensures forall i :: 0 <= i < |data| ==> rows[i].data == data[i]
  {
    seq(|data|, i requires 0 <= i < |data| => ChangeRow(first + i, data[i]))
  }

  /** One payload per held range, of exactly the range's length. */
  predicate Fits<D>(spans: seq<Span>, payloads: seq<seq<D>>) {
    |spans| == |payloads| &&
    forall i :: 0 <= i < |spans| ==> |payloads[i]| > 0 && spans[i].first + |payloads[i]| == spans[i].last + 1
  }

  function MakeRecords<D>(spans: seq<Span>, payloads: seq<seq<D>>, commit: nat): (rs: seq<Record<D>>)
    requires Fits(spans, payloads)
    ensures |rs| == |spans|
  {
    seq(|spans|, i requires 0 <= i < |spans| => Record(spans[i].first, NumberRows(spans[i].first, payloads[i]), commit))
  }

  function Publish<D>(log: Log<D>, rs: seq<Record<D>>): (log': Log<D>)
    decreases |rs|
  {
    if rs == [] then log else Publish(log[rs[0].sequence := rs[0]], rs[1..])
  }

  predicate Enabled<D>(s: Store<D>, a: Action<D>) {
    match a
    case Allocate(txn, count) => Allocated(s) + count < U64_MAX
    case Commit(txn, payloads) => Fits(Held(s, txn), payloads)
    case Abandon(txn) => true
    case ReadWatermark(stream) => stream !in s.creations && stream !in s.streams
    case InstallOffset(stream) => stream in s.creations && stream !in s.streams
    case ReadOffset(reader, stream) => reader !in s.readers && stream in s.streams
    case ReadSequence(reader) => reader in s.readers && s.readers[reader].AtOffset?
    case FetchRecords(reader) => reader in s.readers && s.readers[reader].AtSequence?
    case Finish(reader, mode) => reader in s.readers && s.readers[reader].Fetched?
  }

  function Step<D>(s: Store<D>, a: Action<D>): Store<D>
    requires Enabled(s, a)
  {
    match a
    case Allocate(txn, count) =>
      var n := Allocated(s);
      if count == 0 then s.(issued := Some(n))
      else s.(issued := Some(n + count), open := s.open[txn := Held(s, txn) + [Span(n + 1, n + count)]])
    case Commit(txn, payloads) =>
      s.(log := Publish(s.log, MakeRecords(Held(s, txn), payloads, s.commits)),
         watermark := WalkFrom(s.watermark, Held(s, txn)),
         commits := s.commits + 1,
         open := s.open - {txn})
    case Abandon(txn) => s.(open := s.open - {txn})
    case ReadWatermark(stream) =>
      s.(creations := s.creations[stream := Creation(s.watermark, s.commits)])
    case InstallOffset(stream) =>
      var c := s.creations[stream];
      s.(creations := s.creations - {stream},
         streams := s.streams[stream := Stream(c.offset, c.offset, [], c.born)])
    case ReadOffset(reader, stream) =>
      s.(readers := s.readers[reader := AtOffset(stream, s.streams[stream].offset)])
    case ReadSequence(reader) =>
      var r := s.readers[reader];
      s.(readers := s.readers[reader := AtSequence(r.stream, r.offset, s.watermark)])
    case FetchRecords(reader) =>
      var r := s.readers[reader];
      var rs := RecordsBetween(s.log, r.offset, r.through);
      var published := PublishedThrough(r.offset, rs);
      s.(readers := s.readers[reader := Fetched(r.stream, r.offset, published, PayloadRows(Consumable(rs, published)))])
    case Finish(reader, mode) =>
      var r := s.readers[reader];
      var s' := s.(readers := s.readers - {reader});
      if mode == Preview || r.published <= r.offset then s'
      else if r.stream !in s.streams || s.streams[r.stream].offset != r.offset then s'  // conflict: the read fails
      else
        var st := s.streams[r.stream];
        s'.(streams := s.streams[r.stream := st.(offset := r.published, delivered := st.delivered + r.rows)])
  }

  // ---- Invariant ----

  predicate Apart(a: Span, b: Span) {
    a.last < b.first || b.last < a.first
  }

  function Extent<D>(r: Record<D>): Span
    requires |r.rows| > 0
  {
    Span(r.sequence, r.sequence + |r.rows| - 1)
  }

  /** A record lies wholly below or wholly above the watermark, within the numbers issued. */
  ghost predicate RecordFits<D>(k: nat, r: Record<D>, w: nat, high: nat, commits: nat) {
    && 0 < k == r.sequence && |r.rows| > 0 && Numbered(k, r.rows)
    && Extent(r).last <= high && (Extent(r).last <= w || w < k) && r.commit < commits
  }

  ghost predicate LogOk<D>(log: Log<D>, w: nat, high: nat, commits: nat) {
    && w <= high < U64_MAX && DisjointRecords(log) && Tiled(log, 0, w)
    && forall k :: k in log ==> RecordFits(k, log[k], w, high, commits)
  }

  /** Spans above `low`, up to `high`, in increasing order. */
  ghost predicate Forward(low: nat, high: nat, spans: seq<Span>) {
    && (forall i :: 0 <= i < |spans| ==> low < spans[i].first <= spans[i].last <= high)
    && (forall i, j :: 0 <= i < j < |spans| ==> spans[i].last < spans[j].first)
  }

  ghost predicate OffLog<D>(log: Log<D>, spans: seq<Span>) {
    forall i, k :: 0 <= i < |spans| && k in log && |log[k].rows| > 0 ==> Apart(spans[i], Extent(log[k]))
  }

  /** The ranges one writer holds: still unpublished, above the watermark, in issue order. */
  ghost predicate WriterOk<D>(log: Log<D>, w: nat, high: nat, spans: seq<Span>) {
    Forward(w, high, spans) && OffLog(log, spans)
  }

  ghost predicate MutuallyApart(a: seq<Span>, b: seq<Span>) {
    forall i, j :: 0 <= i < |a| && 0 <= j < |b| ==> Apart(a[i], b[j])
  }

  ghost predicate OpenOk<D>(log: Log<D>, w: nat, high: nat, open: map<nat, seq<Span>>) {
    && (forall t :: t in open ==> WriterOk(log, w, high, open[t]))
    && (forall t, u :: t in open && u in open && t != u ==> MutuallyApart(open[t], open[u]))
  }

  /** What lies between a chosen offset and the watermark was committed no earlier than `born`. */
  ghost predicate NewSince<D>(log: Log<D>, w: nat, offset: nat, born: nat) {
    forall k :: k in log && offset < k <= w ==> born <= log[k].commit
  }

  ghost predicate StreamOk<D>(log: Log<D>, w: nat, commits: nat, st: Stream<D>) {
    && Tiled(log, st.created, st.offset) && Tiled(log, st.offset, w)
    && st.delivered == LogRows(log, st.created, st.offset)
    && st.born <= commits && NewSince(log, w, st.created, st.born)
  }

  ghost predicate CreationOk<D>(log: Log<D>, w: nat, commits: nat, c: Creation) {
    Tiled(log, c.offset, w) && c.born <= commits && NewSince(log, w, c.offset, c.born)
  }

  ghost predicate ReaderOk<D>(log: Log<D>, w: nat, r: Reader<D>) {
    match r
    case AtOffset(_, offset) => Tiled(log, offset, w)
    case AtSequence(_, offset, through) => Tiled(log, offset, through) && Tiled(log, through, w)
    case Fetched(_, offset, published, rows) =>
      Tiled(log, offset, published) && Tiled(log, published, w) && rows == LogRows(log, offset, published)
  }

  ghost predicate StreamsOk<D>(s: Store<D>) {
    && (forall i :: i in s.streams ==> StreamOk(s.log, s.watermark, s.commits, s.streams[i]))
    && (forall i :: i in s.creations ==> CreationOk(s.log, s.watermark, s.commits, s.creations[i]))
    && (forall i :: i in s.readers ==> ReaderOk(s.log, s.watermark, s.readers[i]))
  }

  ghost predicate WritersOk<D>(s: Store<D>) {
    LogOk(s.log, s.watermark, Allocated(s), s.commits) && OpenOk(s.log, s.watermark, Allocated(s), s.open)
  }

  ghost predicate Inv<D>(s: Store<D>) {
    WritersOk(s) && StreamsOk(s)
  }

  // ---- What a commit does to the log and the watermark ----

  lemma {:induction false} PublishContents<D>(log: Log<D>, rs: seq<Record<D>>)
    requires forall i :: 0 <= i < |rs| ==> rs[i].sequence !in log
    requires forall i, j :: 0 <= i < j < |rs| ==> rs[i].sequence != rs[j].sequence
    ensures Extends(log, Publish(log, rs))
    ensures forall i :: 0 <= i < |rs| ==>
              rs[i].sequence in Publish(log, rs) && Publish(log, rs)[rs[i].sequence] == rs[i]
    ensures forall k :: k in Publish(log, rs) && k !in log ==> exists i :: 0 <= i < |rs| && k == rs[i].sequence
    decreases |rs|
  {
    if rs != [] {
      var log1, rest := log[rs[0].sequence := rs[0]], rs[1..];
      PublishContents(log1, rest);
      forall k | k in Publish(log, rs) && k !in log
        ensures exists i :: 0 <= i < |rs| && k == rs[i].sequence
      {
        if k !in log1 {
          var i :| 0 <= i < |rest| && k == rest[i].sequence;
          assert rs[i + 1] == rest[i];
        } else {
          assert k == rs[0].sequence;
        }
      }
    }
  }

  /** Record k of the new log is the one a commit wrote for span sp. */
  ghost predicate Wrote<D>(log': Log<D>, sp: Span, commit: nat) {
    && sp.first in log' && |log'[sp.first].rows| > 0 && log'[sp.first].sequence == sp.first
    && Extent(log'[sp.first]) == sp && Numbered(sp.first, log'[sp.first].rows)
    && log'[sp.first].commit == commit
  }

  /** The log after a commit: all old records, plus one record per held range. */
  ghost predicate Published<D>(log: Log<D>, spans: seq<Span>, commit: nat, log': Log<D>) {
    && Extends(log, log')
    && (forall i :: 0 <= i < |spans| ==> Wrote(log', spans[i], commit))
    && (forall k :: k in log' && k !in log ==> exists i :: 0 <= i < |spans| && k == spans[i].first)
  }

  lemma CommitPublishes<D>(log: Log<D>, w: nat, high: nat, spans: seq<Span>, payloads: seq<seq<D>>, commit: nat)
    requires LogOk(log, w, high, commit) && WriterOk(log, w, high, spans) && Fits(spans, payloads)
    ensures Published(log, spans, commit, Publish(log, MakeRecords(spans, payloads, commit)))
  {
    var rs := MakeRecords(spans, payloads, commit);
    forall i | 0 <= i < |rs|
      ensures rs[i].sequence !in log
    {
      assert forall k :: k in log ==> |log[k].rows| > 0 && log[k].sequence == k && Apart(spans[i], Extent(log[k]));
    }
    PublishContents(log, rs);
    var log' := Publish(log, rs);
    forall i | 0 <= i < |spans|
      ensures Wrote(log', spans[i], commit)
    {
      assert log'[rs[i].sequence] == rs[i];
    }
    forall k | k in log' && k !in log
      ensures exists i :: 0 <= i < |spans| && k == spans[i].first
    {
      var i :| 0 <= i < |rs| && k == rs[i].sequence;
      assert k == spans[i].first;
    }
  }

  /** The numbers a commit moves the watermark over all belong to its own ranges, and it
      stops at the first number that does not. */
  lemma CommitCoversOwn<D>(log: Log<D>, w: nat, high: nat, spans: seq<Span>)
    requires WriterOk(log, w, high, spans) && w <= high < U64_MAX
    ensures w <= WalkFrom(w, spans)
    ensures forall n :: w < n <= WalkFrom(w, spans) ==> Covered(n, spans)
    ensures !Covered(WalkFrom(w, spans) + 1, spans)
  {
    WalkIsLongestPrefix(w + 1, w, spans);
  }

  lemma {:induction false} WalkTiles<D>(log: Log<D>, through: nat, high: nat, spans: seq<Span>, commit: nat)
    requires Forward(through, high, spans) && through <= high < U64_MAX
    requires forall i :: 0 <= i < |spans| ==> Wrote(log, spans[i], commit)
    ensures Tiled(log, through, Walk(through + 1, through, spans))
    ensures Walk(through + 1, through, spans) <= high
    decreases |spans|
  {
    if spans != [] {
      var head, tail := spans[0], spans[1..];
      assert Wrote(log, head, commit);
      if head.first == through + 1 {
        assert Forward(head.last, high, tail) by {
          forall i | 0 <= i < |tail|
            ensures head.last < tail[i].first <= tail[i].last <= high
          {
            assert tail[i] == spans[i + 1];
          }
        }
        WalkTiles(log, head.last, high, tail, commit);
      }
    }
  }

  /** A number the walk passes is in no older record. */
  lemma PassedIsNew<D>(log: Log<D>, w: nat, high: nat, spans: seq<Span>, k: nat, commits: nat)
    requires LogOk(log, w, high, commits) && WriterOk(log, w, high, spans)
    requires k in log && w < k
    ensures WalkFrom(w, spans) < k
  {
    CommitCoversOwn(log, w, high, spans);
    assert RecordFits(k, log[k], w, high, commits);
    assert forall i :: 0 <= i < |spans| ==> Apart(spans[i], Extent(log[k]));
    assert !Covered(k, spans);
  }

  lemma NewRecord<D>(log: Log<D>, spans: seq<Span>, commit: nat, log': Log<D>, k: nat) returns (i: nat)
    requires Published(log, spans, commit, log') && k in log' && k !in log
    ensures i < |spans| && k == spans[i].first && Wrote(log', spans[i], commit)
  {
    i :| 0 <= i < |spans| && k == spans[i].first;
  }

  lemma NewRecordFits<D>(log: Log<D>, w: nat, high: nat, spans: seq<Span>, commit: nat, log': Log<D>, k: nat)
    requires WriterOk(log, w, high, spans) && w <= high < U64_MAX
    requires Published(log, spans, commit, log') && k in log' && k !in log
    ensures RecordFits(k, log'[k], WalkFrom(w, spans), high, commit + 1)
  {
    var i := NewRecord(log, spans, commit, log', k);
    var w' := WalkFrom(w, spans);
    CommitCoversOwn(log, w, high, spans);
    var next := w' + 1;
    assert !Covered(next, spans);
    assert !(spans[i].first <= next <= spans[i].last);
  }

  lemma CommitDisjoint<D>(log: Log<D>, spans: seq<Span>, commit: nat, log': Log<D>)
    requires DisjointRecords(log) && WellNumbered(log) && OffLog(log, spans) && Published(log, spans, commit, log')
    requires forall i, j :: 0 <= i < j < |spans| ==> spans[i].last < spans[j].first
    ensures DisjointRecords(log')
  {
    forall j, k | j in log' && k in log' && j < k
      ensures j + |log'[j].rows| <= k
    {
      if j !in log {
        var i := NewRecord(log, spans, commit, log', j);
        if k in log {
          assert Apart(spans[i], Extent(log[k]));
        } else {
          var i' := NewRecord(log, spans, commit, log', k);
          assert i < i' || i' < i;
        }
      } else if k !in log {
        var i := NewRecord(log, spans, commit, log', k);
        assert Apart(spans[i], Extent(log[j]));
      }
    }
  }

  lemma CommitLogOk<D>(log: Log<D>, w: nat, high: nat, spans: seq<Span>, commit: nat, log': Log<D>)
    requires LogOk(log, w, high, commit) && WriterOk(log, w, high, spans)
    requires Published(log, spans, commit, log')
    ensures LogOk(log', WalkFrom(w, spans), high, commit + 1)
    ensures Tiled(log', w, WalkFrom(w, spans))
  {
    var w' := WalkFrom(w, spans);
    WalkTiles(log', w, high, spans, commit);
    TiledExtends(log, log', 0, w);
    TiledJoin(log', 0, w, w');
    CommitDisjoint(log, spans, commit, log');
    CommitCoversOwn(log, w, high, spans);
    forall k | k in log'
      ensures RecordFits(k, log'[k], w', high, commit + 1)
    {
      if k !in log {
        NewRecordFits(log, w, high, spans, commit, log', k);
      } else {
        assert RecordFits(k, log[k], w, high, commit);
        if w < k {
          PassedIsNew(log, w, high, spans, k, commit);
        }
      }
    }
  }

  /** Another writer's ranges stay unpublished and above the watermark. */
  lemma CommitKeepsWriter<D>(log: Log<D>, w: nat, high: nat, spans: seq<Span>, commit: nat,
                             log': Log<D>, mine: seq<Span>)
    requires WriterOk(log, w, high, spans) && WriterOk(log, w, high, mine) && w <= high < U64_MAX
    requires Published(log, spans, commit, log') && MutuallyApart(mine, spans)
    ensures WriterOk(log', WalkFrom(w, spans), high, mine)
  {
    CommitCoversOwn(log, w, high, spans);
    forall i | 0 <= i < |mine|
      ensures WalkFrom(w, spans) < mine[i].first
    {
      assert forall j :: 0 <= j < |spans| ==> Apart(mine[i], spans[j]);
      assert !Covered(mine[i].first, spans);
    }
    forall i, k | 0 <= i < |mine| && k in log' && |log'[k].rows| > 0
      ensures Apart(mine[i], Extent(log'[k]))
    {
      if k !in log {
        var j := NewRecord(log, spans, commit, log', k);
        assert Apart(mine[i], spans[j]);
      } else {
        assert Apart(mine[i], Extent(log[k]));
      }
    }
  }

  /** Stretches that reached the old watermark reach the new one. */
  lemma CommitExtends<D>(log: Log<D>, w: nat, log': Log<D>, w': nat, a: nat, b: nat)
    requires Extends(log, log') && Tiled(log', w, w')
    requires Tiled(log, a, b) && Tiled(log, b, w)
    ensures Tiled(log', a, b) && LogRows(log', a, b) == LogRows(log, a, b)
    ensures Tiled(log', b, w')
  {
    TiledExtends(log, log', a, b);
    TiledExtends(log, log', b, w);
    TiledJoin(log', b, w, w');
  }

  lemma CommitNewSince<D>(log: Log<D>, w: nat, high: nat, spans: seq<Span>, commit: nat, log': Log<D>, offset: nat,
                          born: nat)
    requires LogOk(log, w, high, commit) && WriterOk(log, w, high, spans)
    requires Published(log, spans, commit, log')
    requires NewSince(log, w, offset, born) && born <= commit
    ensures NewSince(log', WalkFrom(w, spans), offset, born)
  {
    forall k | k in log' && offset < k <= WalkFrom(w, spans)
      ensures born <= log'[k].commit
    {
      if k !in log {
        var i := NewRecord(log, spans, commit, log', k);
      } else if w < k {
        PassedIsNew(log, w, high, spans, k, commit);
      }
    }
  }

  // ---- Every action keeps the invariant ----

  lemma HeldOk<D>(s: Store<D>, txn: nat)
    requires WritersOk(s)
    ensures WriterOk(s.log, s.watermark, Allocated(s), Held(s, txn))
    ensures s.issued == None ==> Held(s, txn) == []
  {
    assert |Held(s, txn)| > 0 ==> s.watermark < Held(s, txn)[0].first <= Allocated(s);
  }

  lemma CommitWriters<D>(s: Store<D>, txn: nat, payloads: seq<seq<D>>)
    requires WritersOk(s) && Enabled(s, Commit(txn, payloads))
    ensures var s' := Step(s, Commit(txn, payloads));
            && WritersOk(s') && Allocated(s') == Allocated(s)
            && Published(s.log, Held(s, txn), s.commits, s'.log)
            && Tiled(s'.log, s.watermark, s'.watermark)
  {
    var s', spans, high := Step(s, Commit(txn, payloads)), Held(s, txn), Allocated(s);
    HeldOk(s, txn);
    CommitPublishes(s.log, s.watermark, high, spans, payloads, s.commits);
    CommitLogOk(s.log, s.watermark, high, spans, s.commits, s'.log);
    forall t | t in s'.open
      ensures WriterOk(s'.log, s'.watermark, high, s'.open[t])
    {
      assert MutuallyApart(s.open[t], spans);
      CommitKeepsWriter(s.log, s.watermark, high, spans, s.commits, s'.log, s.open[t]);
    }
  }

  lemma CommitStreams<D>(s: Store<D>, txn: nat, s': Store<D>)
    requires Inv(s) && Published(s.log, Held(s, txn), s.commits, s'.log)
    requires s'.watermark == WalkFrom(s.watermark, Held(s, txn)) && Tiled(s'.log, s.watermark, s'.watermark)
    requires s'.streams == s.streams && s'.creations == s.creations
    requires s'.readers == s.readers && s'.commits == s.commits + 1
    ensures StreamsOk(s')
  {
    var spans, high := Held(s, txn), Allocated(s);
    HeldOk(s, txn);
    forall i | i in s'.streams
      ensures StreamOk(s'.log, s'.watermark, s'.commits, s'.streams[i])
    {
      var st := s.streams[i];
      CommitExtends(s.log, s.watermark, s'.log, s'.watermark, st.created, st.offset);
      CommitNewSince(s.log, s.watermark, high, spans, s.commits, s'.log, st.created, st.born);
    }
    forall i | i in s'.creations
      ensures CreationOk(s'.log, s'.watermark, s'.commits, s'.creations[i])
    {
      var c := s.creations[i];
      CommitExtends(s.log, s.watermark, s'.log, s'.watermark, c.offset, c.offset);
      CommitNewSince(s.log, s.watermark, high, spans, s.commits, s'.log, c.offset, c.born);
    }
    forall i | i in s'.readers
      ensures ReaderOk(s'.log, s'.watermark, s'.readers[i])
    {
      match s.readers[i]
      case AtOffset(_, offset) => CommitExtends(s.log, s.watermark, s'.log, s'.watermark, offset, offset);
      case AtSequence(_, offset, through) => CommitExtends(s.log, s.watermark, s'.log, s'.watermark, offset, through);
      case Fetched(_, offset, published, _) =>
        CommitExtends(s.log, s.watermark, s'.log, s'.watermark, offset, published);
    }
  }

  lemma RangesApart<D>(log: Log<D>, w: nat, high: nat, count: nat, held: seq<Span>, mine: seq<Span>)
    requires WriterOk(log, w, high, mine) && MutuallyApart(held, mine)
    ensures MutuallyApart(held + [Span(high + 1, high + count)], mine)
    ensures MutuallyApart(mine, held + [Span(high + 1, high + count)])
  {}

  lemma OpenGrows<D>(log: Log<D>, w: nat, high: nat, commits: nat, open: map<nat, seq<Span>>, txn: nat, count: nat)
    requires LogOk(log, w, high, commits) && OpenOk(log, w, high, open) && count > 0
    ensures OpenOk(log, w, high + count,
                   open[txn := (if txn in open then open[txn] else []) + [Span(high + 1, high + count)]])
  {
    var held := if txn in open then open[txn] else [];
    var open' := open[txn := held + [Span(high + 1, high + count)]];
    forall t | t in open'
      ensures WriterOk(log, w, high + count, open'[t])
    {}
    forall t, u | t in open' && u in open' && t != u
      ensures MutuallyApart(open'[t], open'[u])
    {
      if t == txn {
        RangesApart(log, w, high, count, held, open[u]);
      } else if u == txn {
        RangesApart(log, w, high, count, held, open[t]);
      }
    }
  }

  ghost predicate Granted<D>(s: Store<D>, txn: nat, count: nat, s': Store<D>) {
    && s'.log == s.log && s'.watermark == s.watermark && s'.commits == s.commits
    && Allocated(s') == Allocated(s) + count < U64_MAX
    && s'.open == s.open[txn := Held(s, txn) + [Span(Allocated(s) + 1, Allocated(s) + count)]]
  }

  lemma AllocateOpen<D>(s: Store<D>, txn: nat, count: nat, s': Store<D>)
    requires WritersOk(s) && count > 0 && Granted(s, txn, count, s')
    ensures OpenOk(s'.log, s'.watermark, Allocated(s'), s'.open)
  {
    OpenGrows(s.log, s.watermark, Allocated(s), s.commits, s.open, txn, count);
  }

  lemma AllocateStreams<D>(s: Store<D>, txn: nat, count: nat)
    requires StreamsOk(s) && Enabled(s, Allocate(txn, count))
    ensures StreamsOk(Step(s, Allocate(txn, count)))
  {}

  lemma AllocateInv<D>(s: Store<D>, txn: nat, count: nat)
    requires Inv(s) && Enabled(s, Allocate(txn, count))
    ensures Inv(Step(s, Allocate(txn, count)))
  {
    AllocateStreams(s, txn, count);
    if count > 0 {
      AllocateOpen(s, txn, count, Step(s, Allocate(txn, count)));
    }
  }

  /** Fetching never cuts a read short: the contiguity walk reaches the watermark the reader saw. */
  lemma FetchReadsAll<D>(s: Store<D>, reader: nat)
    requires Inv(s) && Enabled(s, FetchRecords(reader))
    ensures var r, r' := s.readers[reader], Step(s, FetchRecords(reader)).readers[reader];
            && ReaderOk(s.log, s.watermark, r) && r'.Fetched? && r'.stream == r.stream && r'.offset == r.offset
            && r'.published == r.through && r'.rows == LogRows(s.log, r.offset, r.through)
  {
    var r := s.readers[reader];
    assert ReaderOk(s.log, s.watermark, r);
    ReadTiled(s.log, r.offset, r.through);
  }

  lemma FinishStreams<D>(s: Store<D>, reader: nat, mode: ReadMode)
    requires StreamsOk(s) && Enabled(s, Finish(reader, mode))
    ensures StreamsOk(Step(s, Finish(reader, mode)))
  {
    var r := s.readers[reader];
    assert ReaderOk(s.log, s.watermark, r);
    if r.stream in s.streams && s.streams[r.stream].offset == r.offset {
      var st := s.streams[r.stream];
      assert StreamOk(s.log, s.watermark, s.commits, st);
      TiledJoin(s.log, st.created, r.offset, r.published);
    }
  }

  lemma CreateStreams<D>(s: Store<D>, a: Action<D>)
    requires StreamsOk(s) && Enabled(s, a) && (a.ReadWatermark? || a.InstallOffset?)
    ensures StreamsOk(Step(s, a))
  {
    if a.InstallOffset? {
      assert CreationOk(s.log, s.watermark, s.commits, s.creations[a.stream]);
    }
  }

  lemma BeginReadStreams<D>(s: Store<D>, a: Action<D>)
    requires StreamsOk(s) && Enabled(s, a) && (a.ReadOffset? || a.ReadSequence?)
    ensures StreamsOk(Step(s, a))
  {
    if a.ReadOffset? {
      assert StreamOk(s.log, s.watermark, s.commits, s.streams[a.stream]);
    } else {
      assert ReaderOk(s.log, s.watermark, s.readers[a.reader]);
    }
  }

  lemma FetchStreams<D>(s: Store<D>, reader: nat)
    requires Inv(s) && Enabled(s, FetchRecords(reader))
    ensures StreamsOk(Step(s, FetchRecords(reader)))
  {
    FetchReadsAll(s, reader);
  }

  lemma StepInv<D>(s: Store<D>, a: Action<D>)
    requires Inv(s) && Enabled(s, a)
    ensures Inv(Step(s, a))
  {
    match a
    case Allocate(txn, count) =>
      AllocateInv(s, txn, count);
    case Commit(txn, payloads) =>
      CommitWriters(s, txn, payloads);
      CommitStreams(s, txn, Step(s, a));
    case Abandon(txn) =>
    case ReadWatermark(stream) => CreateStreams(s, a);
    case InstallOffset(stream) => CreateStreams(s, a);
    case ReadOffset(reader, stream) => BeginReadStreams(s, a);
    case ReadSequence(reader) => BeginReadStreams(s, a);
    case FetchRecords(reader) => FetchStreams(s, reader);
    case Finish(reader, mode) => FinishStreams(s, reader, mode);
  }
}
