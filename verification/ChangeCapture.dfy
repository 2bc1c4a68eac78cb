/**
 End to end: for every serial run of INSERT, UPDATE, DELETE and stream reads, the change rows
 a stream hands out, replayed on the rows at its creation, are the table, if and only if no
 UPDATE of the run lost a NULL.
*/
module ChangeCapture {
  import opened ChangeLog
  import opened Wrappers
  import opened RowBatches
  import opened Replay
  import opened StreamProtocol
  import opened StreamGuarantees
  import opened CopyOnWrite
  import opened Publication
  import opened Statements
  import opened LostNulls

  datatype Event =
    | Insert(txn: nat, rows: seq<Row>)
    | Modify(op: Rewrite, txn: nat, files: seq<seq<seq<Row>>>)
    | Consume(reader: nat, stream: nat)

  ghost function Read(reader: nat, stream: nat): seq<Action<Change<Row>>> {
    [ReadOffset(reader, stream), ReadSequence(reader), FetchRecords(reader), Finish(reader, Committing)]
  }

  ghost predicate Possible(schema: Schema, db: Database, e: Event) {
    match e
    case Insert(txn, rows) => rows != [] && HasRoom(db.store, |rows|)
    case Modify(op, txn, files) =>
      && Resolves(schema, op.filter) && FilesOk(schema, db.partitions, files)
      && VisibleShaped(schema, db.partitions) && HasRoom(db.store, 2 * RowCount(db.partitions))
    case Consume(reader, stream) => stream in db.store.streams && reader !in db.store.readers
  }

  /** The event is not an UPDATE that meets a NULL it loses. */
  ghost predicate Keeps(schema: Schema, db: Database, e: Event)
    requires Possible(schema, db, e)
  {
    e.Modify? ==> KeepsNulls(schema, e.op, db.partitions)
  }

  ghost function After(schema: Schema, db: Database, e: Event): Database
    requires Quiet(db.store) && Possible(schema, db, e)
  {
    match e
    case Insert(txn, rows) => InsertInto(db, txn, rows)
    case Modify(op, txn, files) => RewriteIn(schema, db, op, txn, files)
    case Consume(reader, stream) =>
      CommittingReadTakesBacklog(db.store, reader, stream);
      db.(store := RunFrom(db.store, Read(reader, stream)))
  }

  ghost function EventChanges(schema: Schema, db: Database, e: Event): seq<Change<Row>>
    requires Possible(schema, db, e)
  {
    match e
    case Insert(txn, rows) => InsertChanges(db.nextId, rows)
    case Modify(op, txn, files) => Concat(RewriteEffect(schema, op, db.partitions, files, db.nextId).groups)
    case Consume(_, _) => []
  }

  /** The log behind a carries exactly these change rows. */
  ghost predicate Recorded(db: Database, a: nat, cs: seq<Change<Row>>) {
    && Quiet(db.store) && Tiled(db.store.log, a, db.store.watermark)
    && Data(LogRows(db.store.log, a, db.store.watermark)) == cs
  }

  lemma StatementRecorded(db: Database, db': Database, past: seq<Change<Row>>, cs: seq<Change<Row>>, a: nat)
    requires Recorded(db, a, past) && Appends(db, db', cs)
    ensures Recorded(db', a, past + cs)
  {
    var w, w' := db.store.watermark, db'.store.watermark;
    TiledExtends(db.store.log, db'.store.log, a, w);
    CarriesJoin(db'.store.log, a, w, w', past, cs);
  }

  lemma ReadQuiet(s: Store<Change<Row>>, reader: nat, stream: nat)
    requires Quiet(s) && stream in s.streams && reader !in s.readers
    ensures Runs(s, Read(reader, stream)) && Quiet(RunFrom(s, Read(reader, stream)))
    ensures var s' := RunFrom(s, Read(reader, stream));
            && s'.log == s.log && s'.watermark == s.watermark && s'.streams.Keys == s.streams.Keys
            && forall i :: i in s.streams ==> s'.streams[i].created == s.streams[i].created
  {
    CommittingReadTakesBacklog(s, reader, stream);
    RunInv(s, Read(reader, stream));
  }

  lemma StatementAppendsItsChanges(schema: Schema, db: Database, e: Event)
    requires Quiet(db.store) && Possible(schema, db, e) && !e.Consume?
    ensures Appends(db, After(schema, db, e), EventChanges(schema, db, e))
  {
    match e
    case Insert(txn, rows) => InsertIsTruthful(db, txn, rows);
    case Modify(op, txn, files) => RewriteIsTruthfulIff(schema, db, op, txn, files);
  }

  lemma EventRecorded(schema: Schema, db: Database, e: Event, a: nat, past: seq<Change<Row>>)
    requires Recorded(db, a, past) && Possible(schema, db, e)
    ensures Recorded(After(schema, db, e), a, past + EventChanges(schema, db, e))
  {
    if e.Consume? {
      ReadQuiet(db.store, e.reader, e.stream);
      assert past + EventChanges(schema, db, e) == past;
    } else {
      StatementAppendsItsChanges(schema, db, e);
      StatementRecorded(db, After(schema, db, e), past, EventChanges(schema, db, e), a);
    }
  }

  /** The streams an event leaves: the same ones, created where they were. */
  lemma EventStreams(schema: Schema, db: Database, e: Event, i: nat)
    requires Quiet(db.store) && Possible(schema, db, e) && i in db.store.streams
    ensures var s' := After(schema, db, e).store;
            i in s'.streams && s'.streams[i].created == db.store.streams[i].created
  {
    match e
    case Insert(txn, rows) => InsertIsTruthful(db, txn, rows);
    case Modify(op, txn, files) => RewriteIsTruthfulIff(schema, db, op, txn, files);
    case Consume(reader, stream) => ReadQuiet(db.store, reader, stream);
  }

  ghost predicate Serially(schema: Schema, db: Database, events: seq<Event>)
    decreases |events|
  {
    Quiet(db.store) &&
    (events == [] || (Possible(schema, db, events[0]) && Serially(schema, After(schema, db, events[0]), events[1..])))
  }

  ghost function AfterAll(schema: Schema, db: Database, events: seq<Event>): Database
    requires Serially(schema, db, events)
    decreases |events|
  {
    if events == [] then db else AfterAll(schema, After(schema, db, events[0]), events[1..])
  }

  ghost function AllChanges(schema: Schema, db: Database, events: seq<Event>): seq<Change<Row>>
    requires Serially(schema, db, events)
    decreases |events|
  {
    if events == [] then []
    else EventChanges(schema, db, events[0]) + AllChanges(schema, After(schema, db, events[0]), events[1..])
  }

  /** No UPDATE of the run loses a NULL. */
  ghost predicate AllKeep(schema: Schema, db: Database, events: seq<Event>)
    requires Serially(schema, db, events)
    decreases |events|
  {
    events == [] ||
    (Keeps(schema, db, events[0]) && AllKeep(schema, After(schema, db, events[0]), events[1..]))
  }

  lemma Regroup<T>(a: seq<T>, b: seq<T>, c: seq<T>)
    ensures a + b + c == a + (b + c)
  {}

  lemma {:induction false} RunRecorded(schema: Schema, db: Database, events: seq<Event>, a: nat,
                                       past: seq<Change<Row>>)
    requires Serially(schema, db, events) && Recorded(db, a, past)
    ensures Recorded(AfterAll(schema, db, events), a, past + AllChanges(schema, db, events))
    decreases |events|
  {
    if events == [] {
      assert past + [] == past;
    } else {
      var cs, db1 := EventChanges(schema, db, events[0]), After(schema, db, events[0]);
      var more := AllChanges(schema, db1, events[1..]);
      EventRecorded(schema, db, events[0], a, past);
      RunRecorded(schema, db1, events[1..], a, past + cs);
      Regroup(past, cs, more);
    }
  }

  lemma {:induction false} RunStreams(schema: Schema, db: Database, events: seq<Event>, i: nat)
    requires Serially(schema, db, events) && i in db.store.streams
    ensures var s' := AfterAll(schema, db, events).store;
            i in s'.streams && s'.streams[i].created == db.store.streams[i].created
    decreases |events|
  {
    if events != [] {
      EventStreams(schema, db, events[0], i);
      RunStreams(schema, After(schema, db, events[0]), events[1..], i);
    }
  }

  // ---- Exactly when the run's change rows tell the truth ----

  lemma EventTells(schema: Schema, db: Database, e: Event)
    requires Quiet(db.store) && Possible(schema, db, e) && Keeps(schema, db, e)
    ensures Tells(db, After(schema, db, e), EventChanges(schema, db, e))
  {
    match e
    case Insert(txn, rows) => InsertIsTruthful(db, txn, rows);
    case Modify(op, txn, files) => RewriteIsTruthfulIff(schema, db, op, txn, files);
    case Consume(_, _) =>
  }

  lemma {:induction false} RunTells(schema: Schema, db: Database, events: seq<Event>)
    requires Serially(schema, db, events) && AllKeep(schema, db, events)
    ensures Tells(db, AfterAll(schema, db, events), AllChanges(schema, db, events))
    decreases |events|
  {
    if events != [] {
      var cs, db1 := EventChanges(schema, db, events[0]), After(schema, db, events[0]);
      EventTells(schema, db, events[0]);
      RunTells(schema, db1, events[1..]);
      ReplayConcat(TableRows(db.partitions), cs, AllChanges(schema, db1, events[1..]));
      AppliesConcat(TableRows(db.partitions), cs, AllChanges(schema, db1, events[1..]));
    }
  }

  ghost function TableNulls(db: Database): nat {
    Nulls(TableRows(db.partitions))
  }

  lemma EventNulls(schema: Schema, db: Database, e: Event)
    requires Quiet(db.store) && Possible(schema, db, e)
    ensures var db', d := After(schema, db, e), Delta(EventChanges(schema, db, e));
            && TableNulls(db') <= TableNulls(db) + d
            && (TableNulls(db') == TableNulls(db) + d <==> Keeps(schema, db, e))
  {
    match e
    case Insert(txn, rows) =>
      InsertIsTruthful(db, txn, rows);
      ReplayNulls(TableRows(db.partitions), InsertChanges(db.nextId, rows));
    case Modify(op, txn, files) =>
      var effect := RewriteEffect(schema, op, db.partitions, files, db.nextId);
      StatementNulls(schema, op, db.partitions, files, db.nextId);
      TableRowsAppend(effect.marked, effect.added);
    case Consume(_, _) =>
  }

  /** NULLs lost along the run are never made up for. */
  lemma {:induction false} RunNulls(schema: Schema, db: Database, events: seq<Event>)
    requires Serially(schema, db, events)
    ensures var db', d := AfterAll(schema, db, events), Delta(AllChanges(schema, db, events));
            && TableNulls(db') <= TableNulls(db) + d
            && (TableNulls(db') == TableNulls(db) + d <==> AllKeep(schema, db, events))
    decreases |events|
  {
    if events != [] {
      var cs, db1 := EventChanges(schema, db, events[0]), After(schema, db, events[0]);
      EventNulls(schema, db, events[0]);
      RunNulls(schema, db1, events[1..]);
      DeltaConcat(cs, AllChanges(schema, db1, events[1..]));
    }
  }

  lemma RunTellsIff(schema: Schema, db: Database, events: seq<Event>)
    requires Serially(schema, db, events)
    ensures Tells(db, AfterAll(schema, db, events), AllChanges(schema, db, events)) <==> AllKeep(schema, db, events)
  {
    if AllKeep(schema, db, events) {
      RunTells(schema, db, events);
    }
    if Tells(db, AfterAll(schema, db, events), AllChanges(schema, db, events)) {
      ReplayNulls(TableRows(db.partitions), AllChanges(schema, db, events));
      RunNulls(schema, db, events);
    }
  }

  /** For every serial run after a stream is created, however the reads of this and of other
      streams fall between the statements: what the stream has delivered once it is read a
      last time, replayed on the rows at creation, gives exactly the table's rows, every DELETE
      it delivers finding its row, if and only if no UPDATE of the run met a NULL it lost. */
  lemma DeliveredChangesRebuildTableIff(schema: Schema, db: Database, events: seq<Event>, i: nat, reader: nat)
    requires Serially(schema, db, events) && i in db.store.streams && db.store.streams[i].created == db.store.watermark
    requires reader !in AfterAll(schema, db, events).store.readers
    ensures var db' := AfterAll(schema, db, events);
            && i in db'.store.streams && Runs(db'.store, Read(reader, i))
            && var s := RunFrom(db'.store, Read(reader, i));
               && i in s.streams
               && (Tells(db, db', Data(s.streams[i].delivered)) <==> AllKeep(schema, db, events))
  {
    var db' := AfterAll(schema, db, events);
    assert LogRows(db.store.log, db.store.watermark, db.store.watermark) == [];
    RunStreams(schema, db, events, i);
    RunRecorded(schema, db, events, db.store.watermark, []);
    assert [] + AllChanges(schema, db, events) == AllChanges(schema, db, events);
    RunTellsIff(schema, db, events);
    AllDelivered(db'.store, reader, i);
  }

  /** After a committing read, a stream has delivered everything behind its creation. */
  lemma AllDelivered(s: Store<Change<Row>>, reader: nat, i: nat)
    requires Inv(s) && i in s.streams && reader !in s.readers
    ensures Runs(s, Read(reader, i))
    ensures var s' := RunFrom(s, Read(reader, i));
            && i in s'.streams && Tiled(s.log, s.streams[i].created, s.watermark)
            && s'.streams[i].delivered == LogRows(s.log, s.streams[i].created, s.watermark)
  {
    var st := s.streams[i];
    CommittingReadTakesBacklog(s, reader, i);
    assert StreamOk(s.log, s.watermark, s.commits, st);
    TiledJoin(s.log, st.created, st.offset, s.watermark);
  }

  const V_SCHEMA: Schema := [Field("v", Int64)]
  const SET_FIVE: Rewrite := Update([Assignment("v", LitInt(5))], Some(Filter("v", "=", LitInt(1))))
  const ONE_AND_NULL: seq<Row> := [[Int(1)], [Null]]

  lemma NullStandsBy()
    ensures Resolves(V_SCHEMA, SET_FIVE.filter) && RowsShaped(V_SCHEMA, ONE_AND_NULL)
    ensures HasMatch(V_SCHEMA, SET_FIVE.filter, ONE_AND_NULL) && !Matches(V_SCHEMA, SET_FIVE.filter, ONE_AND_NULL[1])
    ensures LosesNull(V_SCHEMA, SET_FIVE.asg, ONE_AND_NULL[1])
  {
    assert Position(V_SCHEMA, "v") == Some(0);
    assert Matches(V_SCHEMA, SET_FIVE.filter, ONE_AND_NULL[0]);
    assert V_SCHEMA[0].name == "v" && FindAssignment(SET_FIVE.asg, "v").Some?;
    assert ONE_AND_NULL[1][0] == Null;
  }

  /** One row with a NULL, next to a row that an UPDATE of the same column matches: the change
      rows never mention the first row, but the table loses its NULL. */
  lemma NullBecomesZero()
    ensures var ps, files := [Partition(1, ONE_AND_NULL, true, None)], [[ONE_AND_NULL]];
            && Resolves(V_SCHEMA, SET_FIVE.filter) && FilesOk(V_SCHEMA, ps, files)
            && var e := RewriteEffect(V_SCHEMA, SET_FIVE, ps, files, 2);
               ReplayAll(TableRows(ps), Concat(e.groups)) != RowsAfter(e)
  {
    var ps, files := [Partition(1, ONE_AND_NULL, true, None)], [[ONE_AND_NULL]];
    NullStandsBy();
    assert Concat([ONE_AND_NULL]) == ONE_AND_NULL;
    ChangesReplayIff(V_SCHEMA, SET_FIVE, ps, files, 2);
    assert ps[0].rows == ONE_AND_NULL && ONE_AND_NULL[1] in ps[0].rows;
    assert IsBystander(V_SCHEMA, SET_FIVE.filter, ps, ONE_AND_NULL[1]);
  }
}
