/**
 INSERT, UPDATE and DELETE as functions on a database value: the partitions, the next
 partition id and the change log's store. Each statement's change rows, replayed on the rows
 before it, give the rows after it, if and only if it loses no NULL.
*/
module Statements {
  import opened ChangeLog
  import opened Wrappers
  import opened RowBatches
  import opened Replay
  import opened StreamProtocol
  import opened CopyOnWrite
  import opened Publication

  datatype Database = Database(partitions: seq<Partition>, nextId: nat, store: Store<Change<Row>>)

  function AllTrue(n: nat): (mask: seq<bool>)
    ensures |mask| == n && forall i :: 0 <= i < n ==> mask[i]
  {
    seq(n, _ => true)
  }

  /** The change rows of an INSERT into partition p. */
  function InsertChanges(p: nat, rows: seq<Row>): seq<Change<Row>> {
    Changes(InsertRow, false, p, 0, rows, AllTrue(|rows|))
  }

  lemma {:induction false} AllSelected<T>(rows: seq<T>, mask: seq<bool>)
    requires |mask| == |rows| && forall i :: 0 <= i < |mask| ==> mask[i]
    ensures Selected(rows, mask) == rows
    decreases |rows|
  {
    if rows != [] {
      AllSelected(rows[1..], mask[1..]);
    }
  }

  lemma InsertCount(p: nat, rows: seq<Row>)
    ensures |InsertChanges(p, rows)| == |rows| && Selected(rows, AllTrue(|rows|)) == rows
  {
    AllSelected(rows, AllTrue(|rows|));
    ChangesParallel(InsertRow, InsertRow, false, p, 0, rows, rows, AllTrue(|rows|));
  }

  lemma {:induction false} SelectedBound<T>(rows: seq<T>, mask: seq<bool>)
    requires |mask| == |rows|
    ensures |Selected(rows, mask)| <= |rows|
    decreases |rows|
  {
    if rows != [] {
      SelectedBound(rows[1..], mask[1..]);
    }
  }

  /** A batch emits at most two change rows per row. */
  lemma BatchChangesBound(schema: Schema, op: Rewrite, p: nat, base: nat, rows: seq<Row>)
    requires Resolves(schema, op.filter) && RowsShaped(schema, rows)
    ensures |BatchChanges(schema, op, p, base, rows)| <= 2 * |rows|
  {
    var mask := Mask(schema, op.filter, rows);
    SelectedBound(rows, mask);
    ChangesParallel(DeleteRow, DeleteRow, op.Update?, p, base, rows, rows, mask);
    if op.Update? {
      ChangesParallel(DeleteRow, InsertRow, true, p, base, rows, UpdatedRows(schema, op.asg, rows, mask), mask);
    }
  }

  /** Rows of visible partitions. */
  ghost function RowCount(ps: seq<Partition>): nat {
    if ps == [] then 0
    else RowCount(ps[..|ps| - 1]) + if Visible(ps[|ps| - 1]) then |ps[|ps| - 1].rows| else 0
  }

  lemma {:induction false} FileGroupsFit(schema: Schema, op: Rewrite, p: nat, file: seq<seq<Row>>)
    requires Resolves(schema, op.filter) && AllShaped(schema, file)
    ensures NoneEmpty(FileGroups(schema, op, p, file))
    ensures |Concat(FileGroups(schema, op, p, file))| <= 2 * |Concat(file)|
    decreases |file|
  {
    if file != [] {
      var n := |file| - 1;
      FileGroupsFit(schema, op, p, file[..n]);
      BatchChangesBound(schema, op, p, |Concat(file[..n])|, file[n]);
      ConcatOptional(FileGroups(schema, op, p, file[..n]), BatchChanges(schema, op, p, |Concat(file[..n])|, file[n]));
    }
  }

  /** UPDATE and DELETE allocate no empty range and at most two sequences per row. */
  lemma {:induction false} EffectFits(schema: Schema, op: Rewrite, ps: seq<Partition>, fs: seq<seq<seq<Row>>>, id: nat)
    requires Resolves(schema, op.filter) && FilesOk(schema, ps, fs)
    ensures var e := RewriteEffect(schema, op, ps, fs, id);
            NoneEmpty(e.groups) && |Concat(e.groups)| <= 2 * RowCount(ps)
    decreases |ps|
  {
    if ps != [] {
      var n := |ps| - 1;
      EffectFits(schema, op, ps[..n], fs[..n], id);
      if Visible(ps[n]) {
        FileGroupsFit(schema, op, ps[n].id, fs[n]);
        ConcatAppend(RewriteEffect(schema, op, ps[..n], fs[..n], id).groups, FileGroups(schema, op, ps[n].id, fs[n]));
      }
    }
  }

  /** Room for this many more sequence numbers. */
  predicate HasRoom(s: Store<Change<Row>>, n: nat) {
    Allocated(s) + n < U64_MAX
  }

  /** INSERT of at least one row. */
  ghost function InsertInto(db: Database, txn: nat, rows: seq<Row>): Database
    requires rows != [] && txn !in db.store.open && HasRoom(db.store, |rows|)
  {
    var cs := InsertChanges(db.nextId, rows);
    InsertCount(db.nextId, rows);
    assert Concat([cs]) == cs;
    Database(db.partitions + [Partition(db.nextId, rows, true, None)], db.nextId + 1, Publishes(db.store, txn, [cs]))
  }

  /** UPDATE or DELETE. */
  ghost function RewriteIn(schema: Schema, db: Database, op: Rewrite, txn: nat, fs: seq<seq<seq<Row>>>): Database
    requires Resolves(schema, op.filter) && FilesOk(schema, db.partitions, fs)
    requires txn !in db.store.open && HasRoom(db.store, 2 * RowCount(db.partitions))
  {
    var e := RewriteEffect(schema, op, db.partitions, fs, db.nextId);
    EffectFits(schema, op, db.partitions, fs, db.nextId);
    Database(e.marked + e.added, e.nextId, Publishes(db.store, txn, e.groups))
  }

  lemma {:induction false} TableRowsAppend(a: seq<Partition>, b: seq<Partition>)
    ensures TableRows(a + b) == TableRows(a) + TableRows(b)
    decreases |b|
  {
    if b == [] {
      assert a + b == a;
    } else {
      var init, p := b[..|b| - 1], b[|b| - 1];
      TableRowsAppend(a, init);
      assert b == init + [p] && a + b == (a + init) + [p];
    }
  }

  /** From a quiet store, a statement appends change rows and leaves the store quiet. */
  ghost predicate Appends(db: Database, db': Database, cs: seq<Change<Row>>) {
    && Quiet(db'.store) && Extends(db.store.log, db'.store.log) && db'.store.streams == db.store.streams
    && Carries(db'.store.log, db.store.watermark, db'.store.watermark, cs)
  }

  /** Change rows turn the old rows into the new ones. */
  ghost predicate Tells(db: Database, db': Database, cs: seq<Change<Row>>) {
    Applies(TableRows(db.partitions), cs) && ReplayAll(TableRows(db.partitions), cs) == TableRows(db'.partitions)
  }

  lemma InsertIsTruthful(db: Database, txn: nat, rows: seq<Row>)
    requires Quiet(db.store) && rows != [] && HasRoom(db.store, |rows|)
    ensures var db', cs := InsertInto(db, txn, rows), InsertChanges(db.nextId, rows);
            Appends(db, db', cs) && Tells(db, db', cs)
  {
    var cs := InsertChanges(db.nextId, rows);
    InsertCount(db.nextId, rows);
    assert Concat([cs]) == cs;
    QuietStatement(db.store, txn, [cs]);
    ReplayInserts(TableRows(db.partitions), false, db.nextId, 0, rows, AllTrue(|rows|));
  }

  /** An UPDATE or DELETE always appends its change rows, and they turn the old rows into the
      new ones if and only if no bystander loses a NULL. */
  lemma RewriteIsTruthfulIff(schema: Schema, db: Database, op: Rewrite, txn: nat, fs: seq<seq<seq<Row>>>)
    requires Quiet(db.store) && Resolves(schema, op.filter) && FilesOk(schema, db.partitions, fs)
    requires HasRoom(db.store, 2 * RowCount(db.partitions)) && VisibleShaped(schema, db.partitions)
    ensures var db' := RewriteIn(schema, db, op, txn, fs);
            var cs := Concat(RewriteEffect(schema, op, db.partitions, fs, db.nextId).groups);
            Appends(db, db', cs) && (Tells(db, db', cs) <==> KeepsNulls(schema, op, db.partitions))
  {
    var e := RewriteEffect(schema, op, db.partitions, fs, db.nextId);
    EffectFits(schema, op, db.partitions, fs, db.nextId);
    QuietStatement(db.store, txn, e.groups);
    ChangesReplayIff(schema, op, db.partitions, fs, db.nextId);
    TableRowsAppend(e.marked, e.added);
  }
}
