/**
 INSERT, UPDATE and DELETE as the coordinator executes them against one table: partitions
 are read batch by batch, rewritten copy-on-write, and published together with their change
 rows in one commit.
*/
module DmlExecutor {
  import opened ChangeLog
  import opened Wrappers
  import opened RowBatches
  import opened Replay
  import opened StreamProtocol
  import opened CopyOnWrite
  import opened Publication
  import opened Statements

  datatype DmlError = FilterError(error: Error) | EmptyPayload

  ghost predicate FileShaped(schema: Schema, batches: seq<Batch>) {
    forall i :: 0 <= i < |batches| ==> Shaped(schema, batches[i])
  }

  /** The rows of each batch of a file. */
  ghost function FileRows(schema: Schema, batches: seq<Batch>): (file: seq<seq<Row>>)
    requires FileShaped(schema, batches)
    ensures |file| == |batches| && AllShaped(schema, file)
    ensures forall i :: 0 <= i < |batches| ==> file[i] == Rows(schema, batches[i])
  {
    seq(|batches|, i requires 0 <= i < |batches| => Rows(schema, batches[i]))
  }

  /** Rewrites one batch: its rows afterwards and its change rows. */
  method RewriteBatch(schema: Schema, op: Rewrite, p: nat, base: nat, b: Batch)
      returns (r: Result<(seq<Row>, seq<Change<Row>>), Error>)
    requires Shaped(schema, b)
    ensures r.Ok? <==> Resolves(schema, op.filter)
    ensures r.Ok? ==> RowsShaped(schema, Rows(schema, b))
                      && r.value.0 == BatchAfter(schema, op, Rows(schema, b))
                      && r.value.1 == BatchChanges(schema, op, p, base, Rows(schema, b))
  {
    var mask := EvalFilter(schema, b, op.filter);
    if mask.Err? {
      return Err(mask.error);
    }
    var rows := Rows(schema, b);
    assert mask.value == Mask(schema, op.filter, rows);
    match op
    case Update(asg, _) =>
      var b' := ApplyUpdate(schema, b, asg, mask.value);
      var rows' := Rows(schema, b');
      assert rows' == UpdatedRows(schema, asg, rows, mask.value);
      return Ok((rows', Changes(DeleteRow, true, p, base, rows, mask.value)
                        + Changes(InsertRow, true, p, base, rows', mask.value)));
    case Delete(_) =>
      var b' := TakeRows(schema, b, Inverted(mask.value));
      return Ok((Rows(schema, b'), Changes(DeleteRow, false, p, base, rows, mask.value)));
  }

  lemma {:induction false} ConcatPrefix<T>(xs: seq<seq<T>>, n: nat)
    requires n <= |xs|
    ensures |Concat(xs[..n])| <= |Concat(xs)|
    decreases |xs|
  {
    if n == |xs| {
      assert xs[..n] == xs;
    } else {
      ConcatPrefix(xs[..|xs| - 1], n);
      assert xs[..|xs| - 1][..n] == xs[..n];
    }
  }

  /** The store after ranges for these groups, and nothing else, were allocated from s0. */
  ghost predicate Ranges<D>(s0: Store<D>, txn: nat, groups: seq<seq<D>>, s: Store<D>) {
    NoneEmpty(groups) && Allocated(s0) + |Concat(groups)| < U64_MAX && s == AllocateAll(s0, txn, groups)
  }

  /** The store after a batch with these change rows. */
  ghost function AfterBatch<D>(s: Store<D>, txn: nat, cs: seq<D>): Store<D>
    requires Allocated(s) + |cs| < U64_MAX
  {
    if cs == [] then s else Step(s, Allocate(txn, |cs|))
  }

  lemma RangesOptional<D>(s0: Store<D>, txn: nat, groups: seq<seq<D>>, s: Store<D>, cs: seq<D>, s': Store<D>)
    requires Ranges(s0, txn, groups, s) && Allocated(s0) + |Concat(groups)| + |cs| < U64_MAX
    requires s' == AfterBatch(s, txn, cs)
    ensures Ranges(s0, txn, groups + (if cs == [] then [] else [cs]), s')
  {
    if cs == [] {
      assert groups + [] == groups;
    } else {
    }
  }

  lemma RangesMore<D>(s0: Store<D>, txn: nat, groups: seq<seq<D>>, s: Store<D>, more: seq<seq<D>>, s': Store<D>)
    requires Ranges(s0, txn, groups, s) && Ranges(s, txn, more, s')
    ensures Ranges(s0, txn, groups + more, s') && |Concat(groups + more)| == |Concat(groups)| + |Concat(more)|
  {
    AllocateMore(s0, txn, groups, more);
  }

  lemma RangesCommit<D>(s0: Store<D>, txn: nat, groups: seq<seq<D>>, s: Store<D>)
    requires txn !in s0.open && Ranges(s0, txn, groups, s)
    ensures Enabled(s, Commit(txn, groups)) && Step(s, Commit(txn, groups)) == Publishes(s0, txn, groups)
  {
    HeldAfterAllocate(s0, txn, groups);
    SpansFit(Allocated(s0), groups);
  }

  /** What has been made of a file, or of its first batches. */
  ghost predicate FileDone(schema: Schema, op: Rewrite, p: nat, file: seq<seq<Row>>, after: seq<Row>,
                           groups: seq<seq<Change<Row>>>)
    requires AllShaped(schema, file)
  {
    && (Resolves(schema, op.filter) ==>
          after == FileAfter(schema, op, file) && groups == FileGroups(schema, op, p, file))
    && (!Resolves(schema, op.filter) ==> after == [] && groups == [])
    && |Concat(groups)| <= 2 * |Concat(file)|
  }

  class Table {
    const schema: Schema
    var partitions: seq<Partition>
    var nextId: nat
    var store: Store<Change<Row>>

    ghost function Contents(): Database
      reads this
    {
      Database(partitions, nextId, store)
    }

    constructor (schema: Schema)
      ensures this.schema == schema && partitions == [] && store == Init()
    {
      this.schema := schema;
      partitions := [];
      nextId := 1;
      store := Init();
    }

    /** Rewrites one batch and allocates a range for its change rows, if there are any. */
    method RewriteAndAllocate(op: Rewrite, txn: nat, p: nat, base: nat, b: Batch)
        returns (r: Result<(seq<Row>, seq<Change<Row>>), Error>)
      requires Shaped(schema, b) && Allocated(store) + 2 * b.size < U64_MAX
      modifies this`store
      ensures r.Ok? <==> Resolves(schema, op.filter)
      ensures r.Err? ==> store == old(store)
      ensures r.Ok? ==> RowsShaped(schema, Rows(schema, b))
                        && r.value.0 == BatchAfter(schema, op, Rows(schema, b))
                        && r.value.1 == BatchChanges(schema, op, p, base, Rows(schema, b))
                        && |r.value.1| <= 2 * b.size && store == AfterBatch(old(store), txn, r.value.1)
    {
      r := RewriteBatch(schema, op, p, base, b);
      if r.Ok? {
        BatchChangesBound(schema, op, p, base, Rows(schema, b));
        if r.value.1 != [] {
          store := Step(store, Allocate(txn, |r.value.1|));
        }
      }
    }

    /** Rewrites a partition's file batch by batch, allocating one range per batch that
        matches. */
    method RewriteFile(op: Rewrite, txn: nat, p: nat, batches: seq<Batch>)
        returns (r: Result<(seq<Row>, seq<seq<Change<Row>>>), Error>)
      requires FileShaped(schema, batches)
      requires Allocated(store) + 2 * |Concat(FileRows(schema, batches))| < U64_MAX
      modifies this`store
      ensures r.Err? ==> !Resolves(schema, op.filter) && store == old(store)
      ensures r.Ok? ==> FileDone(schema, op, p, FileRows(schema, batches), r.value.0, r.value.1)
                        && Ranges(old(store), txn, r.value.1, store)
    {
      ghost var file, s0 := FileRows(schema, batches), store;
      var after: seq<Row>, groups: seq<seq<Change<Row>>>, base: nat := [], [], 0;
      for i := 0 to |batches|
        invariant base == |Concat(file[..i])|
        invariant i > 0 ==> Resolves(schema, op.filter)
        invariant FileDone(schema, op, p, file[..i], after, groups)
        invariant Ranges(s0, txn, groups, store)
      {
        RoomForBatch(file, i, groups);
        ghost var before := store;
        var one := RewriteAndAllocate(op, txn, p, base, batches[i]);
        if one.Err? {
          return Err(one.error);
        }
        FileStep(schema, op, p, file, i, after, groups, one.value.0, one.value.1);
        RangesOptional(s0, txn, groups, before, one.value.1, store);
        after := after + one.value.0;
        groups := groups + if one.value.1 == [] then [] else [one.value.1];
        base := base + batches[i].size;
      }
      assert file[..|batches|] == file;
      return Ok((after, groups));
    }

    /** INSERT: a new partition and one change record; an insert of no rows fails because an
        empty payload cannot be written. */
    method ExecInsert(txn: nat, rows: seq<Row>) returns (r: Result<(), DmlError>)
      requires RowsShaped(schema, rows) && txn !in store.open && HasRoom(store, |rows|)
      modifies this
      ensures r.Ok? <==> rows != []
      ensures r.Err? ==> r.error == EmptyPayload
                         && Contents() == old(Contents()).(store := old(store).(issued := Some(Allocated(old(store)))))
      ensures r.Ok? ==> Contents() == InsertInto(old(Contents()), txn, rows)
    {
      if rows == [] {
        store := Step(store, Allocate(txn, 0));
        return Err(EmptyPayload);
      }
      var id := nextId;
      var cs := InsertChanges(id, rows);
      InsertCount(id, rows);
      ghost var s0 := store;
      assert [] + [cs] == [cs];
      store := Step(store, Allocate(txn, |cs|));
      RangesCommit(s0, txn, [cs], store);
      store := Step(store, Commit(txn, [cs]));
      nextId := nextId + 1;
      partitions := partitions + [Partition(id, rows, true, None)];
      return Ok(());
    }

    /** Rewrites every visible partition; files[i] holds the batches the reader returns for
        partition i. */
    method RewritePartitions(op: Rewrite, txn: nat, files: seq<seq<Batch>>) returns (r: Result<Effect, Error>)
      requires BatchesShaped(schema, files) && FilesOk(schema, partitions, FilesRows(schema, files))
      requires HasRoom(store, 2 * RowCount(partitions))
      modifies this`store
      ensures r.Err? ==> !Resolves(schema, op.filter) && store == old(store)
      ensures r.Ok? ==> TableDone(schema, op, partitions, FilesRows(schema, files), nextId, r.value)
                        && Ranges(old(store), txn, r.value.groups, store)
    {
      ghost var s0, fs := store, FilesRows(schema, files);
      var e := Effect([], [], [], nextId);
      for i := 0 to |partitions|
        invariant TableDone(schema, op, partitions[..i], fs[..i], nextId, e)
        invariant Ranges(s0, txn, e.groups, store)
      {
        var after: seq<Row>, gs: seq<seq<Change<Row>>> := [], [];
        if Visible(partitions[i]) {
          RowCountStep(partitions, i);
          ghost var before := store;
          var one := RewriteFile(op, txn, partitions[i].id, files[i]);
          if one.Err? {
            return Err(one.error);
          }
          after, gs := one.value.0, one.value.1;
          RangesMore(s0, txn, e.groups, before, gs, store);
        }
        TableStep(schema, op, partitions, fs, nextId, i, e, after, gs);
        e := Extended(e, partitions[i], after, gs);
      }
      assert partitions[..|partitions|] == partitions && fs[..|partitions|] == fs;
      return Ok(e);
    }

    /** UPDATE and DELETE. */
    method ExecRewrite(op: Rewrite, txn: nat, files: seq<seq<Batch>>) returns (r: Result<(), DmlError>)
      requires txn !in store.open
      requires BatchesShaped(schema, files) && FilesOk(schema, partitions, FilesRows(schema, files))
      requires HasRoom(store, 2 * RowCount(partitions))
      modifies this
      ensures r.Err? ==> !Resolves(schema, op.filter) && Contents() == old(Contents())
      ensures r.Ok? && !Resolves(schema, op.filter) ==>
                Contents() == old(Contents()).(store := Publishes(old(store), txn, []))
      ensures r.Ok? && Resolves(schema, op.filter) ==>
                Contents() == RewriteIn(schema, old(Contents()), op, txn, FilesRows(schema, files))
    {
      ghost var s0 := store;
      var one := RewritePartitions(op, txn, files);
      if one.Err? {
        return Err(FilterError(one.error));
      }
      var e := one.value;
      RangesCommit(s0, txn, e.groups, store);
      store := Step(store, Commit(txn, e.groups));
      partitions := e.marked + e.added;
      nextId := e.nextId;
      return Ok(());
    }
  }

  /** One more partition: kept as it is when none of its batches matched, else superseded by a
      partition that is written only if rows are left. */
  function Extended(e: Effect, p: Partition, after: seq<Row>, gs: seq<seq<Change<Row>>>): Effect {
    if gs == [] then e.(marked := e.marked + [p])
    else Effect(e.marked + [p.(active := false, supersededBy := Some(e.nextId))],
                e.added + (if after == [] then [] else [Partition(e.nextId, after, true, None)]),
                e.groups + gs, e.nextId + 1)
  }

  /** What has been made of the table, or of its first partitions. */
  ghost predicate TableDone(schema: Schema, op: Rewrite, ps: seq<Partition>, fs: seq<seq<seq<Row>>>,
                            id0: nat, e: Effect)
    requires FilesOk(schema, ps, fs)
  {
    && (Resolves(schema, op.filter) ==> e == RewriteEffect(schema, op, ps, fs, id0))
    && (!Resolves(schema, op.filter) ==> e == Effect(ps, [], [], id0))
    && |Concat(e.groups)| <= 2 * RowCount(ps)
  }

  lemma EffectSnoc(schema: Schema, op: Rewrite, ps: seq<Partition>, fs: seq<seq<seq<Row>>>, id0: nat, i: nat)
    requires Resolves(schema, op.filter) && FilesOk(schema, ps, fs) && i < |ps|
    ensures RewriteEffect(schema, op, ps[..i + 1], fs[..i + 1], id0)
            == RewriteOne(schema, op, RewriteEffect(schema, op, ps[..i], fs[..i], id0), ps[i], fs[i])
  {
    assert ps[..i + 1][..i] == ps[..i] && fs[..i + 1][..i] == fs[..i];
  }

  lemma TableStep(schema: Schema, op: Rewrite, ps: seq<Partition>, fs: seq<seq<seq<Row>>>, id0: nat, i: nat, e: Effect,
                  after: seq<Row>, gs: seq<seq<Change<Row>>>)
    requires FilesOk(schema, ps, fs) && i < |ps| && TableDone(schema, op, ps[..i], fs[..i], id0, e)
    requires if Visible(ps[i]) then FileDone(schema, op, ps[i].id, fs[i], after, gs) else gs == []
    ensures TableDone(schema, op, ps[..i + 1], fs[..i + 1], id0, Extended(e, ps[i], after, gs))
  {
    RowCountStep(ps, i);
    ConcatAppend(e.groups, gs);
    if Resolves(schema, op.filter) {
      EffectSnoc(schema, op, ps, fs, id0, i);
    } else {
      assert ps[..i + 1] == ps[..i] + [ps[i]];
    }
  }

  ghost predicate BatchesShaped(schema: Schema, files: seq<seq<Batch>>) {
    forall i :: 0 <= i < |files| ==> FileShaped(schema, files[i])
  }

  ghost function FilesRows(schema: Schema, files: seq<seq<Batch>>): (fs: seq<seq<seq<Row>>>)
    requires BatchesShaped(schema, files)
    ensures |fs| == |files| && forall i :: 0 <= i < |files| ==> fs[i] == FileRows(schema, files[i])
  {
    seq(|files|, i requires 0 <= i < |files| => FileRows(schema, files[i]))
  }

  lemma RoomForBatch(file: seq<seq<Row>>, i: nat, groups: seq<seq<Change<Row>>>)
    requires i < |file| && |Concat(groups)| <= 2 * |Concat(file[..i])|
    ensures |Concat(groups)| + 2 * |file[i]| <= 2 * |Concat(file)|
  {
    assert file[..i + 1][..i] == file[..i];
    ConcatPrefix(file, i + 1);
  }

  lemma FileStep(schema: Schema, op: Rewrite, p: nat, file: seq<seq<Row>>, i: nat, after: seq<Row>,
                 groups: seq<seq<Change<Row>>>, rows': seq<Row>, cs: seq<Change<Row>>)
    requires AllShaped(schema, file) && i < |file| && Resolves(schema, op.filter)
    requires FileDone(schema, op, p, file[..i], after, groups)
    requires rows' == BatchAfter(schema, op, file[i])
    requires cs == BatchChanges(schema, op, p, |Concat(file[..i])|, file[i])
    ensures |Concat(file[..i + 1])| == |Concat(file[..i])| + |file[i]|
    ensures |Concat(groups)| + |cs| <= 2 * |Concat(file)|
    ensures FileDone(schema, op, p, file[..i + 1], after + rows', groups + if cs == [] then [] else [cs])
  {
    assert file[..i + 1][..i] == file[..i];
    ConcatPrefix(file, i + 1);
    BatchChangesBound(schema, op, p, |Concat(file[..i])|, file[i]);
    ConcatOptional(groups, cs);
  }

  lemma {:induction false} RowCountPrefix(ps: seq<Partition>, n: nat)
    requires n <= |ps|
    ensures RowCount(ps[..n]) <= RowCount(ps)
    decreases |ps|
  {
    if n == |ps| {
      assert ps[..n] == ps;
    } else {
      RowCountPrefix(ps[..|ps| - 1], n);
      assert ps[..|ps| - 1][..n] == ps[..n];
    }
  }

  lemma RowCountStep(ps: seq<Partition>, i: nat)
    requires i < |ps|
    ensures RowCount(ps[..i + 1]) == RowCount(ps[..i]) + (if Visible(ps[i]) then |ps[i].rows| else 0) <= RowCount(ps)
  {
    assert ps[..i + 1][..i] == ps[..i];
    RowCountPrefix(ps, i + 1);
  }
}
