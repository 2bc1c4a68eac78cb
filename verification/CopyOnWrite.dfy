/**
 Copy-on-write UPDATE and DELETE over micro-partitions, as values: which partitions they
 replace, by what, and which change rows they emit for it; and the theorem that replaying the
 change rows gives the table's new rows, with the exact condition under which it does.
*/
module CopyOnWrite {
  import opened Wrappers
  import opened RowBatches
  import opened Replay

  datatype Partition = Partition(id: nat, rows: seq<Row>, active: bool, supersededBy: Option<nat>)

  predicate Visible(p: Partition) {
    p.active && p.supersededBy.None?
  }

  datatype Rewrite = Update(asg: seq<Assignment>, filter: Option<Filter>) | Delete(filter: Option<Filter>)

  ghost predicate RowsShaped(schema: Schema, rows: seq<Row>) {
    forall i :: 0 <= i < |rows| ==> |rows[i]| == |schema|
  }

  ghost function Mask(schema: Schema, f: Option<Filter>, rows: seq<Row>): (mask: seq<bool>)
    requires Resolves(schema, f) && RowsShaped(schema, rows)
    ensures MaskOf(schema, f, rows, mask)
  {
    seq(|rows|, i requires 0 <= i < |rows| => Matches(schema, f, rows[i]))
  }

  /** All rows after UpdatedRow, matched or not. */
  ghost function UpdatedRows(schema: Schema, asg: seq<Assignment>, rows: seq<Row>, mask: seq<bool>): (out: seq<Row>)
    requires RowsShaped(schema, rows) && |mask| == |rows|
    ensures |out| == |rows| && RowsShaped(schema, out)
  {
    seq(|rows|, i requires 0 <= i < |rows| => UpdatedRow(schema, asg, rows[i], mask[i]))
  }

  /** The rows of a batch that is rewritten. */
  ghost function BatchAfter(schema: Schema, op: Rewrite, rows: seq<Row>): seq<Row>
    requires Resolves(schema, op.filter) && RowsShaped(schema, rows)
  {
    var mask := Mask(schema, op.filter, rows);
    match op
    case Update(asg, _) => UpdatedRows(schema, asg, rows, mask)
    case Delete(_) => Selected(rows, Inverted(mask))
  }

  /** The change rows of a batch: UPDATE deletes the old rows and inserts the new ones. */
  ghost function BatchChanges(schema: Schema, op: Rewrite, p: nat, base: nat, rows: seq<Row>): seq<Change<Row>>
    requires Resolves(schema, op.filter) && RowsShaped(schema, rows)
  {
    var mask := Mask(schema, op.filter, rows);
    match op
    case Update(asg, _) =>
      Changes(DeleteRow, true, p, base, rows, mask)
      + Changes(InsertRow, true, p, base, UpdatedRows(schema, asg, rows, mask), mask)
    case Delete(_) => Changes(DeleteRow, false, p, base, rows, mask)
  }

  ghost predicate AllShaped(schema: Schema, batches: seq<seq<Row>>) {
    forall i :: 0 <= i < |batches| ==> RowsShaped(schema, batches[i])
  }

  function Concat<T>(xs: seq<seq<T>>): seq<T> {
    if xs == [] then [] else Concat(xs[..|xs| - 1]) + xs[|xs| - 1]
  }

  /** One group of change rows, hence one change record, per batch with a matching row. */
  ghost function FileGroups(schema: Schema, op: Rewrite, p: nat, batches: seq<seq<Row>>): seq<seq<Change<Row>>>
    requires Resolves(schema, op.filter) && AllShaped(schema, batches)
  {
    if batches == [] then []
    else
      var n := |batches| - 1;
      var cs := BatchChanges(schema, op, p, |Concat(batches[..n])|, batches[n]);
      FileGroups(schema, op, p, batches[..n]) + if cs == [] then [] else [cs]
  }

  ghost function FileAfter(schema: Schema, op: Rewrite, batches: seq<seq<Row>>): seq<Row>
    requires Resolves(schema, op.filter) && AllShaped(schema, batches)
  {
    if batches == [] then []
    else FileAfter(schema, op, batches[..|batches| - 1]) + BatchAfter(schema, op, batches[|batches| - 1])
  }

  /** What a statement does to the partitions: old ones kept or marked superseded, new ones
      added, and the groups of change rows. */
  datatype Effect = Effect(marked: seq<Partition>, added: seq<Partition>, groups: seq<seq<Change<Row>>>, nextId: nat)

  /** files[i] holds the batches read back from partition i. */
  ghost predicate FilesOk(schema: Schema, ps: seq<Partition>, files: seq<seq<seq<Row>>>) {
    |files| == |ps| &&
    forall i :: 0 <= i < |ps| && Visible(ps[i]) ==> AllShaped(schema, files[i]) && Concat(files[i]) == ps[i].rows
  }

  ghost function RewriteOne(schema: Schema, op: Rewrite, e: Effect, p: Partition, file: seq<seq<Row>>): Effect
    requires Visible(p) ==> Resolves(schema, op.filter) && AllShaped(schema, file)
  {
    if !Visible(p) || FileGroups(schema, op, p.id, file) == [] then e.(marked := e.marked + [p])
    else
      var after := FileAfter(schema, op, file);
      Effect(e.marked + [p.(active := false, supersededBy := Some(e.nextId))],
             e.added + (if after == [] then [] else [Partition(e.nextId, after, true, None)]),
             e.groups + FileGroups(schema, op, p.id, file),
             e.nextId + 1)
  }

  ghost function RewriteEffect(schema: Schema, op: Rewrite, ps: seq<Partition>, files: seq<seq<seq<Row>>>,
                               nextId: nat): Effect
    requires Resolves(schema, op.filter) && FilesOk(schema, ps, files)
    decreases |ps|
  {
    if ps == [] then Effect([], [], [], nextId)
    else
      var n := |ps| - 1;
      RewriteOne(schema, op, RewriteEffect(schema, op, ps[..n], files[..n], nextId), ps[n], files[n])
  }

  ghost function TableRows(ps: seq<Partition>): multiset<Row> {
    if ps == [] then multiset{}
    else TableRows(ps[..|ps| - 1]) + if Visible(ps[|ps| - 1]) then multiset(ps[|ps| - 1].rows) else multiset{}
  }

  // ---- Lost NULLs ----

  /** The row has a NULL in an assigned Int64 or Float64 column. */
  ghost predicate LosesNull(schema: Schema, asg: seq<Assignment>, row: Row) {
    exists c :: 0 <= c < |schema| && c < |row| && row[c] == Null
                && FindAssignment(asg, schema[c].name).Some? && schema[c].dtype in {Int64, Float64}
  }

  lemma RebuiltRow(schema: Schema, asg: seq<Assignment>, row: Row)
    requires |row| == |schema|
    ensures UpdatedRow(schema, asg, row, false) == row <==> !LosesNull(schema, asg, row)
    ensures !LosesNull(schema, asg, UpdatedRow(schema, asg, row, false))
  {
    var row' := UpdatedRow(schema, asg, row, false);
    if LosesNull(schema, asg, row) {
      var c :| 0 <= c < |schema| && c < |row| && row[c] == Null
               && FindAssignment(asg, schema[c].name).Some? && schema[c].dtype in {Int64, Float64};
      assert row'[c] != row[c];
    } else {
      assert forall c :: 0 <= c < |row| ==> row'[c] == row[c];
    }
  }

  /** Rows outside the filter in a batch, as they were and as they come out. */
  ghost function Bystanders(schema: Schema, op: Rewrite, rows: seq<Row>): (out: seq<Row>)
    requires Resolves(schema, op.filter) && RowsShaped(schema, rows)
  {
    Selected(rows, Inverted(Mask(schema, op.filter, rows)))
  }

  ghost function Rebuild(schema: Schema, op: Rewrite, rows: seq<Row>): (out: seq<Row>)
    requires RowsShaped(schema, rows)
    ensures |out| == |rows|
  {
    match op
    case Update(asg, _) => UpdatedRows(schema, asg, rows, seq(|rows|, _ => false))
    case Delete(_) => rows
  }

  lemma {:induction false} SelectedShaped(schema: Schema, rows: seq<Row>, mask: seq<bool>)
    requires RowsShaped(schema, rows) && |mask| == |rows|
    ensures RowsShaped(schema, Selected(rows, mask))
  {
    if rows != [] {
      SelectedShaped(schema, rows[1..], mask[1..]);
    }
  }

  lemma {:induction false} SelectedUpdated(schema: Schema, asg: seq<Assignment>, rows: seq<Row>, mask: seq<bool>,
                                           sel: seq<bool>)
    requires RowsShaped(schema, rows) && |mask| == |rows| == |sel|
    requires forall i :: 0 <= i < |rows| && sel[i] ==> !mask[i]
    ensures RowsShaped(schema, Selected(rows, sel))
    ensures Selected(UpdatedRows(schema, asg, rows, mask), sel)
            == UpdatedRows(schema, asg, Selected(rows, sel), seq(|Selected(rows, sel)|, _ => false))
    decreases |rows|
  {
    if rows != [] {
      SelectedShaped(schema, rows, sel);
      SelectedUpdated(schema, asg, rows[1..], mask[1..], sel[1..]);
      assert UpdatedRows(schema, asg, rows, mask)[1..] == UpdatedRows(schema, asg, rows[1..], mask[1..]);
      var rest := Selected(rows[1..], sel[1..]);
      if sel[0] {
        assert Selected(rows, sel) == [rows[0]] + rest;
        assert UpdatedRows(schema, asg, [rows[0]] + rest, seq(1 + |rest|, _ => false))
               == [UpdatedRow(schema, asg, rows[0], false)] + UpdatedRows(schema, asg, rest, seq(|rest|, _ => false));
      }
    }
  }

  // ---- Replay, batch by batch, file by file, table by table ----

  lemma DeleteBatchReplay(p: nat, base: nat, rows: seq<Row>, mask: seq<bool>)
    requires |mask| == |rows|
    ensures var cs := Changes(DeleteRow, false, p, base, rows, mask);
            Applies(multiset(rows), cs) && multiset(Selected(rows, Inverted(mask))) == ReplayAll(multiset(rows), cs)
  {
    SelectedSplit(rows, mask);
    ReplayDeletes(multiset(rows), false, p, base, rows, mask);
  }

  lemma UpdateBatchReplay(p: nat, base: nat, old': seq<Row>, new': seq<Row>, mask: seq<bool>)
    requires |mask| == |old'| == |new'|
    ensures var cs := Changes(DeleteRow, true, p, base, old', mask) + Changes(InsertRow, true, p, base, new', mask);
            && Applies(multiset(old'), cs)
            && multiset(new') + multiset(Selected(old', Inverted(mask)))
               == ReplayAll(multiset(old'), cs) + multiset(Selected(new', Inverted(mask)))
  {
    var dels, inss := Changes(DeleteRow, true, p, base, old', mask), Changes(InsertRow, true, p, base, new', mask);
    var mid := multiset(Selected(old', Inverted(mask)));
    assert Applies(multiset(old'), dels) && ReplayAll(multiset(old'), dels) == mid by {
      SelectedSplit(old', mask);
      ReplayDeletes(multiset(old'), true, p, base, old', mask);
    }
    assert Applies(mid, inss) && ReplayAll(mid, inss) == mid + multiset(Selected(new', mask)) by {
      ReplayInserts(mid, true, p, base, new', mask);
    }
    assert Applies(multiset(old'), dels + inss)
           && ReplayAll(multiset(old'), dels + inss) == mid + multiset(Selected(new', mask)) by {
      ReplayConcat(multiset(old'), dels, inss);
      AppliesConcat(multiset(old'), dels, inss);
    }
    SelectedSplit(new', mask);
  }

  /** Replaying a batch's changes gives its new rows, up to what happened to bystanders. */
  lemma BatchReplay(schema: Schema, op: Rewrite, p: nat, base: nat, rows: seq<Row>)
    requires Resolves(schema, op.filter) && RowsShaped(schema, rows)
    ensures var cs, others := BatchChanges(schema, op, p, base, rows), Bystanders(schema, op, rows);
            && RowsShaped(schema, others) && Applies(multiset(rows), cs)
            && multiset(BatchAfter(schema, op, rows)) + multiset(others)
               == ReplayAll(multiset(rows), cs) + multiset(Rebuild(schema, op, others))
  {
    var mask := Mask(schema, op.filter, rows);
    SelectedShaped(schema, rows, Inverted(mask));
    match op
    case Delete(_) =>
      DeleteBatchReplay(p, base, rows, mask);
    case Update(asg, _) =>
      UpdateBatchReplay(p, base, rows, UpdatedRows(schema, asg, rows, mask), mask);
      SelectedUpdated(schema, asg, rows, mask, Inverted(mask));
  }

  ghost function FileBystanders(schema: Schema, op: Rewrite, batches: seq<seq<Row>>): (out: seq<Row>)
    requires Resolves(schema, op.filter) && AllShaped(schema, batches)
  {
    if batches == [] then []
    else FileBystanders(schema, op, batches[..|batches| - 1]) + Bystanders(schema, op, batches[|batches| - 1])
  }

  lemma RebuildConcat(schema: Schema, op: Rewrite, a: seq<Row>, b: seq<Row>)
    requires RowsShaped(schema, a) && RowsShaped(schema, b)
    ensures RowsShaped(schema, a + b)
    ensures multiset(Rebuild(schema, op, a + b)) == multiset(Rebuild(schema, op, a)) + multiset(Rebuild(schema, op, b))
  {
    assert Rebuild(schema, op, a + b) == Rebuild(schema, op, a) + Rebuild(schema, op, b);
  }

  lemma ConcatOptional<T>(xs: seq<seq<T>>, x: seq<T>)
    ensures Concat(xs + if x == [] then [] else [x]) == Concat(xs) + x
  {
    if x == [] {
      assert xs + [] == xs;
    } else {
    }
  }

  lemma {:induction false} ConcatAppend<T>(xs: seq<seq<T>>, ys: seq<seq<T>>)
    ensures Concat(xs + ys) == Concat(xs) + Concat(ys)
    decreases |ys|
  {
    if ys == [] {
      assert xs + ys == xs;
    } else {
      var n := |ys| - 1;
      ConcatAppend(xs, ys[..n]);
      assert xs + ys == xs + ys[..n] + [ys[n]];
    }
  }

  /** Balanced(m, cs, after, others): replaying cs on m gives `after`, except that rows
      `others` stand where `after` has their rebuilt versions. */
  ghost predicate Balanced(schema: Schema, op: Rewrite, m: multiset<Row>, cs: seq<Change<Row>>, after: multiset<Row>,
                           others: seq<Row>) {
    && RowsShaped(schema, others) && Applies(m, cs)
    && after + multiset(others) == ReplayAll(m, cs) + multiset(Rebuild(schema, op, others))
  }

  lemma AddBalances<T>(a: multiset<T>, o: multiset<T>, r: multiset<T>, b: multiset<T>,
                       a': multiset<T>, o': multiset<T>, r': multiset<T>, b': multiset<T>)
    requires a + o == r + b && a' + o' == r' + b'
    ensures (a + a') + (o + o') == (r + r') + (b + b')
  {
    assert (a + a') + (o + o') == (a + o) + (a' + o');
    assert (r + r') + (b + b') == (r + b) + (r' + b');
  }

  lemma AddSame<T>(a: multiset<T>, o: multiset<T>, r: multiset<T>, b: multiset<T>, x: multiset<T>)
    requires a + o == r + b
    ensures (a + x) + o == (r + x) + b
  {
    assert (a + x) + o == (a + o) + x;
    assert (r + x) + b == (r + b) + x;
  }

  lemma BalancedBoth(schema: Schema, op: Rewrite, m: multiset<Row>, cs: seq<Change<Row>>, after: multiset<Row>,
                     others: seq<Row>,
                     n: multiset<Row>, ds: seq<Change<Row>>, after': multiset<Row>, others': seq<Row>)
    requires Balanced(schema, op, m, cs, after, others) && Balanced(schema, op, n, ds, after', others')
    ensures Balanced(schema, op, m + n, cs + ds, after + after', others + others')
  {
    ReplayTwo(m, n, cs, ds);
    RebuildConcat(schema, op, others, others');
    AddBalances(after, multiset(others), ReplayAll(m, cs), multiset(Rebuild(schema, op, others)),
                after', multiset(others'), ReplayAll(n, ds), multiset(Rebuild(schema, op, others')));
    assert multiset(others + others') == multiset(others) + multiset(others');
  }

  lemma {:induction false} FileReplay(schema: Schema, op: Rewrite, p: nat, batches: seq<seq<Row>>)
    requires Resolves(schema, op.filter) && AllShaped(schema, batches)
    ensures Balanced(schema, op, multiset(Concat(batches)), Concat(FileGroups(schema, op, p, batches)),
                     multiset(FileAfter(schema, op, batches)), FileBystanders(schema, op, batches))
    decreases |batches|
  {
    if batches == [] {
      assert Rebuild(schema, op, []) == [];
    } else {
      var n := |batches| - 1;
      var init, last := batches[..n], batches[n];
      var cs := BatchChanges(schema, op, p, |Concat(init)|, last);
      FileReplay(schema, op, p, init);
      BatchReplay(schema, op, p, |Concat(init)|, last);
      BalancedBoth(schema, op, multiset(Concat(init)), Concat(FileGroups(schema, op, p, init)),
                   multiset(FileAfter(schema, op, init)), FileBystanders(schema, op, init),
                   multiset(last), cs, multiset(BatchAfter(schema, op, last)), Bystanders(schema, op, last));
      ConcatOptional(FileGroups(schema, op, p, init), cs);
      assert multiset(Concat(batches)) == multiset(Concat(init)) + multiset(last);
    }
  }

  /** The rows that share a rewritten partition with a matched row without matching themselves. */
  ghost function TableBystanders(schema: Schema, op: Rewrite, ps: seq<Partition>,
                                 files: seq<seq<seq<Row>>>): (out: seq<Row>)
    requires Resolves(schema, op.filter) && FilesOk(schema, ps, files)
    decreases |ps|
  {
    if ps == [] then []
    else
      var n := |ps| - 1;
      TableBystanders(schema, op, ps[..n], files[..n])
      + if Visible(ps[n]) && FileGroups(schema, op, ps[n].id, files[n]) != []
        then FileBystanders(schema, op, files[n]) else []
  }

  ghost function RowsAfter(e: Effect): multiset<Row> {
    TableRows(e.marked) + TableRows(e.added)
  }

  /** A partition with a match is replaced; its file's share joins the balance. */
  lemma TouchedReplay(schema: Schema, op: Rewrite, e: Effect, p: Partition, file: seq<seq<Row>>, m: multiset<Row>,
                      others: seq<Row>)
    requires Visible(p) && Resolves(schema, op.filter) && AllShaped(schema, file) && Concat(file) == p.rows
    requires FileGroups(schema, op, p.id, file) != []
    requires Balanced(schema, op, m, Concat(e.groups), RowsAfter(e), others)
    ensures var e' := RewriteOne(schema, op, e, p, file);
            Balanced(schema, op, m + multiset(p.rows), Concat(e'.groups), RowsAfter(e'),
                     others + FileBystanders(schema, op, file))
  {
    var e' := RewriteOne(schema, op, e, p, file);
    var groups, after := FileGroups(schema, op, p.id, file), FileAfter(schema, op, file);
    FileReplay(schema, op, p.id, file);
    BalancedBoth(schema, op, m, Concat(e.groups), RowsAfter(e), others,
                 multiset(p.rows), Concat(groups), multiset(after), FileBystanders(schema, op, file));
    assert Concat(e'.groups) == Concat(e.groups) + Concat(groups) by {
      ConcatAppend(e.groups, groups);
    }
    assert RowsAfter(e') == RowsAfter(e) + multiset(after) by {
      TouchedRows(schema, op, e, p, file);
    }
  }

  lemma TouchedRows(schema: Schema, op: Rewrite, e: Effect, p: Partition, file: seq<seq<Row>>)
    requires Visible(p) && Resolves(schema, op.filter) && AllShaped(schema, file)
    requires FileGroups(schema, op, p.id, file) != []
    ensures RowsAfter(RewriteOne(schema, op, e, p, file)) == RowsAfter(e) + multiset(FileAfter(schema, op, file))
  {
    var after := FileAfter(schema, op, file);
    if after == [] {
      assert e.added + [] == e.added;
    } else {
    }
  }

  /** A partition without a match stays as it is. */
  lemma UntouchedReplay(schema: Schema, op: Rewrite, e: Effect, p: Partition, m: multiset<Row>, others: seq<Row>)
    requires Balanced(schema, op, m, Concat(e.groups), RowsAfter(e), others)
    ensures Balanced(schema, op, m + (if Visible(p) then multiset(p.rows) else multiset{}), Concat(e.groups),
                     RowsAfter(e.(marked := e.marked + [p])), others)
  {
    var extra := if Visible(p) then multiset(p.rows) else multiset{};
    assert RowsAfter(e.(marked := e.marked + [p])) == RowsAfter(e) + extra by {
    }
    ReplayFrame(m, extra, Concat(e.groups));
    AddSame(RowsAfter(e), multiset(others), ReplayAll(m, Concat(e.groups)),
            multiset(Rebuild(schema, op, others)), extra);
  }

  lemma {:induction false} TableReplay(schema: Schema, op: Rewrite, ps: seq<Partition>, files: seq<seq<seq<Row>>>,
                                       nextId: nat)
    requires Resolves(schema, op.filter) && FilesOk(schema, ps, files)
    ensures var e := RewriteEffect(schema, op, ps, files, nextId);
            Balanced(schema, op, TableRows(ps), Concat(e.groups), RowsAfter(e), TableBystanders(schema, op, ps, files))
    decreases |ps|
  {
    if ps == [] {
      assert Rebuild(schema, op, []) == [];
    } else {
      var n := |ps| - 1;
      TableReplay(schema, op, ps[..n], files[..n], nextId);
      var e := RewriteEffect(schema, op, ps[..n], files[..n], nextId);
      var others := TableBystanders(schema, op, ps[..n], files[..n]);
      if Visible(ps[n]) && FileGroups(schema, op, ps[n].id, files[n]) != [] {
        TouchedReplay(schema, op, e, ps[n], files[n], TableRows(ps[..n]), others);
      } else {
        UntouchedReplay(schema, op, e, ps[n], TableRows(ps[..n]), others);
        assert others + [] == others;
      }
    }
  }

  // ---- Exactly when the change rows tell the truth ----

  ghost predicate HasMatch(schema: Schema, f: Option<Filter>, rows: seq<Row>)
    requires Resolves(schema, f) && RowsShaped(schema, rows)
  {
    exists i :: 0 <= i < |rows| && Matches(schema, f, rows[i])
  }

  ghost predicate VisibleShaped(schema: Schema, ps: seq<Partition>) {
    forall i :: 0 <= i < |ps| && Visible(ps[i]) ==> RowsShaped(schema, ps[i].rows)
  }

  /** Row x of ps does not match, but shares its visible partition with a row that does. */
  ghost predicate IsBystander(schema: Schema, f: Option<Filter>, ps: seq<Partition>, x: Row)
    requires Resolves(schema, f) && VisibleShaped(schema, ps)
  {
    exists i :: 0 <= i < |ps| && Visible(ps[i]) && HasMatch(schema, f, ps[i].rows)
                && x in ps[i].rows && !Matches(schema, f, x)
  }

  /** No bystander has a NULL in an assigned Int64 or Float64 column. */
  ghost predicate KeepsNulls(schema: Schema, op: Rewrite, ps: seq<Partition>)
    requires Resolves(schema, op.filter) && VisibleShaped(schema, ps)
  {
    op.Update? ==> forall x :: IsBystander(schema, op.filter, ps, x) ==> !LosesNull(schema, op.asg, x)
  }

  lemma {:induction false} SelectedMembers<T>(rows: seq<T>, mask: seq<bool>)
    requires |mask| == |rows|
    ensures forall x :: x in Selected(rows, mask) <==> exists i :: 0 <= i < |rows| && mask[i] && rows[i] == x
    decreases |rows|
  {
    if rows != [] {
      SelectedMembers(rows[1..], mask[1..]);
      forall x
        ensures x in Selected(rows, mask) <==> exists i :: 0 <= i < |rows| && mask[i] && rows[i] == x
      {
        if i :| 0 <= i < |rows| && mask[i] && rows[i] == x {
          assert i > 0 ==> rows[1..][i - 1] == x && mask[1..][i - 1];
        }
        if x in Selected(rows[1..], mask[1..]) {
          var i :| 0 <= i < |rows[1..]| && mask[1..][i] && rows[1..][i] == x;
          assert rows[i + 1] == x && mask[i + 1];
        }
      }
    }
  }

  lemma BatchMembers(schema: Schema, op: Rewrite, p: nat, base: nat, rows: seq<Row>)
    requires Resolves(schema, op.filter) && RowsShaped(schema, rows)
    ensures forall x :: x in Bystanders(schema, op, rows) <==> x in rows && !Matches(schema, op.filter, x)
    ensures BatchChanges(schema, op, p, base, rows) == [] <==> !HasMatch(schema, op.filter, rows)
  {
    var mask := Mask(schema, op.filter, rows);
    SelectedMembers(rows, Inverted(mask));
    SelectedMembers(rows, mask);
    ChangesParallel(DeleteRow, DeleteRow, op.Update?, p, base, rows, rows, mask);
    if op.Update? {
      ChangesParallel(DeleteRow, InsertRow, true, p, base, rows, UpdatedRows(schema, op.asg, rows, mask), mask);
    }
    assert Selected(rows, mask) == [] <==> !HasMatch(schema, op.filter, rows) by {
      if i :| 0 <= i < |rows| && Matches(schema, op.filter, rows[i]) {
        assert mask[i] && rows[i] in Selected(rows, mask);
      } else if Selected(rows, mask) != [] {
        assert Selected(rows, mask)[0] in Selected(rows, mask);
      }
    }
  }

  ghost function Count(action: ChangeAction, cs: seq<Change<Row>>): nat {
    if cs == [] then 0
    else Count(action, cs[..|cs| - 1]) + if cs[|cs| - 1].action == action then 1 else 0
  }

  lemma {:induction false} CountAll(action: ChangeAction, cs: seq<Change<Row>>, ds: seq<Change<Row>>)
    requires forall i :: 0 <= i < |cs| ==> cs[i].action != action
    requires forall i :: 0 <= i < |ds| ==> ds[i].action == action
    ensures Count(action, cs + ds) == |ds|
    decreases |cs| + |ds|
  {
    var all := cs + ds;
    var n := |all| - 1;
    if ds != [] {
      assert all[..n] == cs + ds[..|ds| - 1];
      CountAll(action, cs, ds[..|ds| - 1]);
    } else if cs != [] {
      assert all[..n] == cs[..|cs| - 1] + ds;
      CountAll(action, cs[..|cs| - 1], ds);
    }
  }

  lemma {:induction false} CountBoth(cs: seq<Change<Row>>)
    ensures Count(InsertRow, cs) + Count(DeleteRow, cs) == |cs|
    decreases |cs|
  {
    if cs != [] {
      CountBoth(cs[..|cs| - 1]);
    }
  }

  /** The action counts of a batch's record: an UPDATE has one delete and one insert per matched
      row, a DELETE one delete, and the two counts make up the record's rows. */
  lemma ActionCounts(schema: Schema, op: Rewrite, p: nat, base: nat, rows: seq<Row>)
    requires Resolves(schema, op.filter) && RowsShaped(schema, rows)
    ensures var cs, matched := BatchChanges(schema, op, p, base, rows), |Selected(rows, Mask(schema, op.filter, rows))|;
            && Count(DeleteRow, cs) == matched && Count(InsertRow, cs) == (if op.Update? then matched else 0)
            && Count(InsertRow, cs) + Count(DeleteRow, cs) == |cs|
  {
    var mask := Mask(schema, op.filter, rows);
    var rows' := if op.Update? then UpdatedRows(schema, op.asg, rows, mask) else rows;
    var dels := Changes(DeleteRow, op.Update?, p, base, rows, mask);
    var inss := if op.Update? then Changes(InsertRow, true, p, base, rows', mask) else [];
    ChangesParallel(DeleteRow, InsertRow, op.Update?, p, base, rows, rows', mask);
    ChangesParallel(InsertRow, InsertRow, true, p, base, rows', rows', mask);
    forall k | 0 <= k < |dels|
      ensures dels[k].action == DeleteRow
    {
      ChangesNamePositions(DeleteRow, op.Update?, p, base, rows, mask, k);
    }
    forall k | 0 <= k < |inss|
      ensures inss[k].action == InsertRow
    {
      ChangesNamePositions(InsertRow, true, p, base, rows', mask, k);
    }
    assert BatchChanges(schema, op, p, base, rows) == dels + inss;
    CountAll(InsertRow, dels, inss);
    CountBoth(dels + inss);
  }

  lemma HasMatchConcat(schema: Schema, f: Option<Filter>, a: seq<Row>, b: seq<Row>)
    requires Resolves(schema, f) && RowsShaped(schema, a) && RowsShaped(schema, b)
    ensures RowsShaped(schema, a + b)
    ensures HasMatch(schema, f, a + b) <==> HasMatch(schema, f, a) || HasMatch(schema, f, b)
  {
    var ab := a + b;
    if i :| 0 <= i < |a| && Matches(schema, f, a[i]) {
      assert Matches(schema, f, ab[i]);
    }
    if i :| 0 <= i < |b| && Matches(schema, f, b[i]) {
      assert Matches(schema, f, ab[|a| + i]);
    }
    if i :| 0 <= i < |ab| && Matches(schema, f, ab[i]) {
      assert if i < |a| then ab[i] == a[i] else ab[i] == b[i - |a|];
    }
  }

  lemma {:induction false} FileMembers(schema: Schema, op: Rewrite, p: nat, batches: seq<seq<Row>>)
    requires Resolves(schema, op.filter) && AllShaped(schema, batches)
    ensures RowsShaped(schema, Concat(batches))
    ensures forall x :: x in FileBystanders(schema, op, batches) <==>
                          x in Concat(batches) && !Matches(schema, op.filter, x)
    ensures FileGroups(schema, op, p, batches) == [] <==> !HasMatch(schema, op.filter, Concat(batches))
    decreases |batches|
  {
    if batches != [] {
      var n := |batches| - 1;
      FileMembers(schema, op, p, batches[..n]);
      BatchMembers(schema, op, p, |Concat(batches[..n])|, batches[n]);
      HasMatchConcat(schema, op.filter, Concat(batches[..n]), batches[n]);
    }
  }

  lemma FilesShaped(schema: Schema, op: Rewrite, ps: seq<Partition>, files: seq<seq<seq<Row>>>)
    requires Resolves(schema, op.filter) && FilesOk(schema, ps, files)
    ensures VisibleShaped(schema, ps)
  {
    forall i | 0 <= i < |ps| && Visible(ps[i])
      ensures RowsShaped(schema, ps[i].rows)
    {
      FileMembers(schema, op, ps[i].id, files[i]);
    }
  }

  lemma {:induction false} TableMembers(schema: Schema, op: Rewrite, ps: seq<Partition>, files: seq<seq<seq<Row>>>)
    requires Resolves(schema, op.filter) && FilesOk(schema, ps, files) && VisibleShaped(schema, ps)
    ensures forall x :: x in TableBystanders(schema, op, ps, files) <==> IsBystander(schema, op.filter, ps, x)
    decreases |ps|
  {
    if ps != [] {
      var n := |ps| - 1;
      TableMembers(schema, op, ps[..n], files[..n]);
      if Visible(ps[n]) {
        FileMembers(schema, op, ps[n].id, files[n]);
      }
      forall x
        ensures IsBystander(schema, op.filter, ps, x) <==>
                IsBystander(schema, op.filter, ps[..n], x)
                || (Visible(ps[n]) && HasMatch(schema, op.filter, ps[n].rows)
                    && x in ps[n].rows && !Matches(schema, op.filter, x))
      {
        BystanderSnoc(schema, op.filter, ps, x);
      }
    }
  }

  lemma BystanderSnoc(schema: Schema, f: Option<Filter>, ps: seq<Partition>, x: Row)
    requires Resolves(schema, f) && VisibleShaped(schema, ps) && ps != []
    ensures var n := |ps| - 1;
            IsBystander(schema, f, ps, x) <==>
            IsBystander(schema, f, ps[..n], x)
            || (Visible(ps[n]) && HasMatch(schema, f, ps[n].rows) && x in ps[n].rows && !Matches(schema, f, x))
  {
    var init := ps[..|ps| - 1];
    if i :| 0 <= i < |init| && Visible(init[i]) && HasMatch(schema, f, init[i].rows)
            && x in init[i].rows && !Matches(schema, f, x) {
      assert ps[i] == init[i];
    }
    if i :| 0 <= i < |ps| && Visible(ps[i]) && HasMatch(schema, f, ps[i].rows)
            && x in ps[i].rows && !Matches(schema, f, x) {
      assert i < |init| ==> init[i] == ps[i];
    }
  }

  /** A list of rows equals its rebuilt version, as a multiset, only if no row loses a NULL. */
  lemma RebuildIsIdentityIff(schema: Schema, asg: seq<Assignment>, f: Option<Filter>, rows: seq<Row>)
    requires RowsShaped(schema, rows)
    ensures multiset(Rebuild(schema, Update(asg, f), rows)) == multiset(rows)
            <==> forall x :: x in rows ==> !LosesNull(schema, asg, x)
  {
    var out := Rebuild(schema, Update(asg, f), rows);
    forall i | 0 <= i < |rows|
      ensures out[i] == rows[i] <==> !LosesNull(schema, asg, rows[i])
      ensures !LosesNull(schema, asg, out[i])
    {
      RebuiltRow(schema, asg, rows[i]);
    }
    if forall x :: x in rows ==> !LosesNull(schema, asg, x) {
      assert out == rows;
    } else {
      var x :| x in rows && LosesNull(schema, asg, x);
      assert x in multiset(rows) && x !in multiset(out);
    }
  }

  /** For every table, filter and assignment list, and however the partitions are split into
      batches: the change rows of an UPDATE or DELETE apply to the rows before it, and turn
      them into exactly the rows after it if and only if no bystander loses a NULL. */
  lemma ChangesReplayIff(schema: Schema, op: Rewrite, ps: seq<Partition>, files: seq<seq<seq<Row>>>, nextId: nat)
    requires Resolves(schema, op.filter) && FilesOk(schema, ps, files)
    ensures VisibleShaped(schema, ps)
    ensures var e := RewriteEffect(schema, op, ps, files, nextId);
            && Applies(TableRows(ps), Concat(e.groups))
            && (ReplayAll(TableRows(ps), Concat(e.groups)) == RowsAfter(e) <==> KeepsNulls(schema, op, ps))
  {
    var e, others := RewriteEffect(schema, op, ps, files, nextId), TableBystanders(schema, op, ps, files);
    FilesShaped(schema, op, ps, files);
    TableReplay(schema, op, ps, files, nextId);
    TableMembers(schema, op, ps, files);
    if op.Update? {
      RebuildIsIdentityIff(schema, op.asg, op.filter, others);
    }
    SameIff(RowsAfter(e), multiset(others), ReplayAll(TableRows(ps), Concat(e.groups)),
            multiset(Rebuild(schema, op, others)));
  }

  lemma SameIff<T>(a: multiset<T>, o: multiset<T>, r: multiset<T>, b: multiset<T>)
    requires a + o == r + b
    ensures r == a <==> b == o
  {
    if r == a {
      forall x
        ensures b[x] == o[x]
      {
        assert (a + o)[x] == (r + b)[x];
      }
    }
    if b == o {
      forall x
        ensures a[x] == r[x]
      {
        assert (a + o)[x] == (r + b)[x];
      }
    }
  }

  /** d removes the old version of a matched row and i adds its new version, under one row id. */
  ghost predicate IsPair(schema: Schema, asg: seq<Assignment>, f: Option<Filter>, p: nat, base: nat, rows: seq<Row>,
                         d: Change<Row>, i: Change<Row>)
    requires Resolves(schema, f) && RowsShaped(schema, rows)
  {
    && d.action == DeleteRow && i.action == InsertRow && d.isUpdate && i.isUpdate
    && d.id == i.id && d.id.partition == p && base <= d.id.ordinal < base + |rows|
    && d.row == rows[d.id.ordinal - base] && Matches(schema, f, d.row) && i.row == UpdatedRow(schema, asg, d.row, true)
  }

  lemma PairAt(schema: Schema, asg: seq<Assignment>, f: Option<Filter>, p: nat, base: nat, rows: seq<Row>, k: nat)
    requires Resolves(schema, f) && RowsShaped(schema, rows)
    requires k < |Changes(DeleteRow, true, p, base, rows, Mask(schema, f, rows))|
    ensures var mask := Mask(schema, f, rows);
            var dels := Changes(DeleteRow, true, p, base, rows, mask);
            var inss := Changes(InsertRow, true, p, base, UpdatedRows(schema, asg, rows, mask), mask);
            |dels| == |inss| && IsPair(schema, asg, f, p, base, rows, dels[k], inss[k])
  {
    var mask := Mask(schema, f, rows);
    var new' := UpdatedRows(schema, asg, rows, mask);
    ChangesParallel(DeleteRow, InsertRow, true, p, base, rows, new', mask);
    ChangesNamePositions(DeleteRow, true, p, base, rows, mask, k);
    ChangesNamePositions(InsertRow, true, p, base, new', mask, k);
  }

  /** An UPDATE emits each changed row twice: the old row as a DELETE and, as many places
      further on as rows changed, the new row as an INSERT with the same row id. */
  lemma UpdatePairsShareIds(schema: Schema, asg: seq<Assignment>, f: Option<Filter>, p: nat, base: nat, rows: seq<Row>)
    requires Resolves(schema, f) && RowsShaped(schema, rows)
    ensures var cs := BatchChanges(schema, Update(asg, f), p, base, rows);
            var n := |Selected(rows, Mask(schema, f, rows))|;
            |cs| == 2 * n && forall k :: 0 <= k < n ==> IsPair(schema, asg, f, p, base, rows, cs[k], cs[n + k])
  {
    var mask := Mask(schema, f, rows);
    var new' := UpdatedRows(schema, asg, rows, mask);
    var dels, inss := Changes(DeleteRow, true, p, base, rows, mask), Changes(InsertRow, true, p, base, new', mask);
    ChangesParallel(DeleteRow, InsertRow, true, p, base, rows, new', mask);
    forall k | 0 <= k < |dels|
      ensures IsPair(schema, asg, f, p, base, rows, (dels + inss)[k], (dels + inss)[|dels| + k])
    {
      PairAt(schema, asg, f, p, base, rows, k);
    }
  }
}
