/**
 Counting NULL cells. Replaying change rows moves the count by a fixed amount, and an UPDATE
 moves the table's count by that amount less the NULLs it loses, so a lost NULL is never made
 good by a later statement.
*/
module LostNulls {
  import opened RowBatches
  import opened Replay
  import opened CopyOnWrite

  function NullsIn(row: Row): nat {
    if row == [] then 0 else NullsIn(row[..|row| - 1]) + if row[|row| - 1] == Null then 1 else 0
  }

  ghost function Nulls(m: multiset<Row>): nat
    decreases |m|
  {
    if m == multiset{} then 0
    else
      var x :| x in m;
      NullsIn(x) + Nulls(m - multiset{x})
  }

  /** Any row may be counted first. */
  lemma {:induction false} NullsTake(m: multiset<Row>, x: Row)
    requires x in m
    ensures Nulls(m) == NullsIn(x) + Nulls(m - multiset{x})
    decreases |m|
  {
    var y :| y in m && Nulls(m) == NullsIn(y) + Nulls(m - multiset{y});
    if x != y {
      NullsTake(m - multiset{y}, x);
      NullsTake(m - multiset{x}, y);
      assert m - multiset{y} - multiset{x} == m - multiset{x} - multiset{y};
    }
  }

  lemma NullsAddOne(m: multiset<Row>, x: Row)
    ensures Nulls(m + multiset{x}) == Nulls(m) + NullsIn(x)
  {
    NullsTake(m + multiset{x}, x);
    assert m + multiset{x} - multiset{x} == m;
  }

  lemma {:induction false} NullsAdd(a: multiset<Row>, b: multiset<Row>)
    ensures Nulls(a + b) == Nulls(a) + Nulls(b)
    decreases |b|
  {
    if b == multiset{} {
      assert a + b == a;
    } else {
      var x :| x in b;
      var rest := b - multiset{x};
      NullsAdd(a, rest);
      NullsTake(b, x);
      NullsAddOne(a + rest, x);
      assert a + b == a + rest + multiset{x};
    }
  }

  // ---- Replay ----

  /** What change rows do to the number of NULLs. */
  ghost function Delta(cs: seq<Change<Row>>): int {
    if cs == [] then 0
    else if cs[0].action == InsertRow then Delta(cs[1..]) + NullsIn(cs[0].row)
    else Delta(cs[1..]) - NullsIn(cs[0].row)
  }

  lemma {:induction false} DeltaConcat(a: seq<Change<Row>>, b: seq<Change<Row>>)
    ensures Delta(a + b) == Delta(a) + Delta(b)
    decreases |a|
  {
    if a == [] {
      assert a + b == b;
    } else {
      DeltaConcat(a[1..], b);
      assert (a + b)[0] == a[0] && (a + b)[1..] == a[1..] + b;
    }
  }

  lemma {:induction false} ReplayNulls(m: multiset<Row>, cs: seq<Change<Row>>)
    requires Applies(m, cs)
    ensures Nulls(ReplayAll(m, cs)) == Nulls(m) + Delta(cs)
    decreases |cs|
  {
    if cs != [] {
      ReplayNulls(ReplayOne(m, cs[0]), cs[1..]);
      if cs[0].action == InsertRow {
        NullsAddOne(m, cs[0].row);
      } else {
        NullsTake(m, cs[0].row);
      }
    }
  }

  // ---- Rebuilt rows ----

  lemma {:induction false} FewerNulls(a: Row, b: Row)
    requires |a| == |b| && forall c :: 0 <= c < |a| && b[c] == Null ==> a[c] == Null
    ensures NullsIn(b) <= NullsIn(a)
    ensures (exists c :: 0 <= c < |a| && a[c] == Null && b[c] != Null) ==> NullsIn(b) < NullsIn(a)
    decreases |a|
  {
    if a != [] {
      var n := |a| - 1;
      FewerNulls(a[..n], b[..n]);
      if c :| 0 <= c < |a| && a[c] == Null && b[c] != Null {
        assert c < n ==> a[..n][c] == Null && b[..n][c] != Null;
      }
    }
  }

  lemma RebuiltRowNulls(schema: Schema, asg: seq<Assignment>, row: Row)
    requires |row| == |schema|
    ensures var after := NullsIn(UpdatedRow(schema, asg, row, false));
            after <= NullsIn(row) && (after == NullsIn(row) <==> !LosesNull(schema, asg, row))
  {
    var row' := UpdatedRow(schema, asg, row, false);
    FewerNulls(row, row');
    if LosesNull(schema, asg, row) {
      var c :| 0 <= c < |schema| && c < |row| && row[c] == Null
               && FindAssignment(asg, schema[c].name).Some? && schema[c].dtype in {Int64, Float64};
      assert row'[c] != Null;
    } else {
      RebuiltRow(schema, asg, row);
    }
  }

  ghost predicate AnyLosesNull(schema: Schema, op: Rewrite, rows: seq<Row>) {
    op.Update? && exists x :: x in rows && LosesNull(schema, op.asg, x)
  }

  lemma NullsSnoc(rows: seq<Row>, x: Row)
    ensures Nulls(multiset(rows + [x])) == Nulls(multiset(rows)) + NullsIn(x)
  {
    assert multiset(rows + [x]) == multiset(rows) + multiset{x};
    NullsAddOne(multiset(rows), x);
  }

  lemma AnyLosesNullSnoc(schema: Schema, op: Rewrite, rows: seq<Row>, x: Row)
    requires op.Update?
    ensures AnyLosesNull(schema, op, rows + [x]) <==> AnyLosesNull(schema, op, rows) || LosesNull(schema, op.asg, x)
  {
    assert forall y :: y in rows + [x] <==> y in rows || y == x;
  }

  lemma RebuildSnoc(schema: Schema, op: Rewrite, rows: seq<Row>, x: Row)
    requires RowsShaped(schema, rows) && |x| == |schema| && op.Update?
    ensures RowsShaped(schema, rows + [x])
    ensures Rebuild(schema, op, rows + [x]) == Rebuild(schema, op, rows) + [UpdatedRow(schema, op.asg, x, false)]
  {}

  /** Rebuilding adds no NULL, and removes none if and only if no row loses one. */
  ghost predicate RebuildCounts(schema: Schema, op: Rewrite, rows: seq<Row>)
    requires RowsShaped(schema, rows)
  {
    var before, after := Nulls(multiset(rows)), Nulls(multiset(Rebuild(schema, op, rows)));
    after <= before && (after == before <==> !AnyLosesNull(schema, op, rows))
  }

  lemma RebuildCountsSnoc(schema: Schema, op: Rewrite, rows: seq<Row>, x: Row)
    requires RowsShaped(schema, rows) && |x| == |schema| && op.Update? && RebuildCounts(schema, op, rows)
    ensures RowsShaped(schema, rows + [x]) && RebuildCounts(schema, op, rows + [x])
  {
    RebuiltRowNulls(schema, op.asg, x);
    RebuildSnoc(schema, op, rows, x);
    NullsSnoc(rows, x);
    NullsSnoc(Rebuild(schema, op, rows), UpdatedRow(schema, op.asg, x, false));
    AnyLosesNullSnoc(schema, op, rows, x);
  }

  lemma {:induction false} RebuildNulls(schema: Schema, op: Rewrite, rows: seq<Row>)
    requires RowsShaped(schema, rows) && op.Update?
    ensures RebuildCounts(schema, op, rows)
    decreases |rows|
  {
    if rows == [] {
      assert Rebuild(schema, op, rows) == [];
    } else {
      var init, x := rows[..|rows| - 1], rows[|rows| - 1];
      RebuildNulls(schema, op, init);
      RebuildCountsSnoc(schema, op, init, x);
      assert rows == init + [x];
    }
  }

  // ---- One statement ----

  /** A statement moves the table's NULLs as its change rows say, less those it loses; it loses
      none if and only if no bystander has one to lose. */
  lemma StatementNulls(schema: Schema, op: Rewrite, ps: seq<Partition>, files: seq<seq<seq<Row>>>, nextId: nat)
    requires Resolves(schema, op.filter) && FilesOk(schema, ps, files) && VisibleShaped(schema, ps)
    ensures var e := RewriteEffect(schema, op, ps, files, nextId);
            && Nulls(RowsAfter(e)) <= Nulls(TableRows(ps)) + Delta(Concat(e.groups))
            && (Nulls(RowsAfter(e)) == Nulls(TableRows(ps)) + Delta(Concat(e.groups)) <==> KeepsNulls(schema, op, ps))
  {
    var e, others := RewriteEffect(schema, op, ps, files, nextId), TableBystanders(schema, op, ps, files);
    TableReplay(schema, op, ps, files, nextId);
    TableMembers(schema, op, ps, files);
    var replayed, rebuilt := ReplayAll(TableRows(ps), Concat(e.groups)), Rebuild(schema, op, others);
    ReplayNulls(TableRows(ps), Concat(e.groups));
    NullsAdd(RowsAfter(e), multiset(others));
    NullsAdd(replayed, multiset(rebuilt));
    if op.Update? {
      RebuildNulls(schema, op, others);
    }
  }
}
