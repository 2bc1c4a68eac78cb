/**
 Zone-map pruning over Int64 columns: the statistics a writer keeps for a micro-partition, the
 pruner that reads them, and exactly when the pruner keeps every micro-partition with a
 matching row.
*/
module ZoneMaps {
  import opened Wrappers
  import opened Bytes
  import opened Doubles

  type Cell = Option<i64>
  type Row = seq<Cell>

  /** The batches of one column of a micro-partition. */
  type Column<V> = seq<seq<Option<V>>>

  datatype ColumnStats = ColumnStats(min: Option<seq<nat>>, max: Option<seq<nat>>, nulls: nat)

  datatype Literal = IntLit(i: i64) | StrLit(s: seq<nat>)

  // ---- Statistics ----

  function Present<V(!new)>(cells: seq<Option<V>>): (vals: seq<V>)
    ensures forall v :: v in vals <==> Some(v) in cells
    ensures |vals| <= |cells|
  {
    if cells == [] then []
    else (if cells[0].Some? then [cells[0].value] else []) + Present(cells[1..])
  }

  predicate IsMin(m: i64, vals: seq<i64>) {
    m in vals && forall v :: v in vals ==> m <= v
  }

  predicate IsMax(m: i64, vals: seq<i64>) {
    m in vals && forall v :: v in vals ==> v <= m
  }

  function Least(vals: seq<i64>): (m: i64)
    requires vals != []
    ensures IsMin(m, vals)
  {
    if |vals| == 1 then vals[0]
    else
      assert vals == [vals[0]] + vals[1..];
      var m := Least(vals[1..]);
      if vals[0] < m then vals[0] else m
  }

  function Greatest(vals: seq<i64>): (m: i64)
    requires vals != []
    ensures IsMax(m, vals)
  {
    if |vals| == 1 then vals[0]
    else
      assert vals == [vals[0]] + vals[1..];
      var m := Greatest(vals[1..]);
      if vals[0] > m then vals[0] else m
  }

  /** The non-null values of the first batch that has any. */
  ghost function FirstValues<V(!new)>(col: Column<V>): seq<V> {
    if col == [] then [] else if Present(col[0]) != [] then Present(col[0]) else FirstValues(col[1..])
  }

  ghost function AllCells<V>(col: Column<V>): seq<Option<V>> {
    if col == [] then [] else col[0] + AllCells(col[1..])
  }

  ghost function NullCount<V(!new)>(col: Column<V>): nat {
    if col == [] then 0 else |col[0]| - |Present(col[0])| + NullCount(col[1..])
  }

  ghost predicate IsStats(st: ColumnStats, col: Column<i64>) {
    && st.nulls == NullCount(col)
    && (FirstValues(col) == [] ==> st.min.None? && st.max.None?)
    && (FirstValues(col) != [] ==> st.min == Some(I64Bytes(Least(FirstValues(col))))
                                   && st.max == Some(I64Bytes(Greatest(FirstValues(col)))))
  }

  /** One column's statistics: nulls are counted over all batches, but minimum and maximum
      come from the first batch with data alone. */
  method ComputeColumnStats(col: Column<i64>) returns (st: ColumnStats)
    ensures IsStats(st, col)
  {
    var min: Option<seq<nat>>, max: Option<seq<nat>>, nulls: nat := None, None, 0;
    for i := 0 to |col|
      invariant nulls + NullCount(col[i..]) == NullCount(col)
      invariant min.Some? <==> max.Some?
      invariant min.None? ==> FirstValues(col[i..]) == FirstValues(col)
      invariant min.Some? ==> FirstValues(col) != [] && min == Some(I64Bytes(Least(FirstValues(col))))
                              && max == Some(I64Bytes(Greatest(FirstValues(col))))
    {
      var vals := Present(col[i]);
      assert col[i..][1..] == col[i + 1..];
      nulls := nulls + (|col[i]| - |vals|);
      if min.None? && vals != [] {
        min, max := Some(I64Bytes(Least(vals))), Some(I64Bytes(Greatest(vals)));
      }
    }
    return ColumnStats(min, max, nulls);
  }

  // ---- The pruner ----

  function LiteralToDouble(lit: Literal): int {
    match lit
    case IntLit(v) => ToDouble(v)
    case StrLit(_) => 0
  }

  /** Statistics bytes read as a number: the length alone decides how. */
  function DecodeBound(b: seq<nat>): Option<int> {
    if |b| == 1 then Some(b[0])
    else if |b| in {2, 4} then Some(SignedFromBytes(b))
    else if |b| == 8 then Some(ToDouble(SignedFromBytes(b)))
    else None
  }

  /** Whether statistics leave room for a match. */
  predicate StatsMightMatch(st: ColumnStats, op: string, lit: Literal) {
    if st.min.None? || st.max.None? then true
    else
      var min, max, v := DecodeBound(st.min.value), DecodeBound(st.max.value), LiteralToDouble(lit);
      if min.None? || max.None? then true
      else if op == ">" then max.value > v
      else if op == ">=" then max.value >= v
      else if op == "<" then min.value < v
      else if op == "<=" then min.value <= v
      else if op == "=" then min.value <= v <= max.value
      else true
  }

  /** Whether a cell satisfies the comparison, as the scan decides it: a null satisfies none of
      the known comparisons, and an unknown operator is satisfied by everything. */
  predicate CellMatches(op: string, lit: i64, cell: Cell) {
    if op == "=" then cell.Some? && cell.value == lit
    else if op == "!=" then cell.Some? && cell.value != lit
    else if op == ">" then cell.Some? && cell.value > lit
    else if op == "<" then cell.Some? && cell.value < lit
    else if op == ">=" then cell.Some? && cell.value >= lit
    else if op == "<=" then cell.Some? && cell.value <= lit
    else true
  }

  ghost predicate HasMatch(op: string, lit: i64, col: Column<i64>) {
    exists cell :: cell in AllCells(col) && CellMatches(op, lit, cell)
  }

  /** No literal lets the pruner drop this column while a row of it matches. */
  ghost predicate NeverDrops(op: string, col: Column<i64>, st: ColumnStats) {
    forall lit: i64 :: HasMatch(op, lit, col) ==> StatsMightMatch(st, op, IntLit(lit))
  }

  // ---- When it is right ----

  lemma {:induction false} FirstAreCells<V(!new)>(col: Column<V>)
    ensures forall v :: v in FirstValues(col) ==> Some(v) in AllCells(col)
    ensures FirstValues(col) == [] <==> forall v: V :: Some(v) !in AllCells(col)
    decreases |col|
  {
    if col != [] {
      FirstAreCells(col[1..]);
      var vals := Present(col[0]);
      assert vals != [] ==> vals[0] in vals;
    }
  }

  lemma BoundsDecode(st: ColumnStats, col: Column<i64>)
    requires IsStats(st, col) && FirstValues(col) != []
    ensures st.min.Some? && DecodeBound(st.min.value) == Some(ToDouble(Least(FirstValues(col))))
    ensures st.max.Some? && DecodeBound(st.max.value) == Some(ToDouble(Greatest(FirstValues(col))))
  {
    I64RoundTrip(Least(FirstValues(col)));
    I64RoundTrip(Greatest(FirstValues(col)));
  }

  /** min and max are the least and greatest values of the whole column. */
  ghost predicate Bounds(col: Column<i64>, min: i64, max: i64) {
    && Some(min) in AllCells(col) && Some(max) in AllCells(col)
    && forall v: i64 :: Some(v) in AllCells(col) ==> min <= v <= max
  }

  /** The condition, for a column whose first batch with data has bounds lo and hi, and which as
      a whole has bounds min and max. */
  ghost predicate Safe(op: string, lo: i64, hi: i64, min: i64, max: i64) {
    if op == "=" then ToDouble(lo) == ToDouble(min) && ToDouble(hi) == ToDouble(max)
    else if op == ">=" then ToDouble(hi) == ToDouble(max)
    else if op == "<=" then ToDouble(lo) == ToDouble(min)
    else if op == ">" then max == I64_MIN || ToDouble(max - 1) < ToDouble(hi)
    else if op == "<" then min == I64_MAX || ToDouble(lo) < ToDouble(min + 1)
    else true
  }

  /** The pruner keeps every column with a match, whatever the literal, if and only if the
      bounds it has are as good as the true ones after conversion to doubles; for a strict
      comparison they must even differ there from their neighbour. */
  lemma NeverDropsIff(op: string, col: Column<i64>, st: ColumnStats, min: i64, max: i64)
    requires IsStats(st, col) && Bounds(col, min, max)
    ensures FirstValues(col) != []
    ensures NeverDrops(op, col, st) <==> Safe(op, Least(FirstValues(col)), Greatest(FirstValues(col)), min, max)
  {
    FirstAreCells(col);
    BoundsDecode(st, col);
    var lo, hi := Least(FirstValues(col)), Greatest(FirstValues(col));
    DoubleGrows(min, lo);
    DoubleGrows(hi, max);
    if Safe(op, lo, hi, min, max) {
      forall lit: i64 | HasMatch(op, lit, col)
        ensures StatsMightMatch(st, op, IntLit(lit))
      {
        MatchIsWithin(op, lit, col, min, max);
        WithinIsKept(op, lit, st, lo, hi, min, max);
      }
    }
    if NeverDrops(op, col, st) {
      NeverDropsEdges(op, col, st, min, max);
      EdgesKeptIsSafe(op, st, lo, hi, min, max);
    }
  }

  /** A literal that some value between min and max could match. */
  predicate Within(op: string, lit: i64, min: i64, max: i64) {
    if op == "=" then min <= lit <= max
    else if op == ">" then lit < max
    else if op == "<" then min < lit
    else if op == ">=" then lit <= max
    else if op == "<=" then min <= lit
    else true
  }

  lemma MatchIsWithin(op: string, lit: i64, col: Column<i64>, min: i64, max: i64)
    requires Bounds(col, min, max) && HasMatch(op, lit, col)
    ensures Within(op, lit, min, max)
  {
    var cell :| cell in AllCells(col) && CellMatches(op, lit, cell);
  }

  lemma WithinIsKept(op: string, lit: i64, st: ColumnStats, lo: i64, hi: i64, min: i64, max: i64)
    requires Safe(op, lo, hi, min, max) && Within(op, lit, min, max) && st.min.Some? && st.max.Some?
    requires DecodeBound(st.min.value) == Some(ToDouble(lo)) && DecodeBound(st.max.value) == Some(ToDouble(hi))
    ensures StatsMightMatch(st, op, IntLit(lit))
  {
    if op == "=" {
      DoubleGrows(min, lit);
      DoubleGrows(lit, max);
    } else if op == ">" {
      DoubleGrows(lit, max - 1);
    } else if op == "<" {
      DoubleGrows(min + 1, lit);
    } else if op == ">=" {
      DoubleGrows(lit, max);
    } else if op == "<=" {
      DoubleGrows(min, lit);
    }
  }

  lemma KeepsLiteral(op: string, col: Column<i64>, st: ColumnStats, lit: i64, v: i64)
    requires NeverDrops(op, col, st) && Some(v) in AllCells(col) && CellMatches(op, lit, Some(v))
    ensures StatsMightMatch(st, op, IntLit(lit))
  {
    assert HasMatch(op, lit, col);
  }

  /** The literals at the edge of a column's values are kept. */
  predicate EdgesKept(op: string, st: ColumnStats, min: i64, max: i64) {
    && (op in {"=", ">=", "<="} ==> StatsMightMatch(st, op, IntLit(max)) && StatsMightMatch(st, op, IntLit(min)))
    && (op == ">" && max != I64_MIN ==> StatsMightMatch(st, op, IntLit(max - 1)))
    && (op == "<" && min != I64_MAX ==> StatsMightMatch(st, op, IntLit(min + 1)))
  }

  lemma NeverDropsEdges(op: string, col: Column<i64>, st: ColumnStats, min: i64, max: i64)
    requires Bounds(col, min, max) && NeverDrops(op, col, st)
    ensures EdgesKept(op, st, min, max)
  {
    if op in {"=", ">=", "<="} {
      KeepsLiteral(op, col, st, max, max);
      KeepsLiteral(op, col, st, min, min);
    }
    if op == ">" && max != I64_MIN {
      KeepsLiteral(op, col, st, max - 1, max);
    }
    if op == "<" && min != I64_MAX {
      KeepsLiteral(op, col, st, min + 1, min);
    }
  }

  lemma EdgesKeptIsSafe(op: string, st: ColumnStats, lo: i64, hi: i64, min: i64, max: i64)
    requires EdgesKept(op, st, min, max) && st.min.Some? && st.max.Some?
    requires DecodeBound(st.min.value) == Some(ToDouble(lo)) && DecodeBound(st.max.value) == Some(ToDouble(hi))
    requires ToDouble(min) <= ToDouble(lo) && ToDouble(hi) <= ToDouble(max)
    ensures Safe(op, lo, hi, min, max)
  {
    var lo', hi' := ToDouble(lo), ToDouble(hi);
    if op in {"=", ">=", "<="} {
      KeptMeans(st, op, max, lo', hi');
      KeptMeans(st, op, min, lo', hi');
    } else if op == ">" {
      if max != I64_MIN {
        KeptMeans(st, op, max - 1, lo', hi');
        assert Safe(op, lo, hi, min, max);
      }
    } else if op == "<" {
      if min != I64_MAX {
        KeptMeans(st, op, min + 1, lo', hi');
        assert Safe(op, lo, hi, min, max);
      }
    }
  }

  lemma KeptMeans(st: ColumnStats, op: string, lit: i64, lo: int, hi: int)
    requires st.min.Some? && st.max.Some? && StatsMightMatch(st, op, IntLit(lit))
    requires DecodeBound(st.min.value) == Some(lo) && DecodeBound(st.max.value) == Some(hi)
    ensures op == "=" ==> lo <= ToDouble(lit) <= hi
    ensures op == ">=" ==> hi >= ToDouble(lit)
    ensures op == ">" ==> hi > ToDouble(lit)
    ensures op == "<=" ==> lo <= ToDouble(lit)
    ensures op == "<" ==> lo < ToDouble(lit)
  {}

  /** The condition on the data of a column alone. */
  ghost predicate SafeColumn(op: string, col: Column<i64>) {
    var first, all := FirstValues(col), Present(AllCells(col));
    first != [] ==> all != [] && Safe(op, Least(first), Greatest(first), Least(all), Greatest(all))
  }

  lemma NeverDropsIffSafe(op: string, col: Column<i64>, st: ColumnStats)
    requires IsStats(st, col)
    ensures NeverDrops(op, col, st) <==> SafeColumn(op, col)
  {
    FirstAreCells(col);
    var first, all := FirstValues(col), Present(AllCells(col));
    if first != [] {
      assert first[0] in first && first[0] in all;
      NeverDropsIff(op, col, st, Least(all), Greatest(all));
    }
  }

  /** On one batch, with the greatest value within 2^53 for >, and the least for <, the pruner
      never drops a column with a match. */
  lemma SingleBatchIsSafe(op: string, cells: seq<Cell>)
    requires op == ">" && Present(cells) != [] ==> -TWO53 < Greatest(Present(cells)) <= TWO53
    requires op == "<" && Present(cells) != [] ==> -TWO53 <= Least(Present(cells)) < TWO53
    ensures SafeColumn(op, [cells])
  {
    assert AllCells([cells]) == cells + AllCells<i64>([]) == cells;
    if Present(cells) != [] {
      OwnBoundsAreSafe(op, Least(Present(cells)), Greatest(Present(cells)));
    }
  }

  lemma OwnBoundsAreSafe(op: string, lo: i64, hi: i64)
    requires op == ">" ==> -TWO53 < hi <= TWO53
    requires op == "<" ==> -TWO53 <= lo < TWO53
    ensures Safe(op, lo, hi, lo, hi)
  {
    if op == ">" {
      SmallIsExact(hi - 1);
      SmallIsExact(hi);
    } else if op == "<" {
      SmallIsExact(lo);
      SmallIsExact(lo + 1);
    }
  }

  /** Beyond 2^53 a strict comparison can lose a match: 2^53 + 1 is greater than 2^53, but not
      once both are doubles. */
  lemma LargeValueDropped(st: ColumnStats)
    requires IsStats(st, [[Some(TWO53 + 1)]])
    ensures HasMatch(">", TWO53, [[Some(TWO53 + 1)]]) && !StatsMightMatch(st, ">", IntLit(TWO53))
  {
    var big: i64 := TWO53 + 1;
    var col := [[Some(big)]];
    assert Present(col[0]) == [big];
    assert Some(big) in AllCells(col) && CellMatches(">", TWO53, Some(big));
    BoundsDecode(st, col);
    NeighboursCollapse();
  }

  /** A match outside the first batch with data can be lost: with one value in the first batch
      and another in the second, the second is never found. */
  lemma SecondBatchDropped(first: i64, second: i64, st: ColumnStats)
    requires first != second && -TWO53 <= first <= TWO53 && -TWO53 <= second <= TWO53
    requires IsStats(st, [[Some(first)], [Some(second)]])
    ensures HasMatch("=", second, [[Some(first)], [Some(second)]]) && !StatsMightMatch(st, "=", IntLit(second))
  {
    var col: Column<i64> := [[Some(first)], [Some(second)]];
    assert Present(col[0]) == [first];
    CellOfColumn(col, 1, 0);
    assert CellMatches("=", second, Some(second));
    BoundsDecode(st, col);
    SmallIsExact(first);
    SmallIsExact(second);
  }

  // ---- Predicate trees ----

  datatype Predicate =
    | And(left: Predicate, right: Predicate)
    | Or(left: Predicate, right: Predicate)
    | Compare(column: string, op: string, value: i64)
    | Other

  /** A micro-partition: its batches of rows and the statistics of each column. */
  datatype Mp = Mp(batches: seq<seq<Row>>, stats: seq<ColumnStats>)

  function Position(columns: seq<string>, name: string): (p: Option<nat>)
    ensures p.Some? ==> p.value < |columns| && columns[p.value] == name
  {
    if columns == [] then None
    else if columns[0] == name then Some(0)
    else match Position(columns[1..], name) case None => None case Some(p) => Some(p + 1)
  }

  predicate MightMatch(mp: Mp, columns: seq<string>, p: Predicate) {
    match p
    case And(l, r) => MightMatch(mp, columns, l) && MightMatch(mp, columns, r)
    case Or(l, r) => MightMatch(mp, columns, l) || MightMatch(mp, columns, r)
    case Compare(column, op, value) =>
      var c := Position(columns, column);
      c.Some? && c.value < |mp.stats| ==> StatsMightMatch(mp.stats[c.value], op, IntLit(value))
    case Other => true
  }

  /** Whether a row satisfies a predicate; a comparison on an unknown column is satisfied. */
  predicate Satisfies(row: Row, columns: seq<string>, p: Predicate) {
    match p
    case And(l, r) => Satisfies(row, columns, l) && Satisfies(row, columns, r)
    case Or(l, r) => Satisfies(row, columns, l) || Satisfies(row, columns, r)
    case Compare(column, op, value) =>
      var c := Position(columns, column);
      c.Some? && c.value < |row| ==> CellMatches(op, value, row[c.value])
    case Other => true
  }

  ghost function ColumnOf(batches: seq<seq<Row>>, c: nat): (col: Column<i64>)
    requires Wide(batches, c)
    ensures |col| == |batches| && forall i :: 0 <= i < |batches| ==> |col[i]| == |batches[i]|
    ensures forall i, j :: 0 <= i < |batches| && 0 <= j < |batches[i]| ==> col[i][j] == batches[i][j][c]
  {
    seq(|batches|, i requires 0 <= i < |batches| =>
      seq(|batches[i]|, j requires 0 <= j < |batches[i]| => batches[i][j][c]))
  }

  ghost predicate Wide(batches: seq<seq<Row>>, c: nat) {
    forall i, j :: 0 <= i < |batches| && 0 <= j < |batches[i]| ==> c < |batches[i][j]|
  }

  /** The micro-partition has the statistics its writer computed. */
  ghost predicate MpOk(mp: Mp, columns: seq<string>) {
    && |mp.stats| == |columns|
    && forall c :: 0 <= c < |columns| ==> Wide(mp.batches, c) && IsStats(mp.stats[c], ColumnOf(mp.batches, c))
  }

  /** Every column the predicate compares meets the condition for its comparison. */
  ghost predicate SafeTree(mp: Mp, columns: seq<string>, p: Predicate)
    requires MpOk(mp, columns)
  {
    match p
    case And(l, r) => SafeTree(mp, columns, l) && SafeTree(mp, columns, r)
    case Or(l, r) => SafeTree(mp, columns, l) && SafeTree(mp, columns, r)
    case Compare(column, op, _) =>
      var c := Position(columns, column);
      c.Some? ==> SafeColumn(op, ColumnOf(mp.batches, c.value))
    case Other => true
  }

  lemma {:induction false} CellOfColumn<V>(col: Column<V>, i: nat, j: nat)
    requires i < |col| && j < |col[i]|
    ensures col[i][j] in AllCells(col)
    decreases i
  {
    if i == 0 {
      assert AllCells(col)[j] == col[0][j];
    } else {
      CellOfColumn(col[1..], i - 1, j);
    }
  }

  /** A micro-partition with a row that satisfies the predicate, however its comparisons are
      combined by AND and OR, is not dropped. */
  lemma {:induction false} MatchIsKept(mp: Mp, columns: seq<string>, p: Predicate, i: nat, j: nat)
    requires MpOk(mp, columns) && SafeTree(mp, columns, p)
    requires i < |mp.batches| && j < |mp.batches[i]| && Satisfies(mp.batches[i][j], columns, p)
    ensures MightMatch(mp, columns, p)
  {
    match p
    case And(l, r) =>
      MatchIsKept(mp, columns, l, i, j);
      MatchIsKept(mp, columns, r, i, j);
    case Or(l, r) =>
      if Satisfies(mp.batches[i][j], columns, l) {
        MatchIsKept(mp, columns, l, i, j);
      } else {
        MatchIsKept(mp, columns, r, i, j);
      }
    case Compare(column, op, value) =>
      var c := Position(columns, column);
      if c.Some? {
        var col := ColumnOf(mp.batches, c.value);
        NeverDropsIffSafe(op, col, mp.stats[c.value]);
        CellOfColumn(col, i, j);
        assert HasMatch(op, value, col);
      }
    case Other =>
  }

  // ---- SELECT ----

  /** The rows of a batch that satisfy the predicate, in order. */
  ghost function Kept(batch: seq<Row>, columns: seq<string>, p: Predicate): seq<Row> {
    if batch == [] then []
    else
      var n := |batch| - 1;
      Kept(batch[..n], columns, p) + if Satisfies(batch[n], columns, p) then [batch[n]] else []
  }

  ghost function KeptIn(batches: seq<seq<Row>>, columns: seq<string>, p: Predicate): seq<Row> {
    if batches == [] then []
    else KeptIn(batches[..|batches| - 1], columns, p) + Kept(batches[|batches| - 1], columns, p)
  }

  /** The plain scan: every row of every micro-partition that satisfies the predicate. */
  ghost function Scan(mps: seq<Mp>, columns: seq<string>, p: Predicate): seq<Row> {
    if mps == [] then []
    else Scan(mps[..|mps| - 1], columns, p) + KeptIn(mps[|mps| - 1].batches, columns, p)
  }

  lemma {:induction false} NothingKept(batch: seq<Row>, columns: seq<string>, p: Predicate)
    requires forall j :: 0 <= j < |batch| ==> !Satisfies(batch[j], columns, p)
    ensures Kept(batch, columns, p) == []
    decreases |batch|
  {
    if batch != [] {
      NothingKept(batch[..|batch| - 1], columns, p);
    }
  }

  lemma {:induction false} NothingKeptIn(batches: seq<seq<Row>>, columns: seq<string>, p: Predicate)
    requires forall i, j :: 0 <= i < |batches| && 0 <= j < |batches[i]| ==> !Satisfies(batches[i][j], columns, p)
    ensures KeptIn(batches, columns, p) == []
    decreases |batches|
  {
    if batches != [] {
      NothingKeptIn(batches[..|batches| - 1], columns, p);
      NothingKept(batches[|batches| - 1], columns, p);
    }
  }

  /** A dropped micro-partition has no row to contribute. */
  lemma DroppedIsEmpty(mp: Mp, columns: seq<string>, p: Predicate)
    requires MpOk(mp, columns) && SafeTree(mp, columns, p) && !MightMatch(mp, columns, p)
    ensures KeptIn(mp.batches, columns, p) == []
  {
    forall i, j | 0 <= i < |mp.batches| && 0 <= j < |mp.batches[i]|
      ensures !Satisfies(mp.batches[i][j], columns, p)
    {
      if Satisfies(mp.batches[i][j], columns, p) {
        MatchIsKept(mp, columns, p, i, j);
      }
    }
    NothingKeptIn(mp.batches, columns, p);
  }

  /** The rows of the micro-partitions the pruner keeps. */
  ghost function PrunedScan(mps: seq<Mp>, columns: seq<string>, p: Predicate): seq<Row> {
    if mps == [] then []
    else
      var n := |mps| - 1;
      PrunedScan(mps[..n], columns, p) +
      if MightMatch(mps[n], columns, p) then KeptIn(mps[n].batches, columns, p) else []
  }

  ghost predicate AllOk(mps: seq<Mp>, columns: seq<string>) {
    forall k :: 0 <= k < |mps| ==> MpOk(mps[k], columns)
  }

  ghost predicate AllSafe(mps: seq<Mp>, columns: seq<string>, p: Predicate)
    requires AllOk(mps, columns)
  {
    forall k :: 0 <= k < |mps| ==> SafeTree(mps[k], columns, p)
  }

  lemma {:induction false} PruningKeepsRows(mps: seq<Mp>, columns: seq<string>, p: Predicate)
    requires AllOk(mps, columns) && AllSafe(mps, columns, p)
    ensures PrunedScan(mps, columns, p) == Scan(mps, columns, p)
    decreases |mps|
  {
    if mps != [] {
      var n := |mps| - 1;
      PruningKeepsRows(mps[..n], columns, p);
      if !MightMatch(mps[n], columns, p) {
        DroppedIsEmpty(mps[n], columns, p);
      }
    }
  }

  /** A dropped micro-partition's rows are missing. */
  lemma {:induction false} DroppedIsMissing(mps: seq<Mp>, columns: seq<string>, p: Predicate, k: nat)
    requires k < |mps| && !MightMatch(mps[k], columns, p)
    ensures |PrunedScan(mps, columns, p)| + |KeptIn(mps[k].batches, columns, p)| <= |Scan(mps, columns, p)|
    decreases |mps|
  {
    var n := |mps| - 1;
    if k < n {
      DroppedIsMissing(mps[..n], columns, p, k);
    } else {
      PrunedIsShorter(mps[..n], columns, p);
    }
  }

  lemma {:induction false} PrunedIsShorter(mps: seq<Mp>, columns: seq<string>, p: Predicate)
    ensures |PrunedScan(mps, columns, p)| <= |Scan(mps, columns, p)|
    decreases |mps|
  {
    if mps != [] {
      PrunedIsShorter(mps[..|mps| - 1], columns, p);
    }
  }

  lemma {:induction false} SatisfyingIsKept(batch: seq<Row>, columns: seq<string>, p: Predicate, j: nat)
    requires j < |batch| && Satisfies(batch[j], columns, p)
    ensures Kept(batch, columns, p) != []
    decreases |batch|
  {
    if j < |batch| - 1 {
      SatisfyingIsKept(batch[..|batch| - 1], columns, p, j);
    }
  }

  lemma {:induction false} SatisfyingIsKeptIn(batches: seq<seq<Row>>, columns: seq<string>, p: Predicate,
                                              i: nat, j: nat)
    requires i < |batches| && j < |batches[i]| && Satisfies(batches[i][j], columns, p)
    ensures KeptIn(batches, columns, p) != []
    decreases |batches|
  {
    if i < |batches| - 1 {
      SatisfyingIsKeptIn(batches[..|batches| - 1], columns, p, i, j);
    } else {
      SatisfyingIsKept(batches[i], columns, p, j);
    }
  }

  lemma {:induction false} CellAt<V>(col: Column<V>, cell: Option<V>) returns (i: nat, j: nat)
    requires cell in AllCells(col)
    ensures i < |col| && j < |col[i]| && col[i][j] == cell
    decreases |col|
  {
    if cell in col[0] {
      i := 0;
      j :| 0 <= j < |col[0]| && col[0][j] == cell;
    } else {
      i, j := CellAt(col[1..], cell);
      i := i + 1;
    }
  }

  /** A column that does not meet the condition has a comparison with a lost row. */
  lemma UnsafeLosesRow(mp: Mp, columns: seq<string>, column: string, op: string) returns (v: i64)
    requires MpOk(mp, columns) && Position(columns, column).Some?
    requires !SafeColumn(op, ColumnOf(mp.batches, Position(columns, column).value))
    ensures !MightMatch(mp, columns, Compare(column, op, v))
    ensures KeptIn(mp.batches, columns, Compare(column, op, v)) != []
  {
    var c := Position(columns, column).value;
    var col := ColumnOf(mp.batches, c);
    NeverDropsIffSafe(op, col, mp.stats[c]);
    v :| HasMatch(op, v, col) && !StatsMightMatch(mp.stats[c], op, IntLit(v));
    var cell :| cell in AllCells(col) && CellMatches(op, v, cell);
    var i, j := CellAt(col, cell);
    SatisfyingIsKeptIn(mp.batches, columns, Compare(column, op, v), i, j);
  }

  /** For a filter that is one comparison: pruning returns the rows of the plain scan, whatever
      the literal. */
  ghost predicate PrunesExactly(mps: seq<Mp>, columns: seq<string>, column: string, op: string) {
    forall v: i64 :: SameRows(mps, columns, Compare(column, op, v))
  }

  ghost predicate SameRows(mps: seq<Mp>, columns: seq<string>, p: Predicate) {
    PrunedScan(mps, columns, p) == Scan(mps, columns, p)
  }

  ghost predicate SafeIn(mp: Mp, columns: seq<string>, c: nat, op: string)
    requires MpOk(mp, columns) && c < |columns|
  {
    SafeColumn(op, ColumnOf(mp.batches, c))
  }

  /** It does if and only if the compared column meets the condition in every
      micro-partition. */
  lemma PrunesExactlyIff(mps: seq<Mp>, columns: seq<string>, column: string, op: string, c: nat)
    requires AllOk(mps, columns) && Position(columns, column) == Some(c)
    ensures PrunesExactly(mps, columns, column, op) <==> forall k :: 0 <= k < |mps| ==> SafeIn(mps[k], columns, c, op)
  {
    if forall k :: 0 <= k < |mps| ==> SafeIn(mps[k], columns, c, op) {
      forall v: i64
        ensures SameRows(mps, columns, Compare(column, op, v))
      {
        assert forall k :: 0 <= k < |mps| ==> SafeTree(mps[k], columns, Compare(column, op, v)) by {
          assert forall k :: 0 <= k < |mps| ==> SafeIn(mps[k], columns, c, op);
        }
        PruningKeepsRows(mps, columns, Compare(column, op, v));
      }
    } else {
      var k :| 0 <= k < |mps| && !SafeIn(mps[k], columns, c, op);
      var v := UnsafeLosesRow(mps[k], columns, column, op);
      DroppedIsMissing(mps, columns, Compare(column, op, v), k);
      assert !SameRows(mps, columns, Compare(column, op, v));
    }
  }

  predicate SmallRow(row: Row) {
    forall c :: 0 <= c < |row| && row[c].Some? ==> -TWO53 < row[c].value < TWO53
  }

  /** One batch at most, and all values of magnitude below 2^53. */
  ghost predicate SmallSingleBatch(mp: Mp) {
    && |mp.batches| <= 1
    && (mp.batches != [] ==> forall j :: 0 <= j < |mp.batches[0]| ==> SmallRow(mp.batches[0][j]))
  }

  lemma {:induction false} SmallSingleBatchIsSafe(mp: Mp, columns: seq<string>, p: Predicate)
    requires MpOk(mp, columns) && SmallSingleBatch(mp)
    ensures SafeTree(mp, columns, p)
  {
    match p
    case And(l, r) =>
      SmallSingleBatchIsSafe(mp, columns, l);
      SmallSingleBatchIsSafe(mp, columns, r);
    case Or(l, r) =>
      SmallSingleBatchIsSafe(mp, columns, l);
      SmallSingleBatchIsSafe(mp, columns, r);
    case Compare(column, op, _) =>
      var c := Position(columns, column);
      if c.Some? && mp.batches != [] {
        var col := ColumnOf(mp.batches, c.value);
        assert col == [col[0]];
        forall v | v in Present(col[0])
          ensures -TWO53 < v < TWO53
        {
          var j :| 0 <= j < |col[0]| && col[0][j] == Some(v);
          assert SmallRow(mp.batches[0][j]) && mp.batches[0][j][c.value] == Some(v);
        }
        SingleBatchIsSafe(op, col[0]);
      }
    case Other =>
  }

  /** With one batch per micro-partition and values of magnitude below 2^53, pruning returns the
      rows of the plain scan, whatever the filter. */
  lemma SingleBatchesPruneExactly(mps: seq<Mp>, columns: seq<string>, p: Predicate)
    requires AllOk(mps, columns) && forall k :: 0 <= k < |mps| ==> SmallSingleBatch(mps[k])
    ensures PrunedScan(mps, columns, p) == Scan(mps, columns, p)
  {
    forall k | 0 <= k < |mps|
      ensures SafeTree(mps[k], columns, p)
    {
      SmallSingleBatchIsSafe(mps[k], columns, p);
    }
    PruningKeepsRows(mps, columns, p);
  }

  lemma PrunedSnoc(mps: seq<Mp>, columns: seq<string>, p: Predicate, k: nat)
    requires k < |mps|
    ensures PrunedScan(mps[..k + 1], columns, p) == PrunedScan(mps[..k], columns, p) +
            if MightMatch(mps[k], columns, p) then KeptIn(mps[k].batches, columns, p) else []
  {
    assert mps[..k + 1][..k] == mps[..k];
  }

  /** SELECT with pruning scans only what the pruner kept. Where the compared columns meet the
      condition it returns the same rows in the same order as the plain scan. */
  method Select(mps: seq<Mp>, columns: seq<string>, p: Predicate) returns (rows: seq<Row>)
    requires AllOk(mps, columns)
    ensures rows == PrunedScan(mps, columns, p)
    ensures AllSafe(mps, columns, p) ==> rows == Scan(mps, columns, p)
  {
    rows := [];
    for k := 0 to |mps|
      invariant rows == PrunedScan(mps[..k], columns, p)
    {
      PrunedSnoc(mps, columns, p, k);
      if MightMatch(mps[k], columns, p) {
        var more := ScanBatches(mps[k].batches, columns, p);
        rows := rows + more;
      }
    }
    assert mps[..|mps|] == mps;
    if AllSafe(mps, columns, p) {
      PruningKeepsRows(mps, columns, p);
    }
  }

  method ScanBatches(batches: seq<seq<Row>>, columns: seq<string>, p: Predicate) returns (rows: seq<Row>)
    ensures rows == KeptIn(batches, columns, p)
  {
    rows := [];
    for i := 0 to |batches|
      invariant rows == KeptIn(batches[..i], columns, p)
    {
      var batch := batches[i];
      ghost var before := rows;
      for j := 0 to |batch|
        invariant rows == before + Kept(batch[..j], columns, p)
      {
        assert batch[..j + 1][..j] == batch[..j];
        if Satisfies(batch[j], columns, p) {
          rows := rows + [batch[j]];
        }
      }
      assert batch[..|batch|] == batch && batches[..i + 1][..i] == batches[..i];
    }
    assert batches[..|batches|] == batches;
  }
}
