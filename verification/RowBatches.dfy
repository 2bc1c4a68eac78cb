/**
 Record batches as the storage layer holds them, column by column, and the three loops that
 UPDATE and DELETE run over them: evaluating the filter, overwriting assigned columns and
 dropping matched rows. Each loop is tied to what it does to the rows.
*/
module RowBatches {
  import opened Wrappers

  /** Floating-point cells are modelled as reals; values of other types are opaque. */
  datatype Value = Null | Int(i: int) | Float(f: real) | Str(s: string) | Opaque(o: int)

  datatype DataType = Int64 | Float64 | Utf8 | OtherType

  datatype Field = Field(name: string, dtype: DataType)

  datatype Literal = LitInt(i: int) | LitFloat(f: real) | LitStr(s: string) | LitBool(b: bool) | LitNull

  datatype Filter = Filter(column: string, op: string, value: Literal)

  datatype Assignment = Assignment(column: string, value: Literal)

  datatype Error = ColumnNotFound(name: string)

  type Schema = seq<Field>
  type Row = seq<Value>
  type Column = seq<Value>

  datatype Batch = Batch(columns: seq<Column>, size: nat)

  predicate Shaped(schema: Schema, b: Batch) {
    |b.columns| == |schema| && forall c :: 0 <= c < |schema| ==> |b.columns[c]| == b.size
  }

  function RowAt(b: Batch, i: nat): (row: Row)
    requires i < b.size && forall c :: 0 <= c < |b.columns| ==> |b.columns[c]| == b.size
    ensures |row| == |b.columns|
  {
    seq(|b.columns|, c requires 0 <= c < |b.columns| => b.columns[c][i])
  }

  function Rows(schema: Schema, b: Batch): (rows: seq<Row>)
    requires Shaped(schema, b)
    ensures |rows| == b.size && forall i :: 0 <= i < |rows| ==> |rows[i]| == |schema|
  {
    seq(b.size, i requires 0 <= i < b.size => RowAt(b, i))
  }

  // ---- Filters ----

  /** The value an array slot yields when read without looking at its validity bit: a NULL slot
      holds the type's default. */
  function RawInt(v: Value): int { if v.Int? then v.i else 0 }

  function RawFloat(v: Value): real { if v.Float? then v.f else 0.0 }

  function RawStr(v: Value): string { if v.Str? then v.s else "" }

  predicate CompareInt(op: string, a: int, b: int) {
    if op == "=" then a == b else if op == "!=" then a != b
    else if op == ">" then a > b else if op == ">=" then a >= b
    else if op == "<" then a < b else op == "<=" && a <= b
  }

  predicate CompareFloat(op: string, a: real, b: real) {
    if op == "=" then a == b else if op == "!=" then a != b
    else if op == ">" then a > b else if op == ">=" then a >= b
    else if op == "<" then a < b else op == "<=" && a <= b
  }

  predicate CompareStr(op: string, a: string, b: string) {
    if op == "=" then a == b else op == "!=" && a != b
  }

  predicate CellMatches(dtype: DataType, f: Filter, v: Value) {
    match dtype
    case Int64 => CompareInt(f.op, RawInt(v), if f.value.LitInt? then f.value.i else 0)
    case Float64 => CompareFloat(f.op, RawFloat(v), if f.value.LitFloat? then f.value.f else 0.0)
    case Utf8 => CompareStr(f.op, RawStr(v), if f.value.LitStr? then f.value.s else "")
    case OtherType => false
  }

  /** The first column of that name. */
  function Position(schema: Schema, name: string): (p: Option<nat>)
    ensures p.Some? ==> p.value < |schema| && schema[p.value].name == name
    ensures p.None? ==> forall c :: 0 <= c < |schema| ==> schema[c].name != name
  {
    if schema == [] then None
    else if schema[0].name == name then Some(0)
    else match Position(schema[1..], name) case None => None case Some(p) => Some(p + 1)
  }

  predicate Resolves(schema: Schema, f: Option<Filter>) {
    f.Some? ==> Position(schema, f.value.column).Some?
  }

  /** Whether a statement with this filter touches the row; no filter touches every row. */
  predicate Matches(schema: Schema, f: Option<Filter>, row: Row)
    requires Resolves(schema, f) && |row| == |schema|
  {
    f.Some? ==> var c := Position(schema, f.value.column).value; CellMatches(schema[c].dtype, f.value, row[c])
  }

  ghost predicate MaskOf(schema: Schema, f: Option<Filter>, rows: seq<Row>, mask: seq<bool>)
    requires Resolves(schema, f)
  {
    |mask| == |rows| &&
    forall i :: 0 <= i < |rows| ==> |rows[i]| == |schema| && mask[i] == Matches(schema, f, rows[i])
  }

  /** Marks the rows a filter matches, or fails when the filter's column does not exist. */
  method EvalFilter(schema: Schema, b: Batch, f: Option<Filter>) returns (r: Result<seq<bool>, Error>)
    requires Shaped(schema, b)
    ensures r.Ok? <==> Resolves(schema, f)
    ensures r.Ok? ==> MaskOf(schema, f, Rows(schema, b), r.value)
    ensures r.Err? ==> f.Some? && r.error == ColumnNotFound(f.value.column)
  {
    if f.None? {
      return Ok(seq(b.size, _ => true));
    }
    var p := Position(schema, f.value.column);
    if p.None? {
      return Err(ColumnNotFound(f.value.column));
    }
    var column, dtype := b.columns[p.value], schema[p.value].dtype;
    var mask := seq(b.size, _ => false);
    for i := 0 to b.size
      invariant |mask| == b.size
      invariant forall j :: 0 <= j < i ==> mask[j] == CellMatches(dtype, f.value, column[j])
    {
      mask := mask[i := CellMatches(dtype, f.value, column[i])];
    }
    return Ok(mask);
  }

  // ---- Assignments ----

  /** The first assignment to a column. */
  function FindAssignment(asg: seq<Assignment>, name: string): Option<Literal> {
    if asg == [] then None
    else if asg[0].column == name then Some(asg[0].value)
    else FindAssignment(asg[1..], name)
  }

  /** What an assignment stores in a column of the given type. */
  function Stored(dtype: DataType, e: Literal, v: Value): Value {
    match dtype
    case Int64 => Int(if e.LitInt? then e.i else 0)
    case Float64 => Float(if e.LitFloat? then e.f else 0.0)
    case Utf8 => Str(if e.LitStr? then e.s else "")
    case OtherType => v
  }

  /** What rebuilding an assigned column makes of a cell outside the filter. */
  function Rebuilt(dtype: DataType, v: Value): Value {
    match dtype
    case Int64 => if v == Null then Int(0) else v
    case Float64 => if v == Null then Float(0.0) else v
    case _ => v
  }

  function UpdatedCell(field: Field, asg: seq<Assignment>, v: Value, matched: bool): Value {
    match FindAssignment(asg, field.name)
    case None => v
    case Some(e) => if matched then Stored(field.dtype, e, v) else Rebuilt(field.dtype, v)
  }

  function UpdatedRow(schema: Schema, asg: seq<Assignment>, row: Row, matched: bool): (row': Row)
    requires |row| == |schema|
    ensures |row'| == |row|
  {
    seq(|row|, c requires 0 <= c < |row| => UpdatedCell(schema[c], asg, row[c], matched))
  }

  method UpdateColumn(dtype: DataType, e: Literal, col: Column, mask: seq<bool>) returns (out: Column)
    requires |mask| == |col|
    ensures |out| == |col|
    ensures forall i :: 0 <= i < |col| ==>
              out[i] == if mask[i] then Stored(dtype, e, col[i]) else Rebuilt(dtype, col[i])
  {
    if dtype == OtherType {
      return col;
    }
    out := seq(|col|, i requires 0 <= i < |col| => Rebuilt(dtype, col[i]));
    for i := 0 to |mask|
      invariant |out| == |col|
      invariant forall j :: 0 <= j < i ==>
                  out[j] == if mask[j] then Stored(dtype, e, col[j]) else Rebuilt(dtype, col[j])
      invariant forall j :: i <= j < |col| ==> out[j] == Rebuilt(dtype, col[j])
    {
      if mask[i] {
        out := out[i := Stored(dtype, e, col[i])];
      }
    }
  }

  /** Rebuilds the batch column by column; row by row this is UpdatedRow. */
  method ApplyUpdate(schema: Schema, b: Batch, asg: seq<Assignment>, mask: seq<bool>) returns (b': Batch)
    requires Shaped(schema, b) && |mask| == b.size
    ensures Shaped(schema, b') && b'.size == b.size
    ensures forall i :: 0 <= i < b.size ==> Rows(schema, b')[i] == UpdatedRow(schema, asg, Rows(schema, b)[i], mask[i])
  {
    var columns: seq<Column> := [];
    for c := 0 to |schema|
      invariant |columns| == c
      invariant forall d :: 0 <= d < c ==> |columns[d]| == b.size
      invariant forall d, i :: 0 <= d < c && 0 <= i < b.size ==>
        columns[d][i] == UpdatedCell(schema[d], asg, b.columns[d][i], mask[i])
    {
      var found := FindAssignment(asg, schema[c].name);
      var column := b.columns[c];
      if found.Some? {
        column := UpdateColumn(schema[c].dtype, found.value, b.columns[c], mask);
      }
      columns := columns + [column];
    }
    b' := Batch(columns, b.size);
    forall i | 0 <= i < b.size
      ensures Rows(schema, b')[i] == UpdatedRow(schema, asg, Rows(schema, b)[i], mask[i])
    {
      assert Rows(schema, b)[i] == RowAt(b, i) && Rows(schema, b')[i] == RowAt(b', i);
    }
  }

  // ---- Keeping and dropping rows ----

  /** The rows the mask marks, in order. */
  function Selected<T>(rows: seq<T>, mask: seq<bool>): (out: seq<T>)
    requires |mask| == |rows|
  {
    if rows == [] then [] else (if mask[0] then [rows[0]] else []) + Selected(rows[1..], mask[1..])
  }

  function Inverted(mask: seq<bool>): (out: seq<bool>)
    ensures |out| == |mask| && forall i :: 0 <= i < |mask| ==> out[i] == !mask[i]
  {
    seq(|mask|, i requires 0 <= i < |mask| => !mask[i])
  }

  lemma {:induction false} SelectedAppend<T>(rows: seq<T>, mask: seq<bool>, row: T, m: bool)
    requires |mask| == |rows|
    ensures Selected(rows + [row], mask + [m]) == Selected(rows, mask) + (if m then [row] else [])
  {
    if rows != [] {
      SelectedAppend(rows[1..], mask[1..], row, m);
      assert (rows + [row])[1..] == rows[1..] + [row] && (mask + [m])[1..] == mask[1..] + [m];
    }
  }

  /** Takes the marked rows of every column. */
  method TakeRows(schema: Schema, b: Batch, mask: seq<bool>) returns (b': Batch)
    requires Shaped(schema, b) && |mask| == b.size
    ensures Shaped(schema, b') && Rows(schema, b') == Selected(Rows(schema, b), mask)
  {
    var indices: seq<nat> := [];
    for i := 0 to b.size
      invariant forall k :: 0 <= k < |indices| ==> indices[k] < i
      invariant Picked(schema, b, indices) == Selected(Rows(schema, b)[..i], mask[..i])
    {
      SelectedAppend(Rows(schema, b)[..i], mask[..i], Rows(schema, b)[i], mask[i]);
      assert Rows(schema, b)[..i + 1] == Rows(schema, b)[..i] + [Rows(schema, b)[i]];
      assert mask[..i + 1] == mask[..i] + [mask[i]];
      if mask[i] {
        assert Picked(schema, b, indices + [i]) == Picked(schema, b, indices) + [RowAt(b, i)];
        indices := indices + [i];
      }
    }
    assert Rows(schema, b)[..b.size] == Rows(schema, b) && mask[..b.size] == mask;
    b' := Batch(seq(|schema|, c requires 0 <= c < |schema| =>
                  seq(|indices|, k requires 0 <= k < |indices| => b.columns[c][indices[k]])), |indices|);
    forall k | 0 <= k < |indices|
      ensures Rows(schema, b')[k] == Picked(schema, b, indices)[k]
    {
      assert forall c :: 0 <= c < |schema| ==> RowAt(b', k)[c] == RowAt(b, indices[k])[c];
    }
  }

  ghost function Picked(schema: Schema, b: Batch, indices: seq<nat>): (rows: seq<Row>)
    requires Shaped(schema, b) && forall k :: 0 <= k < |indices| ==> indices[k] < b.size
  {
    seq(|indices|, k requires 0 <= k < |indices| => RowAt(b, indices[k]))
  }
}
