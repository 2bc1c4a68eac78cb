/**
 Zone-map pruning over string columns. The pruner reads a bound as a number by its length and
 the literal as zero, so its answer does not depend on the literal at all; this module says
 exactly when that loses no matching row. A string is the sequence of its UTF-8 bytes.
*/
module TextZoneMaps {
  import opened Wrappers
  import opened Bytes
  import opened Doubles
  import opened ZoneMaps

  type Text = seq<nat>

  /** What the scan compares for a null cell. */
  const NULL_TEXT: Text := [0x4e, 0x55, 0x4c, 0x4c]

  // ---- Statistics ----

  ghost predicate IsLeastText(m: Text, vals: seq<Text>) {
    m in vals && forall v :: v in vals ==> !Less(v, m)
  }

  ghost predicate IsGreatestText(m: Text, vals: seq<Text>) {
    m in vals && forall v :: v in vals ==> !Less(m, v)
  }

  lemma {:induction false} NotLessTransitive(a: Text, b: Text, c: Text)
    requires !Less(b, a) && !Less(c, b)
    ensures !Less(c, a)
    decreases |a|
  {
    if a != [] && b != [] && c != [] && a[0] == b[0] == c[0] {
      NotLessTransitive(a[1..], b[1..], c[1..]);
    }
  }

  lemma {:induction false} NotLessItself(a: Text)
    ensures !Less(a, a)
    decreases |a|
  {
    if a != [] {
      NotLessItself(a[1..]);
    }
  }

  /** Bounds of one batch. */
  method TextBounds(vals: seq<Text>) returns (lo: Text, hi: Text)
    requires vals != []
    ensures IsLeastText(lo, vals) && IsGreatestText(hi, vals)
  {
    lo, hi := vals[0], vals[0];
    NotLessItself(vals[0]);
    for i := 1 to |vals|
      invariant IsLeastText(lo, vals[..i]) && IsGreatestText(hi, vals[..i])
    {
      NextBound(vals, i, lo, hi);
      if Less(vals[i], lo) {
        lo := vals[i];
      }
      if Less(hi, vals[i]) {
        hi := vals[i];
      }
    }
    assert vals[..|vals|] == vals;
  }

  lemma NextBound(vals: seq<Text>, i: nat, lo: Text, hi: Text)
    requires i < |vals| && IsLeastText(lo, vals[..i]) && IsGreatestText(hi, vals[..i])
    ensures IsLeastText(if Less(vals[i], lo) then vals[i] else lo, vals[..i + 1])
    ensures IsGreatestText(if Less(hi, vals[i]) then vals[i] else hi, vals[..i + 1])
  {
    var x := vals[i];
    assert vals[..i + 1] == vals[..i] + [x];
    NotLessItself(x);
    if Less(x, lo) {
      Asymmetric(x, lo);
    }
    if Less(hi, x) {
      Asymmetric(hi, x);
    }
    forall v | v in vals[..i]
      ensures Less(x, lo) ==> !Less(v, x)
      ensures Less(hi, x) ==> !Less(x, v)
    {
      if Less(x, lo) {
        NotLessTransitive(x, lo, v);
      }
      if Less(hi, x) {
        NotLessTransitive(v, hi, x);
      }
    }
  }

  /** The statistics hold the bounds of the first batch with data. */
  ghost predicate IsTextStats(st: ColumnStats, col: Column<Text>) {
    && st.nulls == NullCount(col)
    && (FirstValues(col) == [] ==> st.min.None? && st.max.None?)
    && (FirstValues(col) != [] ==> st.min.Some? && IsLeastText(st.min.value, FirstValues(col))
                                   && st.max.Some? && IsGreatestText(st.max.value, FirstValues(col)))
  }

  method ComputeTextStats(col: Column<Text>) returns (st: ColumnStats)
    ensures IsTextStats(st, col)
  {
    var min: Option<Text>, max: Option<Text>, nulls: nat := None, None, 0;
    for i := 0 to |col|
      invariant nulls + NullCount(col[i..]) == NullCount(col)
      invariant min.Some? <==> max.Some?
      invariant min.None? ==> FirstValues(col[i..]) == FirstValues(col)
      invariant min.Some? ==> FirstValues(col) != [] && IsLeastText(min.value, FirstValues(col))
                              && IsGreatestText(max.value, FirstValues(col))
    {
      var vals := Present(col[i]);
      assert col[i..][1..] == col[i + 1..];
      nulls := nulls + (|col[i]| - |vals|);
      if min.None? && vals != [] {
        var lo, hi := TextBounds(vals);
        min, max := Some(lo), Some(hi);
      }
    }
    return ColumnStats(min, max, nulls);
  }

  // ---- Matches ----

  function Shown(cell: Option<Text>): Text {
    if cell.Some? then cell.value else NULL_TEXT
  }

  /** Whether the scan keeps a row for a comparison with a string. A null is compared as the text
      shown for it, and an unknown operator is satisfied by everything. */
  predicate TextMatches(op: string, lit: Text, cell: Option<Text>) {
    if op == "=" then Shown(cell) == lit
    else if op == "!=" then Shown(cell) != lit
    else if op == ">" then Less(lit, Shown(cell))
    else if op == "<" then Less(Shown(cell), lit)
    else if op == ">=" then !Less(Shown(cell), lit)
    else if op == "<=" then !Less(lit, Shown(cell))
    else true
  }

  ghost predicate HasTextMatch(op: string, lit: Text, col: Column<Text>) {
    exists cell :: cell in AllCells(col) && TextMatches(op, lit, cell)
  }

  /** No string lets the pruner drop this column while a row of it matches. */
  ghost predicate NeverDropsText(op: string, col: Column<Text>, st: ColumnStats) {
    forall lit: Text :: HasTextMatch(op, lit, col) ==> StatsMightMatch(st, op, StrLit(lit))
  }

  // ---- When it is right ----

  /** The condition on the bounds of the first batch with data: one of them has a length that is
      not read as a number, or their numbers lie around zero as the operator wants them. */
  predicate SafeText(op: string, lo: Text, hi: Text) {
    var min, max := DecodeBound(lo), DecodeBound(hi);
    if min.None? || max.None? then true
    else if op == "=" then min.value <= 0 <= max.value
    else if op == ">" then max.value > 0
    else if op == ">=" then max.value >= 0
    else if op == "<" then min.value < 0
    else if op == "<=" then min.value <= 0
    else true
  }

  lemma {:induction false} LessLonger(a: Text, x: nat)
    ensures Less(a, a + [x])
    decreases |a|
  {
    if a != [] {
      assert (a + [x])[1..] == a[1..] + [x];
      LessLonger(a[1..], x);
    }
  }

  /** A string some row matches, where the greatest value is not empty. */
  lemma SomeMatch(op: string, col: Column<Text>, hi: Text) returns (lit: Text)
    requires hi != [] && Some(hi) in AllCells(col)
    ensures op in {"=", ">", ">=", "<", "<="} ==> HasTextMatch(op, lit, col)
  {
    lit := if op == ">" then [] else if op == "<" then hi + [0x61] else hi;
    LessLonger(hi, 0x61);
    NotLessItself(hi);
    assert op in {"=", ">", ">=", "<", "<="} ==> TextMatches(op, lit, Some(hi));
  }

  /** The pruner keeps every string column with a match, whatever the literal, if and only if
      the column has no value or its bounds meet the condition. */
  lemma NeverDropsTextIff(op: string, col: Column<Text>, st: ColumnStats)
    requires IsTextStats(st, col)
    ensures NeverDropsText(op, col, st) <==>
            (FirstValues(col) == [] || SafeText(op, st.min.value, st.max.value))
  {
    if FirstValues(col) != [] && !SafeText(op, st.min.value, st.max.value) {
      FirstAreCells(col);
      var lit := SomeMatch(op, col, st.max.value);
      assert HasTextMatch(op, lit, col) && !StatsMightMatch(st, op, StrLit(lit));
    }
  }

  // ---- What is lost ----

  /** Every byte is an ASCII character. */
  predicate Ascii(s: Text) {
    forall i :: 0 <= i < |s| ==> 0 < s[i] < 128
  }

  lemma {:induction false} AsciiIsPositive(s: Text)
    requires Ascii(s) && s != []
    ensures 0 < FromBytes(s) && 2 * FromBytes(s) < Pow256(|s|)
    decreases |s|
  {
    if |s| == 1 {
      assert FromBytes(s) == s[0] + 256 * FromBytes([]);
      assert Pow256(1) == 256 * Pow256(0);
    } else {
      AsciiIsPositive(s[1..]);
    }
  }

  /** So a column whose only value is an ASCII string of 1, 2, 4 or 8 characters is dropped for
      the filter that asks for that very string: "ab" is one. */
  lemma AsciiValueDropped(s: Text, st: ColumnStats)
    requires Ascii(s) && |s| in {1, 2, 4, 8} && IsTextStats(st, [[Some(s)]])
    ensures HasTextMatch("=", s, [[Some(s)]]) && !StatsMightMatch(st, "=", StrLit(s))
  {
    var col := [[Some(s)]];
    assert Present(col[0]) == [s];
    assert Some(s) in AllCells(col) && TextMatches("=", s, Some(s));
    AsciiIsPositive(s);
    SmallIsExact(1);
    DoubleGrows(1, SignedFromBytes(s));
    assert s == [s[0]] + s[1..];
    assert |s| == 1 ==> s[0] > 0;
  }

  lemma AbDropped(st: ColumnStats)
    requires IsTextStats(st, [[Some([0x61, 0x62])]])
    ensures HasTextMatch("=", [0x61, 0x62], [[Some([0x61, 0x62])]])
    ensures !StatsMightMatch(st, "=", StrLit([0x61, 0x62]))
  {
    AsciiValueDropped([0x61, 0x62], st);
  }
}
