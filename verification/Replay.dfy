/**
 Change rows and what replaying them does to a multiset of rows.
*/
module Replay {
  import opened RowBatches

  datatype ChangeAction = InsertRow | DeleteRow

  datatype RowId = RowId(partition: nat, ordinal: nat)

  /** A change row without its sequence number. */
  datatype Change<R> = Change(action: ChangeAction, isUpdate: bool, id: RowId, row: R)

  ghost function ReplayOne<R>(m: multiset<R>, c: Change<R>): multiset<R> {
    match c.action
    case InsertRow => m + multiset{c.row}
    case DeleteRow => m - multiset{c.row}
  }

  ghost function ReplayAll<R>(m: multiset<R>, cs: seq<Change<R>>): multiset<R>
    decreases |cs|
  {
    if cs == [] then m else ReplayAll(ReplayOne(m, cs[0]), cs[1..])
  }

  /** Every DELETE finds its row. */
  ghost predicate Applies<R>(m: multiset<R>, cs: seq<Change<R>>)
    decreases |cs|
  {
    cs == [] || ((cs[0].action == DeleteRow ==> cs[0].row in m) && Applies(ReplayOne(m, cs[0]), cs[1..]))
  }

  lemma {:induction false} ReplayConcat<R>(m: multiset<R>, a: seq<Change<R>>, b: seq<Change<R>>)
    ensures ReplayAll(m, a + b) == ReplayAll(ReplayAll(m, a), b)
    decreases |a|
  {
    if a == [] {
      assert a + b == b;
    } else {
      var ab, m1 := a + b, ReplayOne(m, a[0]);
      assert ab[0] == a[0] && ab[1..] == a[1..] + b;
      ReplayConcat(m1, a[1..], b);
      assert ReplayAll(m, a) == ReplayAll(m1, a[1..]);
    }
  }

  lemma {:induction false} AppliesConcat<R>(m: multiset<R>, a: seq<Change<R>>, b: seq<Change<R>>)
    ensures Applies(m, a + b) <==> Applies(m, a) && Applies(ReplayAll(m, a), b)
    decreases |a|
  {
    if a == [] {
      assert a + b == b;
    } else {
      var ab, m1 := a + b, ReplayOne(m, a[0]);
      assert ab[0] == a[0] && ab[1..] == a[1..] + b;
      AppliesConcat(m1, a[1..], b);
      assert ReplayAll(m, a) == ReplayAll(m1, a[1..]);
    }
  }

  /** Rows that changes do not mention stay out of their way. */
  lemma {:induction false} ReplayFrame<R>(m: multiset<R>, x: multiset<R>, cs: seq<Change<R>>)
    requires Applies(m, cs)
    ensures Applies(m + x, cs) && ReplayAll(m + x, cs) == ReplayAll(m, cs) + x
    decreases |cs|
  {
    if cs != [] {
      assert ReplayOne(m + x, cs[0]) == ReplayOne(m, cs[0]) + x;
      ReplayFrame(ReplayOne(m, cs[0]), x, cs[1..]);
    }
  }

  lemma Swap<R>(a: multiset<R>, b: multiset<R>)
    ensures a + b == b + a
  {}

  /** Changes to two separate groups of rows replay independently. */
  lemma ReplayTwo<R>(m: multiset<R>, n: multiset<R>, a: seq<Change<R>>, b: seq<Change<R>>)
    requires Applies(m, a) && Applies(n, b)
    ensures Applies(m + n, a + b)
    ensures ReplayAll(m + n, a + b) == ReplayAll(m, a) + ReplayAll(n, b)
  {
    var m', n' := ReplayAll(m, a), ReplayAll(n, b);
    ReplayConcat(m + n, a, b);
    AppliesConcat(m + n, a, b);
    ReplayFrame(m, n, a);
    Swap(m', n);
    ReplayFrame(n, m', b);
    Swap(n', m');
  }

  /** One change per marked row, numbered by position from `base`. */
  function Changes<R>(action: ChangeAction, isUpdate: bool, partition: nat, base: nat, rows: seq<R>,
                      mask: seq<bool>): (cs: seq<Change<R>>)
    requires |mask| == |rows|
    decreases |rows|
  {
    if rows == [] then []
    else (if mask[0] then [Change(action, isUpdate, RowId(partition, base), rows[0])] else [])
         + Changes(action, isUpdate, partition, base + 1, rows[1..], mask[1..])
  }

  lemma {:induction false} SelectedFirst<R>(rows: seq<R>, mask: seq<bool>)
    requires |mask| == |rows| && rows != []
    ensures multiset(Selected(rows, mask))
            == (if mask[0] then multiset{rows[0]} else multiset{}) + multiset(Selected(rows[1..], mask[1..]))
  {
    var rest := Selected(rows[1..], mask[1..]);
    if mask[0] {
      assert Selected(rows, mask) == [rows[0]] + rest;
    } else {
      assert Selected(rows, mask) == rest;
    }
  }

  lemma TakeTwice<R>(m: multiset<R>, x: R, s: multiset<R>)
    requires multiset{x} + s <= m
    ensures x in m && s <= m - multiset{x} && (m - multiset{x}) - s == m - (multiset{x} + s)
  {}

  lemma {:induction false} ReplayDeletes<R>(m: multiset<R>, isUpdate: bool, p: nat, base: nat, rows: seq<R>,
                                            mask: seq<bool>)
    requires |mask| == |rows| && multiset(Selected(rows, mask)) <= m
    ensures var cs := Changes(DeleteRow, isUpdate, p, base, rows, mask);
            Applies(m, cs) && ReplayAll(m, cs) == m - multiset(Selected(rows, mask))
    decreases |rows|
  {
    if rows != [] {
      var rest := Changes(DeleteRow, isUpdate, p, base + 1, rows[1..], mask[1..]);
      SelectedFirst(rows, mask);
      if mask[0] {
        TakeTwice(m, rows[0], multiset(Selected(rows[1..], mask[1..])));
        ReplayDeletes(m - multiset{rows[0]}, isUpdate, p, base + 1, rows[1..], mask[1..]);
      } else {
        ReplayDeletes(m, isUpdate, p, base + 1, rows[1..], mask[1..]);
        assert [] + rest == rest;
      }
    }
  }

  lemma {:induction false} ReplayInserts<R>(m: multiset<R>, isUpdate: bool, p: nat, base: nat, rows: seq<R>,
                                            mask: seq<bool>)
    requires |mask| == |rows|
    ensures var cs := Changes(InsertRow, isUpdate, p, base, rows, mask);
            Applies(m, cs) && ReplayAll(m, cs) == m + multiset(Selected(rows, mask))
    decreases |rows|
  {
    if rows != [] {
      var rest := Changes(InsertRow, isUpdate, p, base + 1, rows[1..], mask[1..]);
      SelectedFirst(rows, mask);
      if mask[0] {
        ReplayInserts(m + multiset{rows[0]}, isUpdate, p, base + 1, rows[1..], mask[1..]);
      } else {
        ReplayInserts(m, isUpdate, p, base + 1, rows[1..], mask[1..]);
        assert [] + rest == rest;
      }
    }
  }

  lemma {:induction false} SelectedSplit<R>(rows: seq<R>, mask: seq<bool>)
    requires |mask| == |rows|
    ensures multiset(rows) == multiset(Selected(rows, mask)) + multiset(Selected(rows, Inverted(mask)))
    decreases |rows|
  {
    if rows != [] {
      var head, rest := multiset{rows[0]}, multiset(rows[1..]);
      var a := multiset(Selected(rows[1..], mask[1..]));
      var b := multiset(Selected(rows[1..], Inverted(mask[1..])));
      assert rest == a + b by {
        SelectedSplit(rows[1..], mask[1..]);
      }
      assert multiset(rows) == head + rest by {
        assert rows == [rows[0]] + rows[1..];
      }
      assert multiset(Selected(rows, mask)) == (if mask[0] then head else multiset{}) + a by {
        SelectedFirst(rows, mask);
      }
      assert multiset(Selected(rows, Inverted(mask))) == (if mask[0] then multiset{} else head) + b by {
        SelectedFirst(rows, Inverted(mask));
        assert Inverted(mask)[1..] == Inverted(mask[1..]);
      }
    }
  }

  /** Each change names the position of its row. */
  lemma {:induction false} ChangesNamePositions<R>(action: ChangeAction, isUpdate: bool, p: nat, base: nat,
                                                   rows: seq<R>, mask: seq<bool>, k: nat)
    requires |mask| == |rows| && k < |Changes(action, isUpdate, p, base, rows, mask)|
    ensures var c := Changes(action, isUpdate, p, base, rows, mask)[k];
            && c.action == action && c.isUpdate == isUpdate && c.id.partition == p
            && base <= c.id.ordinal < base + |rows| && mask[c.id.ordinal - base] && c.row == rows[c.id.ordinal - base]
    decreases |rows|
  {
    var n := if mask[0] then 1 else 0;
    if k >= n {
      ChangesNamePositions(action, isUpdate, p, base + 1, rows[1..], mask[1..], k - n);
    }
  }

  /** Changes over two row lists with the same mask run in parallel. */
  lemma {:induction false} ChangesParallel<R>(a: ChangeAction, b: ChangeAction, isUpdate: bool, p: nat, base: nat,
                                              xs: seq<R>, ys: seq<R>, mask: seq<bool>)
    requires |mask| == |xs| == |ys|
    ensures var cs, ds := Changes(a, isUpdate, p, base, xs, mask), Changes(b, isUpdate, p, base, ys, mask);
            |cs| == |ds| == |Selected(xs, mask)| && forall k :: 0 <= k < |cs| ==> cs[k].id == ds[k].id
    decreases |xs|
  {
    if xs != [] {
      ChangesParallel(a, b, isUpdate, p, base + 1, xs[1..], ys[1..], mask[1..]);
    }
  }
}
