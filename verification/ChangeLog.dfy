/**
 The change log of one table: numbered change records, the contiguity walk that both the
 metadata store (when it commits) and the stream reader (when it reads) perform, and the
 notion of a stretch of sequence numbers that records tile without gap or overlap.
*/
module ChangeLog {

  const U64_MAX: nat := 0xFFFF_FFFF_FFFF_FFFF

  function SatAdd(a: nat, b: nat): nat {
    if a + b > U64_MAX then U64_MAX else a + b
  }

  function SatSub(a: nat, b: nat): nat {
    if a < b then 0 else a - b
  }

  /** A row of a change payload; `sequence` is its METADATA$SEQUENCE column. */
  datatype ChangeRow<D> = ChangeRow(sequence: nat, data: D)

  /** A published change record with the rows of its payload. `commit` says which commit
      of the table published it (commits are numbered 0, 1, 2, ...). */
  datatype Record<D> = Record(sequence: nat, rows: seq<ChangeRow<D>>, commit: nat)

  /** A closed range of sequence numbers. */
  datatype Span = Span(first: nat, last: nat)

  function RecordSpan<D>(r: Record<D>): Span {
    Span(r.sequence, SatSub(SatAdd(r.sequence, |r.rows|), 1))
  }

  function Spans<D>(rs: seq<Record<D>>): (spans: seq<Span>)
    ensures |spans| == |rs|
    ensures forall i :: 0 <= i < |rs| ==> spans[i] == RecordSpan(rs[i])
  {
    seq(|rs|, i requires 0 <= i < |rs| => RecordSpan(rs[i]))
  }

  // ---- The contiguity walk ----

  /** Extends `through` over the spans as long as each one begins no later than `next`. */
  function Walk(next: nat, through: nat, spans: seq<Span>): nat
    decreases |spans|
  {
    if spans == [] then through
    else if spans[0].last < next then Walk(next, through, spans[1..])
    else if spans[0].first > next then through
    else Walk(SatAdd(spans[0].last, 1), spans[0].last, spans[1..])
  }

  /** Where the walk that starts behind `committed` ends. */
  function WalkFrom(committed: nat, spans: seq<Span>): nat {
    Walk(committed + 1, committed, spans)
  }

  ghost predicate Covered(n: nat, spans: seq<Span>) {
    exists i :: 0 <= i < |spans| && spans[i].first <= n <= spans[i].last
  }

  ghost predicate SortedByFirst(spans: seq<Span>) {
    forall i, j :: 0 <= i < j < |spans| ==> spans[i].first <= spans[j].first
  }

  ghost predicate BelowMax(spans: seq<Span>) {
    forall i :: 0 <= i < |spans| ==> spans[i].last < U64_MAX
  }

  /** The walk over spans sorted by first sequence finds the greatest n such that every
      number from `next` to n is covered, whatever overlaps or empty spans there are. */
  lemma {:induction false} WalkIsLongestPrefix(next: nat, through: nat, spans: seq<Span>)
    requires next == through + 1 && SortedByFirst(spans) && BelowMax(spans)
    ensures through <= Walk(next, through, spans)
    ensures forall n :: next <= n <= Walk(next, through, spans) ==> Covered(n, spans)
    ensures !Covered(Walk(next, through, spans) + 1, spans)
    decreases |spans|
  {
    if spans != [] {
      var head, tail := spans[0], spans[1..];
      assert spans == [head] + tail;
      if head.last < next {
        WalkIsLongestPrefix(next, through, tail);
        CoveredCons(head, tail);
      } else if head.first <= next {
        WalkIsLongestPrefix(head.last + 1, head.last, tail);
        CoveredCons(head, tail);
      }
    }
  }

  lemma CoveredCons(head: Span, tail: seq<Span>)
    ensures forall n: nat :: Covered(n, [head] + tail) <==> head.first <= n <= head.last || Covered(n, tail)
  {
    var all := [head] + tail;
    forall n: nat
      ensures Covered(n, all) <==> head.first <= n <= head.last || Covered(n, tail)
    {
      if head.first <= n <= head.last {
        assert all[0].first <= n <= all[0].last;
      }
      if Covered(n, tail) {
        var i :| 0 <= i < |tail| && tail[i].first <= n <= tail[i].last;
        assert all[i + 1].first <= n <= all[i + 1].last;
      }
      if Covered(n, all) {
        var i :| 0 <= i < |all| && all[i].first <= n <= all[i].last;
        assert i > 0 ==> tail[i - 1] == all[i];
      }
    }
  }

  // ---- Tiling ----

  type Log<D> = map<nat, Record<D>>

  /** Records of `log` cover the numbers a+1 .. b end to end. */
  ghost predicate Tiled<D>(log: Log<D>, a: nat, b: nat)
    decreases b - a
  {
    a == b ||
    (a < b && a + 1 in log && |log[a + 1].rows| > 0 && Tiled(log, a + |log[a + 1].rows|, b))
  }

  /** The rows of the records that tile a+1 .. b, in order. */
  ghost function LogRows<D>(log: Log<D>, a: nat, b: nat): (rows: seq<ChangeRow<D>>)
    requires Tiled(log, a, b)
    decreases b - a
  {
    if a == b then [] else log[a + 1].rows + LogRows(log, a + |log[a + 1].rows|, b)
  }

  ghost predicate Extends<D>(log: Log<D>, log': Log<D>) {
    forall k :: k in log ==> k in log' && log'[k] == log[k]
  }

  lemma {:induction false} TiledExtends<D>(log: Log<D>, log': Log<D>, a: nat, b: nat)
    requires Extends(log, log') && Tiled(log, a, b)
    ensures Tiled(log', a, b) && LogRows(log', a, b) == LogRows(log, a, b)
    decreases b - a
  {
    if a != b {
      TiledExtends(log, log', a + |log[a + 1].rows|, b);
    }
  }

  lemma {:induction false} TiledJoin<D>(log: Log<D>, a: nat, b: nat, c: nat)
    requires Tiled(log, a, b) && Tiled(log, b, c)
    ensures Tiled(log, a, c)
    ensures LogRows(log, a, c) == LogRows(log, a, b) + LogRows(log, b, c)
    decreases b - a
  {
    if a != b {
      TiledJoin(log, a + |log[a + 1].rows|, b, c);
    }
  }

  /** Rows of a record are numbered consecutively from its sequence. */
  ghost predicate Numbered<D>(first: nat, rows: seq<ChangeRow<D>>) {
    forall i :: 0 <= i < |rows| ==> rows[i].sequence == first + i
  }

  ghost predicate WellNumbered<D>(log: Log<D>) {
    forall k :: k in log ==> log[k].sequence == k && |log[k].rows| > 0 && Numbered(k, log[k].rows)
  }

  /** The rows delivered for a tiled stretch carry exactly its numbers, each once, in order. */
  lemma {:induction false} LogRowsNumbered<D>(log: Log<D>, a: nat, b: nat)
    requires WellNumbered(log) && Tiled(log, a, b)
    ensures |LogRows(log, a, b)| == b - a
    ensures Numbered(a + 1, LogRows(log, a, b))
    decreases b - a
  {
    if a != b {
      LogRowsNumbered(log, a + |log[a + 1].rows|, b);
    }
  }

  /** Every number of a tiled stretch lies in a record that starts inside the stretch. */
  lemma {:induction false} TiledCovers<D>(log: Log<D>, a: nat, b: nat, n: nat)
    requires Tiled(log, a, b) && a < n <= b
    ensures exists k :: k in log && a < k <= n < k + |log[k].rows| <= b + 1
    decreases b - a
  {
    var k := a + 1;
    if n >= k + |log[k].rows| {
      TiledCovers(log, a + |log[k].rows|, b, n);
    }
  }

  // ---- Reading records back ----

  /** The records whose sequence lies in (after, through], sorted by sequence. */
  function RecordsBetween<D>(log: Log<D>, after: nat, through: nat): (rs: seq<Record<D>>)
    decreases through - after
  {
    if through <= after then []
    else (if after + 1 in log then [log[after + 1]] else []) + RecordsBetween(log, after + 1, through)
  }

  ghost predicate DisjointRecords<D>(log: Log<D>) {
    forall j, k :: j in log && k in log && j < k ==> j + |log[j].rows| <= k
  }

  /** Skipping the numbers inside a record finds no other record. */
  lemma {:induction false} SkipInside<D>(log: Log<D>, k: nat, lo: nat, hi: nat, through: nat)
    requires WellNumbered(log) && DisjointRecords(log) && k in log
    requires k <= lo <= hi < k + |log[k].rows| && hi <= through
    ensures RecordsBetween(log, lo, through) == RecordsBetween(log, hi, through)
    decreases hi - lo
  {
    if lo < hi {
      assert lo + 1 !in log;
      SkipInside(log, k, lo + 1, hi, through);
    }
  }

  /** Over a tiled stretch the fetched records are exactly the tiles. */
  lemma {:induction false} RecordsOfTiled<D>(log: Log<D>, a: nat, b: nat)
    requires WellNumbered(log) && DisjointRecords(log) && Tiled(log, a, b) && a < b
    ensures var next := a + |log[a + 1].rows|;
            Tiled(log, next, b) && next <= b
            && RecordsBetween(log, a, b) == [log[a + 1]] + RecordsBetween(log, next, b)
  {
    var next := a + |log[a + 1].rows|;
    SkipInside(log, a + 1, a + 1, next, b);
  }

  // ---- What a stream read makes of the fetched records ----

  /** Records without rows are skipped by the walk. */
  function NonEmpty<D>(rs: seq<Record<D>>): (out: seq<Record<D>>) {
    if rs == [] then [] else (if |rs[0].rows| == 0 then [] else [rs[0]]) + NonEmpty(rs[1..])
  }

  function PublishedThrough<D>(committed: nat, rs: seq<Record<D>>): nat {
    WalkFrom(committed, Spans(NonEmpty(rs)))
  }

  /** The records that end within the published prefix. */
  function Consumable<D>(rs: seq<Record<D>>, published: nat): (out: seq<Record<D>>) {
    if rs == [] then []
    else (if RecordSpan(rs[0]).last <= published then [rs[0]] else []) + Consumable(rs[1..], published)
  }

  function PayloadRows<D>(rs: seq<Record<D>>): (rows: seq<ChangeRow<D>>) {
    if rs == [] then [] else rs[0].rows + PayloadRows(rs[1..])
  }

  /** Non-empty records in sequence order, each beginning after `after`, none overlapping. */
  ghost predicate Ordered<D>(after: nat, rs: seq<Record<D>>)
    decreases |rs|
  {
    rs == [] ||
    (rs[0].sequence > after && |rs[0].rows| > 0 && rs[0].sequence + |rs[0].rows| <= U64_MAX
     && Ordered(rs[0].sequence + |rs[0].rows| - 1, rs[1..]))
  }

  /** The records lie end to end from a+1 to b. */
  ghost predicate EndToEnd<D>(rs: seq<Record<D>>, a: nat, b: nat) {
    if rs == [] then a == b
    else rs[0].sequence == a + 1 && |rs[0].rows| > 0 && EndToEnd(rs[1..], a + |rs[0].rows|, b)
  }

  lemma {:induction false} OrderedNonEmpty<D>(after: nat, rs: seq<Record<D>>)
    requires Ordered(after, rs)
    ensures NonEmpty(rs) == rs
    decreases |rs|
  {
    if rs != [] {
      OrderedNonEmpty(rs[0].sequence + |rs[0].rows| - 1, rs[1..]);
    }
  }

  lemma {:induction false} NoneConsumable<D>(after: nat, rs: seq<Record<D>>, published: nat)
    requires Ordered(after, rs) && published <= after
    ensures Consumable(rs, published) == []
    decreases |rs|
  {
    if rs != [] {
      NoneConsumable(rs[0].sequence + |rs[0].rows| - 1, rs[1..], published);
    }
  }

  lemma WalkStep<D>(committed: nat, r: Record<D>, rest: seq<Record<D>>)
    requires |r.rows| > 0 && r.sequence == committed + 1 && r.sequence + |r.rows| <= U64_MAX
    ensures WalkFrom(committed, Spans([r] + rest)) == WalkFrom(committed + |r.rows|, Spans(rest))
  {
    assert Spans([r] + rest)[1..] == Spans(rest);
  }

  /** The first record does not follow the committed sequence: nothing is published. */
  lemma NoRun<D>(committed: nat, rs: seq<Record<D>>)
    requires Ordered(committed, rs) && (rs == [] || rs[0].sequence != committed + 1)
    ensures PublishedThrough(committed, rs) == committed && Consumable(rs, committed) == []
  {
    OrderedNonEmpty(committed, rs);
    NoneConsumable(committed, rs, committed);
  }

  /** The first record follows the committed sequence: the walk goes on behind it. */
  lemma RunHead<D>(committed: nat, rs: seq<Record<D>>)
    requires Ordered(committed, rs) && rs != [] && rs[0].sequence == committed + 1
    ensures PublishedThrough(committed, rs) == PublishedThrough(committed + |rs[0].rows|, rs[1..])
  {
    OrderedNonEmpty(committed, rs);
    OrderedNonEmpty(committed + |rs[0].rows|, rs[1..]);
    assert rs == [rs[0]] + rs[1..];
    WalkStep(committed, rs[0], rs[1..]);
  }

  /** Of ordered records, a read consumes exactly the leading ones that lie end to end
      behind the committed sequence, and stops where they stop. */
  lemma {:induction false} ReadTakesLeadingRun<D>(committed: nat, rs: seq<Record<D>>) returns (k: nat)
    requires Ordered(committed, rs)
    ensures k <= |rs| && Consumable(rs, PublishedThrough(committed, rs)) == rs[..k]
    ensures EndToEnd(rs[..k], committed, PublishedThrough(committed, rs))
    ensures k < |rs| ==> rs[k].sequence > PublishedThrough(committed, rs) + 1
    decreases |rs|
  {
    if rs != [] && rs[0].sequence == committed + 1 {
      var end := committed + |rs[0].rows|;
      RunHead(committed, rs);
      var k' := ReadTakesLeadingRun(end, rs[1..]);
      RunStep(rs, committed, PublishedThrough(end, rs[1..]), k');
      k := k' + 1;
    } else {
      NoRun(committed, rs);
      k := 0;
    }
  }

  lemma RunStep<D>(rs: seq<Record<D>>, committed: nat, published: nat, k: nat)
    requires rs != [] && k <= |rs[1..]| && rs[0].sequence == committed + 1 && |rs[0].rows| > 0
    requires rs[0].sequence + |rs[0].rows| <= U64_MAX
    requires Consumable(rs[1..], published) == rs[1..][..k]
    requires EndToEnd(rs[1..][..k], committed + |rs[0].rows|, published)
    ensures Consumable(rs, published) == rs[..k + 1] && EndToEnd(rs[..k + 1], committed, published)
  {
    EndToEndOrder(rs[1..][..k], committed + |rs[0].rows|, published);
    assert rs[..k + 1] == [rs[0]] + rs[1..][..k];
    assert rs[..k + 1][1..] == rs[1..][..k];
  }

  lemma {:induction false} EndToEndOrder<D>(rs: seq<Record<D>>, a: nat, b: nat)
    requires EndToEnd(rs, a, b)
    ensures a <= b
  {
    if rs != [] {
      EndToEndOrder(rs[1..], a + |rs[0].rows|, b);
    }
  }

  /** Fetching a tiled stretch and reading it yields all of it: the walk reaches its end,
      no record is cut off and the rows are the stretch's rows. */
  lemma {:induction false} ReadTiled<D>(log: Log<D>, a: nat, b: nat)
    requires WellNumbered(log) && DisjointRecords(log) && Tiled(log, a, b) && b < U64_MAX
    ensures var rs := RecordsBetween(log, a, b);
            PublishedThrough(a, rs) == b && Consumable(rs, b) == rs && Ordered(a, rs)
            && PayloadRows(rs) == LogRows(log, a, b)
    decreases b - a
  {
    var rs := RecordsBetween(log, a, b);
    if a != b {
      RecordsOfTiled(log, a, b);
      var r, next := log[a + 1], a + |log[a + 1].rows|;
      var rest := RecordsBetween(log, next, b);
      ReadTiled(log, next, b);
      assert rs[1..] == rest;
      OrderedNonEmpty(a, rs);
      OrderedNonEmpty(next, rest);
      WalkStep(a, r, rest);
    }
  }
}
