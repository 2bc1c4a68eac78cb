/**
 Two Raft log stores: one keeps its entries in a map by index, the other in an ordered store
 of byte keys. After every run from empty stores the byte-key store holds, in key order, what
 the map holds, except for an entry at the largest index that the map has dropped since.
*/
module RaftLog {
  import opened Wrappers
  import opened Bytes

  const U64_MAX: nat := 0xFFFF_FFFF_FFFF_FFFF

  type Key = seq<nat>

  // ---- Byte keys ----

  /** n in k bytes, highest first. */
  function BigEndian(n: nat, k: nat): (b: Key)
    ensures |b| == k
  {
    if k == 0 then [] else BigEndian(n / 256, k - 1) + [n % 256]
  }

  lemma {:induction false} LessSnoc(a: Key, b: Key, x: nat, y: nat)
    requires |a| == |b|
    ensures Less(a + [x], b + [y]) <==> Less(a, b) || (a == b && x < y)
    decreases |a|
  {
    if a != [] {
      assert (a + [x])[1..] == a[1..] + [x] && (b + [y])[1..] == b[1..] + [y];
      LessSnoc(a[1..], b[1..], x, y);
      assert a == b <==> a[0] == b[0] && a[1..] == b[1..];
    }
  }

  /** Big-endian keys are ordered like their numbers. */
  lemma {:induction false} BigEndianOrder(m: nat, n: nat, k: nat)
    requires m < Pow256(k) && n < Pow256(k)
    ensures Less(BigEndian(m, k), BigEndian(n, k)) <==> m < n
    ensures BigEndian(m, k) == BigEndian(n, k) <==> m == n
    decreases k
  {
    if k > 0 {
      var a, b := BigEndian(m / 256, k - 1), BigEndian(n / 256, k - 1);
      BigEndianOrder(m / 256, n / 256, k - 1);
      LessSnoc(a, b, m % 256, n % 256);
      assert (a + [m % 256])[..k - 1] == a && (b + [n % 256])[..k - 1] == b;
      assert (a + [m % 256])[k - 1] == m % 256 && (b + [n % 256])[k - 1] == n % 256;
    }
  }

  /** "nova/raft/" */
  const ROOT: Key := [0x6e, 0x6f, 0x76, 0x61, 0x2f, 0x72, 0x61, 0x66, 0x74, 0x2f]
  const LOG: Key := [0x6c, 0x6f, 0x67, 0x2f]
  const VOTE: Key := [0x76, 0x6f, 0x74, 0x65]
  const COMMITTED: Key := [0x63, 0x6f, 0x6d, 0x6d, 0x69, 0x74, 0x74, 0x65, 0x64]
  const PURGED: Key := [0x70, 0x75, 0x72, 0x67, 0x65, 0x64]

  function LogKey(i: nat): Key {
    ROOT + (LOG + BigEndian(i, 8))
  }

  function VoteKey(): Key {
    ROOT + VOTE
  }

  function CommittedKey(): Key {
    ROOT + COMMITTED
  }

  function PurgedKey(): Key {
    ROOT + PURGED
  }

  /** Keys of log entries are ordered by index. */
  lemma LogKeyOrder(i: nat, j: nat)
    requires i <= U64_MAX && j <= U64_MAX
    ensures Less(LogKey(i), LogKey(j)) <==> i < j
    ensures LogKey(i) == LogKey(j) ==> i == j
  {
    assert Pow256(8) == U64_MAX + 1;
    SamePrefix(ROOT, LOG + BigEndian(i, 8), LOG + BigEndian(j, 8));
    SamePrefix(LOG, BigEndian(i, 8), BigEndian(j, 8));
    BigEndianOrder(i, j, 8);
    var n := |ROOT| + |LOG|;
    assert LogKey(i)[n..] == BigEndian(i, 8) && LogKey(j)[n..] == BigEndian(j, 8);
  }

  /** The other keys lie outside every range of log keys. */
  lemma OthersOutside(i: nat)
    ensures Less(CommittedKey(), LogKey(i)) && Less(LogKey(i), PurgedKey()) && Less(LogKey(i), VoteKey())
  {
    var tail := LOG + BigEndian(i, 8);
    SamePrefix(ROOT, COMMITTED, tail);
    SamePrefix(ROOT, tail, PURGED);
    SamePrefix(ROOT, tail, VOTE);
    assert tail[0] == 0x6c;
  }

  // ---- The two stores ----

  datatype LogId = LogId(leader: nat, index: nat)

  datatype Entry = Entry(id: LogId, data: int)

  datatype Memory = Memory(vote: Option<int>, log: map<nat, Entry>, committed: Option<LogId>, purged: Option<LogId>)

  /** Serialized values. `null` is what an absent committed id is written as. */
  datatype Value = EntryValue(entry: Entry) | VoteValue(vote: int) | IdValue(id: LogId) | NullValue

  type Store = map<Key, Value>

  datatype Operation =
    | Append(entries: seq<Entry>)
    | Truncate(at: LogId)
    | Purge(upTo: LogId)
    | SaveVote(vote: int)
    | SaveCommitted(committed: Option<LogId>)

  function InsertAll(log: map<nat, Entry>, entries: seq<Entry>): map<nat, Entry> {
    if entries == [] then log
    else
      var n := |entries| - 1;
      InsertAll(log, entries[..n])[entries[n].id.index := entries[n]]
  }

  function MemoryAfter(m: Memory, op: Operation): Memory {
    match op
    case Append(entries) => m.(log := InsertAll(m.log, entries))
    case Truncate(at) => m.(log := map i | i in m.log && i < at.index :: m.log[i])
    case Purge(upTo) => m.(log := map i | i in m.log && i > upTo.index :: m.log[i], purged := Some(upTo))
    case SaveVote(vote) => m.(vote := Some(vote))
    case SaveCommitted(committed) => m.(committed := committed)
  }

  /** All keys from lo on and before hi removed. */
  function ClearRange(s: Store, lo: Key, hi: Key): Store {
    map k | k in s && (Less(k, lo) || !Less(k, hi)) :: s[k]
  }

  function SetAll(s: Store, entries: seq<Entry>): Store {
    if entries == [] then s
    else
      var n := |entries| - 1;
      SetAll(s, entries[..n])[LogKey(entries[n].id.index) := EntryValue(entries[n])]
  }

  function Successor(i: nat): nat {
    if i < U64_MAX then i + 1 else U64_MAX
  }

  function StoreAfter(s: Store, op: Operation): Store {
    match op
    case Append(entries) => SetAll(s, entries)
    case Truncate(at) => ClearRange(s, LogKey(at.index), LogKey(U64_MAX))
    case Purge(upTo) => ClearRange(s, LogKey(0), LogKey(Successor(upTo.index)))[PurgedKey() := IdValue(upTo)]
    case SaveVote(vote) => s[VoteKey() := VoteValue(vote)]
    case SaveCommitted(committed) =>
      s[CommittedKey() := if committed.Some? then IdValue(committed.value) else NullValue]
  }

  // ---- Refinement ----

  ghost predicate IsLogKey(k: Key) {
    exists i: nat :: i <= U64_MAX && k == LogKey(i)
  }

  /** The store has the map's entries, and below the largest index no others. */
  ghost predicate SameLog(log: map<nat, Entry>, s: Store) {
    && (forall i :: i in log ==> i <= U64_MAX && LogKey(i) in s && s[LogKey(i)] == EntryValue(log[i]))
    && (forall i: nat :: i < U64_MAX && LogKey(i) in s ==> i in log)
    && forall k :: k in s ==> IsLogKey(k) || k in {VoteKey(), CommittedKey(), PurgedKey()}
  }

  ghost predicate SameFields(m: Memory, s: Store) {
    && (if VoteKey() in s then m.vote.Some? && s[VoteKey()] == VoteValue(m.vote.value) else m.vote.None?)
    && (if PurgedKey() in s then m.purged.Some? && s[PurgedKey()] == IdValue(m.purged.value) else m.purged.None?)
    && (if CommittedKey() in s
        then s[CommittedKey()] == (if m.committed.Some? then IdValue(m.committed.value) else NullValue)
        else m.committed.None?)
  }

  /** The stores hold the same, except that the byte-key store may have an entry at the largest
      index that the map does not have. */
  ghost predicate Close(m: Memory, s: Store) {
    SameLog(m.log, s) && SameFields(m, s)
  }

  /** The stores hold the same. */
  ghost predicate Agrees(m: Memory, s: Store) {
    Close(m, s) && (LogKey(U64_MAX) in s ==> U64_MAX in m.log)
  }

  /** All indices are 64-bit. */
  predicate WellFormed(op: Operation) {
    match op
    case Append(entries) => forall k :: 0 <= k < |entries| ==> entries[k].id.index <= U64_MAX
    case Truncate(at) => at.index <= U64_MAX
    case Purge(upTo) => upTo.index <= U64_MAX
    case SaveVote(_) => true
    case SaveCommitted(_) => true
  }

  lemma SetKeepsLog(log: map<nat, Entry>, s: Store, e: Entry)
    requires SameLog(log, s) && e.id.index <= U64_MAX
    ensures SameLog(log[e.id.index := e], s[LogKey(e.id.index) := EntryValue(e)])
    ensures LogKey(U64_MAX) in s[LogKey(e.id.index) := EntryValue(e)] <==> LogKey(U64_MAX) in s || e.id.index == U64_MAX
  {
    forall i: nat | i <= U64_MAX
      ensures LogKey(i) == LogKey(e.id.index) <==> i == e.id.index
    {
      LogKeyOrder(i, e.id.index);
    }
    assert IsLogKey(LogKey(e.id.index));
  }

  /** Some entry has the largest index. */
  predicate ReachesTop(entries: seq<Entry>) {
    exists k :: 0 <= k < |entries| && entries[k].id.index == U64_MAX
  }

  lemma ReachesTopSnoc(entries: seq<Entry>, e: Entry)
    ensures ReachesTop(entries + [e]) <==> ReachesTop(entries) || e.id.index == U64_MAX
  {
    if ReachesTop(entries) {
      var k :| 0 <= k < |entries| && entries[k].id.index == U64_MAX;
      assert (entries + [e])[k].id.index == U64_MAX;
    }
    if e.id.index == U64_MAX {
      assert (entries + [e])[|entries|].id.index == U64_MAX;
    }
  }

  lemma {:induction false} AppendClose(m: Memory, s: Store, entries: seq<Entry>)
    requires Close(m, s) && WellFormed(Append(entries))
    ensures Close(m.(log := InsertAll(m.log, entries)), SetAll(s, entries))
    ensures U64_MAX in InsertAll(m.log, entries) <==> U64_MAX in m.log || ReachesTop(entries)
    ensures LogKey(U64_MAX) in SetAll(s, entries) <==> LogKey(U64_MAX) in s || ReachesTop(entries)
    decreases |entries|
  {
    if entries != [] {
      var init, e := entries[..|entries| - 1], entries[|entries| - 1];
      AppendClose(m, s, init);
      assert entries == init + [e];
      ReachesTopSnoc(init, e);
      var log, s' := InsertAll(m.log, init), SetAll(s, init);
      SetKeepsLog(log, s', e);
      SetKeepsFields(m, log, s', e);
    }
  }

  lemma SetKeepsFields(m: Memory, log: map<nat, Entry>, s: Store, e: Entry)
    requires SameFields(m, s)
    ensures SameFields(m.(log := log), s[LogKey(e.id.index) := EntryValue(e)])
  {}

  /** A range clear between two log keys removes the entries between them and nothing else; the
      entry at the largest index is never among them. */
  lemma ClearClose(m: Memory, s: Store, lo: nat, hi: nat, m': Memory, s': Store)
    requires Close(m, s) && lo <= U64_MAX && hi <= U64_MAX
    requires m' == m.(log := m'.log) && s' == ClearRange(s, LogKey(lo), LogKey(hi))
    requires forall i :: i in m'.log ==> i in m.log && m'.log[i] == m.log[i] && (i < lo || hi <= i)
    requires forall i :: i in m.log && i < U64_MAX && (i < lo || hi <= i) ==> i in m'.log
    ensures Close(m', s') && (LogKey(U64_MAX) in s' <==> LogKey(U64_MAX) in s)
  {
    OthersOutside(lo);
    OthersOutside(hi);
    Asymmetric(LogKey(hi), PurgedKey());
    Asymmetric(LogKey(hi), VoteKey());
    forall i: nat | i <= U64_MAX
      ensures Less(LogKey(i), LogKey(lo)) <==> i < lo
      ensures Less(LogKey(i), LogKey(hi)) <==> i < hi
    {
      LogKeyOrder(i, lo);
      LogKeyOrder(i, hi);
    }
  }

  lemma TruncateClose(m: Memory, s: Store, at: LogId)
    requires Close(m, s) && at.index <= U64_MAX
    ensures var m', s' := MemoryAfter(m, Truncate(at)), StoreAfter(s, Truncate(at));
            Close(m', s') && U64_MAX !in m'.log && (LogKey(U64_MAX) in s' <==> LogKey(U64_MAX) in s)
  {
    ClearClose(m, s, at.index, U64_MAX, MemoryAfter(m, Truncate(at)), StoreAfter(s, Truncate(at)));
  }

  lemma PurgeClose(m: Memory, s: Store, upTo: LogId)
    requires Close(m, s) && upTo.index <= U64_MAX
    ensures var m', s' := MemoryAfter(m, Purge(upTo)), StoreAfter(s, Purge(upTo));
            && Close(m', s') && (U64_MAX in m'.log <==> U64_MAX in m.log && upTo.index < U64_MAX)
            && (LogKey(U64_MAX) in s' <==> LogKey(U64_MAX) in s)
  {
    var m', s' := m.(log := MemoryAfter(m, Purge(upTo)).log), ClearRange(s, LogKey(0), LogKey(Successor(upTo.index)));
    ClearClose(m, s, 0, Successor(upTo.index), m', s');
    SetPurgedClose(m', s', upTo, MemoryAfter(m, Purge(upTo)), StoreAfter(s, Purge(upTo)));
  }

  lemma SetPurgedClose(m: Memory, s: Store, upTo: LogId, m': Memory, s': Store)
    requires Close(m, s) && m' == m.(purged := Some(upTo)) && s' == s[PurgedKey() := IdValue(upTo)]
    ensures Close(m', s') && (LogKey(U64_MAX) in s' <==> LogKey(U64_MAX) in s)
  {}

  /** An operation removes the map's entry at the largest index. */
  predicate DropsTop(op: Operation) {
    op.Truncate? || (op.Purge? && op.upTo.index == U64_MAX)
  }

  /** An operation writes an entry at the largest index. */
  predicate WritesTop(op: Operation) {
    op.Append? && ReachesTop(op.entries)
  }

  /** Every operation keeps the stores close, and only what it does to the largest index can
      part them: the byte-key store never removes that entry. */
  lemma StepClose(m: Memory, s: Store, op: Operation)
    requires Close(m, s) && WellFormed(op)
    ensures var m', s' := MemoryAfter(m, op), StoreAfter(s, op);
            && Close(m', s')
            && (U64_MAX in m'.log <==> (U64_MAX in m.log && !DropsTop(op)) || WritesTop(op))
            && (LogKey(U64_MAX) in s' <==> LogKey(U64_MAX) in s || WritesTop(op))
  {
    match op
    case Append(entries) => AppendClose(m, s, entries);
    case Truncate(at) => TruncateClose(m, s, at);
    case Purge(upTo) => PurgeClose(m, s, upTo);
    case SaveVote(vote) =>
    case SaveCommitted(committed) =>
  }

  /** From stores that agree, a step keeps them so if and only if it does not drop an entry at
      the largest index. */
  lemma StepAgreesIff(m: Memory, s: Store, op: Operation)
    requires Agrees(m, s) && WellFormed(op)
    ensures Agrees(MemoryAfter(m, op), StoreAfter(s, op)) <==> !(U64_MAX in m.log && DropsTop(op))
  {
    StepClose(m, s, op);
  }

  // ---- Runs ----

  const NOTHING: Memory := Memory(None, map[], None, None)

  ghost function MemoryRun(ops: seq<Operation>): Memory {
    if ops == [] then NOTHING else MemoryAfter(MemoryRun(ops[..|ops| - 1]), ops[|ops| - 1])
  }

  ghost function StoreRun(ops: seq<Operation>): Store {
    if ops == [] then map[] else StoreAfter(StoreRun(ops[..|ops| - 1]), ops[|ops| - 1])
  }

  ghost predicate AllWellFormed(ops: seq<Operation>) {
    forall i :: 0 <= i < |ops| ==> WellFormed(ops[i])
  }

  /** An entry at the largest index was written and, after the last time, dropped. */
  ghost predicate LeavesTop(ops: seq<Operation>) {
    exists i :: 0 <= i < |ops| && WritesTop(ops[i]) && DroppedAfter(ops, i)
  }

  ghost predicate NotRewritten(ops: seq<Operation>, i: nat) {
    forall j :: i < j < |ops| ==> !WritesTop(ops[j])
  }

  ghost predicate DroppedLater(ops: seq<Operation>, i: nat) {
    exists j :: i < j < |ops| && DropsTop(ops[j])
  }

  ghost predicate DroppedAfter(ops: seq<Operation>, i: nat) {
    NotRewritten(ops, i) && DroppedLater(ops, i)
  }

  ghost predicate EverWritesTop(ops: seq<Operation>) {
    exists i :: 0 <= i < |ops| && WritesTop(ops[i])
  }

  lemma EverWritesTopSnoc(ops: seq<Operation>, op: Operation)
    ensures EverWritesTop(ops + [op]) <==> EverWritesTop(ops) || WritesTop(op)
  {
    if EverWritesTop(ops) {
      var i :| 0 <= i < |ops| && WritesTop(ops[i]);
      assert WritesTop((ops + [op])[i]);
    }
    if WritesTop(op) {
      assert WritesTop((ops + [op])[|ops|]);
    }
  }

  lemma DroppedAfterSnoc(ops: seq<Operation>, op: Operation, i: nat)
    requires i < |ops|
    ensures DroppedAfter(ops + [op], i) <==>
            !WritesTop(op) && (DroppedAfter(ops, i) || (NotRewritten(ops, i) && DropsTop(op)))
  {
    var all := ops + [op];
    assert forall j :: 0 <= j < |ops| ==> all[j] == ops[j];
    assert all[|ops|] == op;
    assert NotRewritten(all, i) <==> NotRewritten(ops, i) && !WritesTop(op);
    if DroppedLater(ops, i) {
      var j :| i < j < |ops| && DropsTop(ops[j]);
      assert DropsTop(all[j]);
    }
    if DropsTop(op) {
      assert DropsTop(all[|ops|]);
    }
  }

  /** What the next operation does to the fate of the largest index. */
  lemma LeavesTopSnoc(ops: seq<Operation>, op: Operation)
    ensures LeavesTop(ops + [op]) <==>
            !WritesTop(op) && (LeavesTop(ops) || (EverWritesTop(ops) && DropsTop(op)))
  {
    var all := ops + [op];
    forall i: nat | i < |ops|
      ensures all[i] == ops[i]
      ensures DroppedAfter(all, i) <==>
              !WritesTop(op) && (DroppedAfter(ops, i) || (NotRewritten(ops, i) && DropsTop(op)))
    {
      DroppedAfterSnoc(ops, op, i);
    }
    if !WritesTop(op) && LeavesTop(ops) {
      var i :| 0 <= i < |ops| && WritesTop(ops[i]) && DroppedAfter(ops, i);
      assert WritesTop(all[i]) && DroppedAfter(all, i);
    }
    if !WritesTop(op) && EverWritesTop(ops) && DropsTop(op) {
      var i := LastWrite(ops);
      assert WritesTop(all[i]) && DroppedAfter(all, i);
    }
    if LeavesTop(all) {
      var i :| 0 <= i < |all| && WritesTop(all[i]) && DroppedAfter(all, i);
      assert WritesTop(ops[i]);
    }
  }

  lemma {:induction false} LastWrite(ops: seq<Operation>) returns (i: nat)
    requires EverWritesTop(ops)
    ensures i < |ops| && WritesTop(ops[i]) && NotRewritten(ops, i)
    decreases |ops|
  {
    var n := |ops| - 1;
    if WritesTop(ops[n]) {
      i := n;
    } else {
      var k :| 0 <= k < |ops| && WritesTop(ops[k]);
      assert WritesTop(ops[..n][k]);
      i := LastWrite(ops[..n]);
    }
  }

  lemma {:induction false} RunsClose(ops: seq<Operation>)
    requires AllWellFormed(ops)
    ensures Close(MemoryRun(ops), StoreRun(ops))
    ensures LogKey(U64_MAX) in StoreRun(ops) <==> EverWritesTop(ops)
    ensures U64_MAX in MemoryRun(ops).log <==> EverWritesTop(ops) && !LeavesTop(ops)
    decreases |ops|
  {
    if ops != [] {
      var init, op := ops[..|ops| - 1], ops[|ops| - 1];
      RunsClose(init);
      assert ops == init + [op];
      EverWritesTopSnoc(init, op);
      LeavesTopSnoc(init, op);
      StepClose(MemoryRun(init), StoreRun(init), op);
    }
  }

  /** After every run from empty stores, over all 64-bit indices: the byte-key store and the map
      hold the same log, vote, committed and purged ids if and only if no entry at the largest
      index was dropped after it was last written. */
  lemma RunsAgreeIff(ops: seq<Operation>)
    requires AllWellFormed(ops)
    ensures Agrees(MemoryRun(ops), StoreRun(ops)) <==> !LeavesTop(ops)
  {
    RunsClose(ops);
  }

  /** In particular they agree after every run below the largest index. */
  lemma RunsBelowTopAgree(ops: seq<Operation>)
    requires AllWellFormed(ops) && !EverWritesTop(ops)
    ensures Agrees(MemoryRun(ops), StoreRun(ops))
  {
    RunsAgreeIff(ops);
  }

  /** One entry at the largest index, truncated: the stores part. */
  lemma TruncatedTopStays(e: Entry, at: LogId)
    requires e.id.index == U64_MAX && at.index <= U64_MAX
    ensures var ops := [Append([e]), Truncate(at)];
            AllWellFormed(ops) && !Agrees(MemoryRun(ops), StoreRun(ops))
  {
    var ops := [Append([e]), Truncate(at)];
    assert [e][0].id.index == U64_MAX;
    assert WritesTop(ops[0]) && DropsTop(ops[1]) && DroppedAfter(ops, 0);
    RunsAgreeIff(ops);
  }

  // ---- The stores as objects ----

  class MemoryLogStore {
    var vote: Option<int>
    var log: map<nat, Entry>
    var committed: Option<LogId>
    var purged: Option<LogId>

    ghost function State(): Memory
      reads this
    {
      Memory(vote, log, committed, purged)
    }

    constructor ()
      ensures State() == NOTHING
    {
      vote, log, committed, purged := None, map[], None, None;
    }

    method AppendEntries(entries: seq<Entry>)
      modifies this`log
      ensures State() == MemoryAfter(old(State()), Append(entries))
    {
      for k := 0 to |entries|
        invariant log == InsertAll(old(log), entries[..k])
      {
        assert entries[..k + 1][..k] == entries[..k];
        log := log[entries[k].id.index := entries[k]];
      }
      assert entries[..|entries|] == entries;
    }

    method TruncateFrom(at: LogId)
      modifies this`log
      ensures forall i :: i in log <==> i in old(log) && i < at.index
      ensures forall i :: i in log ==> log[i] == old(log)[i]
    {
      log := map i | i in log && i < at.index :: log[i];
    }

    method PurgeTo(upTo: LogId)
      modifies this`log, this`purged
      ensures purged == Some(upTo)
      ensures forall i :: i in log <==> i in old(log) && i > upTo.index
      ensures forall i :: i in log ==> log[i] == old(log)[i]
    {
      log := map i | i in log && i > upTo.index :: log[i];
      purged := Some(upTo);
    }
  }

  /** The byte-key store. `model` is the map it stands for. */
  class KeyLogStore {
    var store: Store
    ghost var model: Memory

    ghost predicate Valid()
      reads this
    {
      Close(model, store)
    }

    constructor ()
      ensures Valid() && model == NOTHING && store == map[]
    {
      store, model := map[], NOTHING;
    }

    method AppendEntries(entries: seq<Entry>)
      requires Valid() && WellFormed(Append(entries))
      modifies this
      ensures Valid() && model == MemoryAfter(old(model), Append(entries))
    {
      for k := 0 to |entries|
        invariant store == SetAll(old(store), entries[..k])
      {
        assert entries[..k + 1][..k] == entries[..k];
        store := store[LogKey(entries[k].id.index) := EntryValue(entries[k])];
      }
      assert entries[..|entries|] == entries;
      AppendClose(old(model), old(store), entries);
      model := MemoryAfter(old(model), Append(entries));
    }

    method TruncateFrom(at: LogId)
      requires Valid() && at.index <= U64_MAX
      modifies this
      ensures Valid() && model == MemoryAfter(old(model), Truncate(at))
    {
      TruncateClose(model, store, at);
      store := ClearRange(store, LogKey(at.index), LogKey(U64_MAX));
      model := MemoryAfter(model, Truncate(at));
    }

    method PurgeTo(upTo: LogId)
      requires Valid() && upTo.index <= U64_MAX
      modifies this
      ensures Valid() && model == MemoryAfter(old(model), Purge(upTo))
    {
      PurgeClose(model, store, upTo);
      store := ClearRange(store, LogKey(0), LogKey(Successor(upTo.index)));
      store := store[PurgedKey() := IdValue(upTo)];
      model := MemoryAfter(model, Purge(upTo));
    }
  }

  // ---- What the stores answer ----

  datatype Bound = Included(v: nat) | Excluded(v: nat) | Unbounded

  ghost predicate Inside(i: nat, lo: Bound, hi: Bound) {
    && (match lo case Included(v) => v <= i case Excluded(v) => v < i case Unbounded => true)
    && (match hi case Included(v) => i <= v case Excluded(v) => i < v case Unbounded => true)
  }

  /** The half-open interval the byte-key store reads for a range. */
  function StartOf(lo: Bound): nat {
    match lo case Included(v) => v case Excluded(v) => Successor(v) case Unbounded => 0
  }

  function EndOf(hi: Bound): nat {
    match hi case Included(v) => Successor(v) case Excluded(v) => v case Unbounded => U64_MAX
  }

  ghost predicate Bounded(b: Bound) {
    b.Unbounded? || b.v <= U64_MAX
  }

  /** The indices of a range in ascending order, as the map is walked. */
  ghost predicate ListsIndices(ix: seq<nat>, log: map<nat, Entry>, lo: Bound, hi: Bound) {
    && (forall j, k :: 0 <= j < k < |ix| ==> ix[j] < ix[k])
    && forall i: nat :: i in ix <==> i in log && Inside(i, lo, hi)
  }

  /** The keys of a range in key order, as the byte-key store returns them. */
  ghost predicate ListsKeys(ks: seq<Key>, s: Store, lo: Key, hi: Key) {
    && (forall j, k :: 0 <= j < k < |ks| ==> Less(ks[j], ks[k]))
    && forall k: Key :: k in ks <==> k in s && !Less(k, lo) && Less(k, hi)
  }

  ghost predicate SortedKeys(ks: seq<Key>) {
    forall j, k :: 0 <= j < k < |ks| ==> Less(ks[j], ks[k])
  }

  /** An ordered listing is determined by its members. */
  lemma {:induction false} SameListing(a: seq<Key>, b: seq<Key>)
    requires SortedKeys(a) && SortedKeys(b) && forall k :: k in a <==> k in b
    ensures a == b
    decreases |a|
  {
    NoneIffEmpty(a);
    NoneIffEmpty(b);
    if a != [] {
      SameFirst(a, b);
      forall k
        ensures k in a[1..] <==> k in b[1..]
      {
        NotAgain(a, k);
        NotAgain(b, k);
      }
      SameListing(a[1..], b[1..]);
      assert a == [a[0]] + a[1..] && b == [b[0]] + b[1..];
    }
  }

  lemma NoneIffEmpty(a: seq<Key>)
    ensures a == [] <==> forall k: Key :: k !in a
  {
    assert a != [] ==> a[0] in a;
  }

  lemma SameFirst(a: seq<Key>, b: seq<Key>)
    requires SortedKeys(a) && SortedKeys(b) && a != [] && b != [] && forall k :: k in a <==> k in b
    ensures a[0] == b[0]
  {
    assert a[0] in b && b[0] in a;
    var i :| 0 <= i < |b| && b[i] == a[0];
    var j :| 0 <= j < |a| && a[j] == b[0];
    if i > 0 && j > 0 {
      Asymmetric(b[0], b[i]);
    }
  }

  lemma NotAgain(a: seq<Key>, k: Key)
    requires SortedKeys(a) && a != []
    ensures k in a[1..] <==> k in a && k != a[0]
  {
    if k in a[1..] {
      var i :| 0 <= i < |a| - 1 && a[1..][i] == k;
      assert a[i + 1] == k && Less(a[0], k);
      if k == a[0] {
        Asymmetric(k, k);
      }
    }
    if k in a && k != a[0] {
      var i :| 0 <= i < |a| && a[i] == k;
      assert a[1..][i - 1] == k;
    }
  }

  /** The keys are those of the entries at the indices, in the same order. */
  ghost predicate SameEntries(m: Memory, s: Store, ix: seq<nat>, ks: seq<Key>) {
    |ks| == |ix| &&
    forall j :: 0 <= j < |ix| ==> ks[j] == LogKey(ix[j]) && ix[j] in m.log && ks[j] in s
                                  && s[ks[j]] == EntryValue(m.log[ix[j]])
  }

  /** A range read of the byte-key store, in key order, returns the entries the map returns for
      the range in index order, for every kind of bound, if and only if the range does not take
      in an entry at the largest index. */
  lemma RangeReadsAgreeIff(m: Memory, s: Store, lo: Bound, hi: Bound, ix: seq<nat>, ks: seq<Key>)
    requires Close(m, s) && Bounded(lo) && Bounded(hi)
    requires ListsIndices(ix, m.log, lo, hi) && ListsKeys(ks, s, LogKey(StartOf(lo)), LogKey(EndOf(hi)))
    ensures SameEntries(m, s, ix, ks) <==> !(U64_MAX in m.log && Inside(U64_MAX, lo, hi))
  {
    if U64_MAX in m.log && Inside(U64_MAX, lo, hi) {
      var j :| 0 <= j < |ix| && ix[j] == U64_MAX;
      LogKeyOrder(U64_MAX, EndOf(hi));
      assert LogKey(U64_MAX) !in ks;
      assert j < |ks| ==> ks[j] in ks;
    } else {
      RangeReadsAgree(m, s, lo, hi, ix, ks);
    }
  }

  lemma RangeReadsAgree(m: Memory, s: Store, lo: Bound, hi: Bound, ix: seq<nat>, ks: seq<Key>)
    requires Close(m, s) && Bounded(lo) && Bounded(hi) && !(U64_MAX in m.log && Inside(U64_MAX, lo, hi))
    requires ListsIndices(ix, m.log, lo, hi) && ListsKeys(ks, s, LogKey(StartOf(lo)), LogKey(EndOf(hi)))
    ensures SameEntries(m, s, ix, ks)
  {
    assert forall j :: 0 <= j < |ix| ==> ix[j] in ix;
    var ks' := seq(|ix|, j requires 0 <= j < |ix| => LogKey(ix[j]));
    forall j, k | 0 <= j < k < |ix|
      ensures Less(ks'[j], ks'[k])
    {
      LogKeyOrder(ix[j], ix[k]);
    }
    forall k: Key
      ensures k in ks' <==> k in ks
    {
      KeyListed(m, s, lo, hi, ix, ks', k);
    }
    SameListing(ks, ks');
  }

  lemma KeyListed(m: Memory, s: Store, lo: Bound, hi: Bound, ix: seq<nat>, ks: seq<Key>, k: Key)
    requires Close(m, s) && Bounded(lo) && Bounded(hi) && !(U64_MAX in m.log && Inside(U64_MAX, lo, hi))
    requires ListsIndices(ix, m.log, lo, hi)
    requires |ks| == |ix| && forall j :: 0 <= j < |ix| ==> ks[j] == LogKey(ix[j])
    ensures k in ks <==> k in s && !Less(k, LogKey(StartOf(lo))) && Less(k, LogKey(EndOf(hi)))
  {
    if k in ks {
      var j :| 0 <= j < |ks| && ks[j] == k;
      assert ix[j] in ix;
      InRangeOrder(ix[j], lo, hi);
    }
    if k in s && !Less(k, LogKey(StartOf(lo))) && Less(k, LogKey(EndOf(hi))) {
      var i := FoundIndex(m, s, lo, hi, k);
      var j :| 0 <= j < |ix| && ix[j] == i;
      assert ks[j] == k;
    }
  }

  lemma FoundIndex(m: Memory, s: Store, lo: Bound, hi: Bound, k: Key) returns (i: nat)
    requires Close(m, s) && Bounded(lo) && Bounded(hi)
    requires k in s && !Less(k, LogKey(StartOf(lo))) && Less(k, LogKey(EndOf(hi)))
    ensures i in m.log && Inside(i, lo, hi) && k == LogKey(i)
  {
    OthersOutside(StartOf(lo));
    OthersOutside(EndOf(hi));
    Asymmetric(LogKey(EndOf(hi)), PurgedKey());
    Asymmetric(LogKey(EndOf(hi)), VoteKey());
    i :| i <= U64_MAX && k == LogKey(i);
    LogKeyOrder(i, EndOf(hi));
    InRangeOrder(i, lo, hi);
  }

  lemma InRangeOrder(i: nat, lo: Bound, hi: Bound)
    requires i < U64_MAX && Bounded(lo) && Bounded(hi)
    ensures Inside(i, lo, hi) <==> !Less(LogKey(i), LogKey(StartOf(lo))) && Less(LogKey(i), LogKey(EndOf(hi)))
  {
    LogKeyOrder(i, StartOf(lo));
    LogKeyOrder(i, EndOf(hi));
  }

  // ---- The committed id ----

  function ReadCommittedMemory(m: Memory): Result<Option<LogId>, ()> {
    Ok(m.committed)
  }

  /** The stored value is read as an id; `null` is not one. */
  function ReadCommittedStore(s: Store): Result<Option<LogId>, ()> {
    if CommittedKey() !in s then Ok(None)
    else if s[CommittedKey()].IdValue? then Ok(Some(s[CommittedKey()].id))
    else Err(())
  }

  /** What the last SaveCommitted of a run carried, if there was one. */
  function LastSaved(ops: seq<Operation>): Option<Option<LogId>> {
    if ops == [] then None
    else if ops[|ops| - 1].SaveCommitted? then Some(ops[|ops| - 1].committed)
    else LastSaved(ops[..|ops| - 1])
  }

  lemma {:induction false} CommittedAfterRun(ops: seq<Operation>)
    requires AllWellFormed(ops)
    ensures MemoryRun(ops).committed == if LastSaved(ops).Some? then LastSaved(ops).value else None
    ensures CommittedKey() in StoreRun(ops) <==> LastSaved(ops).Some?
    decreases |ops|
  {
    if ops != [] {
      var init, op := ops[..|ops| - 1], ops[|ops| - 1];
      CommittedAfterRun(init);
      CommittedKeyStays(StoreRun(init), op);
    }
  }

  lemma CommittedKeyStays(s: Store, op: Operation)
    requires WellFormed(op)
    ensures CommittedKey() in StoreAfter(s, op) <==> CommittedKey() in s || op.SaveCommitted?
  {
    match op
    case Append(entries) => SetAllKeeps(s, entries);
    case Truncate(at) => OthersOutside(at.index);
    case Purge(upTo) => OthersOutside(0);
    case SaveVote(_) =>
    case SaveCommitted(_) =>
  }

  lemma {:induction false} SetAllKeeps(s: Store, entries: seq<Entry>)
    ensures CommittedKey() in SetAll(s, entries) <==> CommittedKey() in s
    decreases |entries|
  {
    if entries != [] {
      SetAllKeeps(s, entries[..|entries| - 1]);
    }
  }

  /** After every run from empty stores the committed id reads the same from both if and only if
      the last one saved, if any, was an id. */
  lemma CommittedReadsAgreeIff(ops: seq<Operation>)
    requires AllWellFormed(ops)
    ensures ReadCommittedMemory(MemoryRun(ops)) == ReadCommittedStore(StoreRun(ops)) <==> LastSaved(ops) != Some(None)
  {
    RunsClose(ops);
    CommittedAfterRun(ops);
  }

  /** Saving an absent id once is enough: the map answers that there is none, the byte-key store
      fails. */
  lemma AbsentIdUnreadable()
    ensures var ops := [SaveCommitted(None)];
            && ReadCommittedMemory(MemoryRun(ops)) == Ok(None)
            && ReadCommittedStore(StoreRun(ops)) == Err(())
  {
    var ops := [SaveCommitted(None)];
    CommittedReadsAgreeIff(ops);
    CommittedAfterRun(ops);
  }
}
