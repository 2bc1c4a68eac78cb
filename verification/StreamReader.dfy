/**
 The loops of a stream read: finding the contiguous published prefix of the fetched records
 and cutting the rows of each record out of its payload file, however the file is batched.
*/
module StreamReader {
  import opened ChangeLog
  import opened Wrappers

  /** Where the contiguous published prefix behind `committed` ends. */
  method ContiguousPublished<D>(committed: nat, records: seq<Record<D>>) returns (published: nat)
    requires committed < U64_MAX
    ensures published == PublishedThrough(committed, records)
  {
    var next: nat := committed + 1;
    published := committed;
    var i := 0;
    while i < |records|
      invariant 0 <= i <= |records|
      invariant Walk(next, published, Spans(NonEmpty(records[i..]))) == PublishedThrough(committed, records)
    {
      var r := records[i];
      assert records[i..][1..] == records[i + 1..];
      NonEmptySpans(records[i..]);
      i := i + 1;
      if |r.rows| == 0 {
        continue;
      }
      var end := SatSub(SatAdd(r.sequence, |r.rows|), 1);
      if end < next {
        continue;
      }
      if r.sequence > next {
        break;
      }
      published := end;
      next := SatAdd(end, 1);
    }
  }

  lemma NonEmptySpans<D>(rs: seq<Record<D>>)
    requires rs != []
    ensures |rs[0].rows| == 0 ==> NonEmpty(rs) == NonEmpty(rs[1..])
    ensures |rs[0].rows| != 0 ==>
              Spans(NonEmpty(rs)) == [RecordSpan(rs[0])] + Spans(NonEmpty(rs[1..]))
  {}

  // ---- Payload files ----

  type Batch<T> = seq<T>

  datatype PayloadRef = PayloadRef(path: string, rowStart: nat, rowCount: nat)

  datatype ReadError = StreamPayloadMissing(path: string)

  function Flatten<T>(batches: seq<Batch<T>>): seq<T> {
    if batches == [] then [] else batches[0] + Flatten(batches[1..])
  }

  lemma {:induction false} FlattenAppend<T>(a: seq<Batch<T>>, b: seq<Batch<T>>)
    ensures Flatten(a + b) == Flatten(a) + Flatten(b)
  {
    if a == [] {
      assert a + b == b;
    } else {
      FlattenAppend(a[1..], b);
      assert (a + b)[1..] == a[1..] + b;
    }
  }

  /** A file serves a reference when it has all of the rows, or when none are asked for. */
  predicate Serves<T>(batches: seq<Batch<T>>, p: PayloadRef) {
    p.rowCount == 0 || p.rowStart + p.rowCount <= |Flatten(batches)|
  }

  function Cut<T>(batches: seq<Batch<T>>, p: PayloadRef): seq<T>
    requires Serves(batches, p)
  {
    if p.rowCount == 0 then [] else Flatten(batches)[p.rowStart..p.rowStart + p.rowCount]
  }

  /** Reads rows rowStart .. rowStart+rowCount of a file split into batches in any way, or
      reports it missing when the file is too short. */
  method ReadPayload<T>(batches: seq<Batch<T>>, p: PayloadRef) returns (r: Result<seq<Batch<T>>, ReadError>)
    ensures r.Ok? <==> Serves(batches, p)
    ensures r.Ok? ==> Flatten(r.value) == Cut(batches, p)
    ensures r.Err? ==> r.error == StreamPayloadMissing(p.path)
  {
    var out: seq<Batch<T>> := [];
    var skip: nat, remaining: nat := p.rowStart, p.rowCount;
    var i := 0;
    assert batches[0..] == batches
           && Flatten(out) + Window(Flatten(batches), skip, remaining) == Window(Flatten(batches), skip, remaining);
    while i < |batches|
      invariant 0 <= i <= |batches|
      invariant Serves(batches, p) <==> Enough(batches[i..], skip, remaining)
      invariant Serves(batches, p) ==> Cut(batches, p) == Progress(out, batches[i..], skip, remaining)
    {
      if remaining == 0 {
        break;
      }
      var batch := batches[i];
      assert batches[i..][0] == batch && batches[i..][1..] == batches[i + 1..];
      if skip >= |batch| {
        SkipBatch(out, batches[i..], skip, remaining);
        skip := skip - |batch|;
        i := i + 1;
        continue;
      }
      var length := if remaining <= |batch| - skip then remaining else |batch| - skip;
      TakeFromBatch(out, batches[i..], skip, remaining, length);
      out := out + [batch[skip..skip + length]];
      remaining := remaining - length;
      skip := 0;
      i := i + 1;
    }
    if remaining != 0 {
      assert batches[i..] == [];
      return Err(StreamPayloadMissing(p.path));
    }
    assert Flatten(out) + [] == Flatten(out);
    return Ok(out);
  }

  /** Rows skip .. skip+count of what is left, where they exist. */
  ghost function Window<T>(rows: seq<T>, skip: nat, count: nat): seq<T> {
    if count == 0 || skip + count > |rows| then [] else rows[skip..skip + count]
  }

  ghost predicate Enough<T>(batches: seq<Batch<T>>, skip: nat, count: nat) {
    count == 0 || skip + count <= |Flatten(batches)|
  }

  /** What has been taken so far followed by what is still to be taken. */
  ghost function Progress<T>(out: seq<Batch<T>>, batches: seq<Batch<T>>, skip: nat, count: nat): seq<T> {
    Flatten(out) + Window(Flatten(batches), skip, count)
  }

  lemma SkipBatch<T>(out: seq<Batch<T>>, batches: seq<Batch<T>>, skip: nat, count: nat)
    requires batches != [] && |batches[0]| <= skip
    ensures Enough(batches, skip, count) <==> Enough(batches[1..], skip - |batches[0]|, count)
    ensures Progress(out, batches, skip, count) == Progress(out, batches[1..], skip - |batches[0]|, count)
  {}

  lemma TakeFromBatch<T>(out: seq<Batch<T>>, batches: seq<Batch<T>>, skip: nat, count: nat, length: nat)
    requires batches != [] && skip < |batches[0]| && 0 < count
    requires length == if count <= |batches[0]| - skip then count else |batches[0]| - skip
    ensures Enough(batches, skip, count) <==> Enough(batches[1..], 0, count - length)
    ensures Enough(batches, skip, count) ==>
              Progress(out, batches, skip, count)
              == Progress(out + [batches[0][skip..skip + length]], batches[1..], 0, count - length)
  {
    var piece := batches[0][skip..skip + length];
    FlattenAppend(out, [piece]);
    assert Flatten([piece]) == piece;
    if Enough(batches, skip, count) {
      assert Window(Flatten(batches), skip, count) == piece + Window(Flatten(batches[1..]), 0, count - length);
    }
  }

  type Files<T> = map<string, seq<Batch<T>>>

  predicate Served<T>(files: Files<T>, ref: PayloadRef) {
    ref.path in files && Serves(files[ref.path], ref)
  }

  predicate AllServed<T>(files: Files<T>, refs: seq<PayloadRef>) {
    forall i :: 0 <= i < |refs| ==> Served(files, refs[i])
  }

  /** Record i is the first that its file does not serve. */
  ghost predicate FailsAt<T>(files: Files<T>, refs: seq<PayloadRef>, i: nat) {
    i < |refs| && AllServed(files, refs[..i]) && !Served(files, refs[i])
  }

  function AllRows<T>(files: Files<T>, refs: seq<PayloadRef>): seq<T>
    requires AllServed(files, refs)
  {
    if refs == [] then []
    else
      assert Served(files, refs[|refs| - 1]);
      AllRows(files, refs[..|refs| - 1]) + Cut(files[refs[|refs| - 1].path], refs[|refs| - 1])
  }

  lemma OneMore<T>(files: Files<T>, refs: seq<PayloadRef>, i: nat)
    requires i < |refs| && AllServed(files, refs[..i]) && Served(files, refs[i])
    ensures AllServed(files, refs[..i + 1])
    ensures AllRows(files, refs[..i + 1]) == AllRows(files, refs[..i]) + Cut(files[refs[i].path], refs[i])
  {
    assert refs[..i + 1][..i] == refs[..i];
  }

  /** Reads every record's rows in turn; succeeds exactly when every file serves its record,
      and otherwise names a file that does not. */
  method ReadStreamPayloads<T>(files: Files<T>, refs: seq<PayloadRef>) returns (r: Result<seq<Batch<T>>, ReadError>)
    ensures r.Ok? <==> AllServed(files, refs)
    ensures r.Ok? ==> Flatten(r.value) == AllRows(files, refs)
    ensures r.Err? ==> exists i: nat :: FailsAt(files, refs, i) && r.error == StreamPayloadMissing(refs[i].path)
  {
    var out: seq<Batch<T>> := [];
    for i := 0 to |refs|
      invariant AllServed(files, refs[..i]) && Flatten(out) == AllRows(files, refs[..i])
    {
      var p := refs[i];
      if p.path !in files {
        assert FailsAt(files, refs, i);
        return Err(StreamPayloadMissing(p.path));
      }
      var read := ReadPayload(files[p.path], p);
      if read.Err? {
        assert FailsAt(files, refs, i);
        return Err(read.error);
      }
      OneMore(files, refs, i);
      FlattenAppend(out, read.value);
      out := out + read.value;
    }
    assert refs[..|refs|] == refs;
    return Ok(out);
  }

  /** A record's file as it is written: its rows from the start, in any batches. */
  ghost predicate WrittenAs<D>(files: Files<ChangeRow<D>>, ref: PayloadRef, r: Record<D>) {
    && ref.rowStart == 0 && ref.rowCount == |r.rows|
    && ref.path in files && Flatten(files[ref.path]) == r.rows
  }

  lemma {:induction false} PayloadRowsSnoc<D>(rs: seq<Record<D>>, r: Record<D>)
    ensures PayloadRows(rs + [r]) == PayloadRows(rs) + r.rows
    decreases |rs|
  {
    if rs == [] {
      assert PayloadRows([r]) == r.rows + PayloadRows([r][1..]) && |[r][1..]| == 0;
    } else {
      PayloadRowsSnoc(rs[1..], r);
      assert (rs + [r])[0] == rs[0] && (rs + [r])[1..] == rs[1..] + [r];
    }
  }

  /** The rows read from the files of records are the rows the records stand for, record by
      record, so a read never fails on files that were written whole. */
  lemma {:induction false} FilesHoldRecordRows<D>(files: Files<ChangeRow<D>>, refs: seq<PayloadRef>,
                                                  records: seq<Record<D>>)
    requires |refs| == |records| && forall i :: 0 <= i < |refs| ==> WrittenAs(files, refs[i], records[i])
    ensures AllServed(files, refs) && AllRows(files, refs) == PayloadRows(records)
    decreases |refs|
  {
    assert AllServed(files, refs) by {
      assert forall i :: 0 <= i < |refs| ==> WrittenAs(files, refs[i], records[i]);
    }
    if refs != [] {
      var n := |refs| - 1;
      FilesHoldRecordRows(files, refs[..n], records[..n]);
      assert WrittenAs(files, refs[n], records[n]);
      assert records == records[..n] + [records[n]];
      PayloadRowsSnoc(records[..n], records[n]);
    }
  }
}
