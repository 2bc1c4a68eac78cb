/**
 MySQL packet framing: a payload is written as packets of at most 2^24 - 1 bytes with
 consecutive sequence ids, and read back packet by packet; and the length-encoded integers and
 strings of the protocol.
*/
module PacketFraming {
  import opened Wrappers
  import opened Bytes

  type byte = x: nat | x < 256

  const MAX_PACKET: nat := 0xFF_FFFF

  datatype Packet = Packet(id: byte, payload: seq<byte>)

  datatype WireError = UnexpectedEnd

  function Header(len: nat, id: byte): (h: seq<byte>)
    ensures |h| == 4
  {
    [len % 256, len / 256 % 256, len / 65536 % 256, id]
  }

  function Frame(chunk: seq<byte>, id: byte): seq<byte> {
    Header(|chunk|, id) + chunk
  }

  function Next(id: byte): byte {
    (id + 1) % 256
  }

  /** How a payload is cut: full packets, then a shorter one, which is empty when the payload
      ends exactly at a packet boundary. An empty payload is not written at all. */
  function Chunks(payload: seq<byte>): (cs: seq<seq<byte>>)
    ensures forall i :: 0 <= i < |cs| ==> |cs[i]| <= MAX_PACKET
    decreases |payload|
  {
    if payload == [] then []
    else if |payload| < MAX_PACKET then [payload]
    else if |payload| == MAX_PACKET then [payload, []]
    else [payload[..MAX_PACKET]] + Chunks(payload[MAX_PACKET..])
  }

  /** The packets' bytes, numbered from id. */
  function Wire(cs: seq<seq<byte>>, id: byte): seq<byte> {
    if cs == [] then [] else Frame(cs[0], id) + Wire(cs[1..], Next(id))
  }

  function IdAfter(cs: seq<seq<byte>>, id: byte): byte {
    if cs == [] then id else IdAfter(cs[1..], Next(id))
  }

  // ---- Reading ----

  /** The first packet of the input and the rest. */
  function ReadOne(input: seq<byte>): (r: Option<(Packet, seq<byte>)>)
    ensures r.Some? ==> |r.value.1| < |input|
  {
    if |input| < 4 then None
    else
      var len := (input[0] as int) + 256 * (input[1] as int) + 65536 * (input[2] as int);
      if |input| < 4 + len then None
      else Some((Packet(input[3], input[4..4 + len]), input[4 + len..]))
  }

  /** Packets up to and including the first short one, put together. */
  function ReadPayload(input: seq<byte>): (r: Option<(seq<byte>, seq<byte>)>)
    ensures r.Some? ==> |r.value.1| < |input|
    decreases |input|
  {
    match ReadOne(input)
    case None => None
    case Some((p, rest)) =>
      if |p.payload| < MAX_PACKET then Some((p.payload, rest))
      else match ReadPayload(rest)
           case None => None
           case Some((more, rest')) => Some((p.payload + more, rest'))
  }

  lemma ReadFrame(chunk: seq<byte>, id: byte, rest: seq<byte>)
    requires |chunk| <= MAX_PACKET
    ensures ReadOne(Frame(chunk, id) + rest) == Some((Packet(id, chunk), rest))
  {
    var input, len := Frame(chunk, id) + rest, |chunk|;
    assert len % 256 + 256 * (len / 256 % 256) + 65536 * (len / 65536 % 256) == len;
    assert input[4..4 + len] == chunk && input[4 + len..] == rest;
  }

  /** A written payload is read back whole, whatever follows it, at every length. */
  lemma {:induction false} PayloadRoundTrip(payload: seq<byte>, id: byte, rest: seq<byte>)
    requires payload != []
    ensures ReadPayload(Wire(Chunks(payload), id) + rest) == Some((payload, rest))
    decreases |payload|
  {
    var cs := Chunks(payload);
    var tail := Wire(cs[1..], Next(id));
    assert Wire(cs, id) + rest == Frame(cs[0], id) + (tail + rest);
    ReadFrame(cs[0], id, tail + rest);
    if |payload| < MAX_PACKET {
      assert tail + rest == rest;
    } else if |payload| == MAX_PACKET {
      var none: seq<byte>, last: seq<seq<byte>> := [], cs[1..];
      assert last == [none] && |last[1..]| == 0;
      assert tail == Frame([], Next(id)) + Wire([], Next(Next(id)));
      assert tail + rest == Frame([], Next(id)) + rest;
      ReadFrame([], Next(id), rest);
      assert payload + [] == payload;
    } else {
      assert cs[1..] == Chunks(payload[MAX_PACKET..]);
      PayloadRoundTrip(payload[MAX_PACKET..], Next(id), rest);
      assert payload[..MAX_PACKET] + payload[MAX_PACKET..] == payload;
    }
  }

  // ---- Many payloads ----

  function WireAll(payloads: seq<seq<byte>>, id: byte): seq<byte> {
    if payloads == [] then []
    else Wire(Chunks(payloads[0]), id) + WireAll(payloads[1..], IdAfter(Chunks(payloads[0]), id))
  }

  /** n payloads read one after another, and the rest of the input. */
  function ReadPayloads(n: nat, input: seq<byte>): Option<(seq<seq<byte>>, seq<byte>)> {
    if n == 0 then Some(([], input))
    else match ReadPayload(input)
         case None => None
         case Some((p, rest)) =>
           match ReadPayloads(n - 1, rest)
           case None => None
           case Some((more, rest')) => Some(([p] + more, rest'))
  }

  /** The non-empty payloads of a list. */
  function Solid(payloads: seq<seq<byte>>): (s: seq<seq<byte>>)
    ensures |s| <= |payloads| && (|s| == |payloads| ==> s == payloads)
    ensures |s| == |payloads| <==> forall i :: 0 <= i < |payloads| ==> payloads[i] != []
  {
    if payloads == [] then []
    else (if payloads[0] == [] then [] else [payloads[0]]) + Solid(payloads[1..])
  }

  lemma ReadPayloadsCons(n: nat, input: seq<byte>, p: seq<byte>, rest: seq<byte>, more: seq<seq<byte>>)
    requires ReadPayload(input) == Some((p, rest)) && ReadPayloads(n, rest) == Some((more, []))
    ensures ReadPayloads(n + 1, input) == Some(([p] + more, []))
  {}

  /** An empty payload leaves no trace. */
  lemma EmptyLeavesNothing(rest: seq<seq<byte>>, id: byte)
    ensures Solid([[]] + rest) == Solid(rest) && WireAll([[]] + rest, id) == WireAll(rest, id)
  {
    var none: seq<byte> := [];
    var payloads := [none] + rest;
    assert payloads[0] == none && payloads[1..] == rest;
    assert Chunks(none) == [] && Wire(Chunks(none), id) == [] && IdAfter(Chunks(none), id) == id;
    assert Wire(Chunks(none), id) + WireAll(rest, id) == WireAll(rest, id);
  }

  lemma PayloadThenRest(p: seq<byte>, rest: seq<seq<byte>>, id: byte)
    requires p != []
    requires var id' := IdAfter(Chunks(p), id);
             ReadPayloads(|Solid(rest)|, WireAll(rest, id')) == Some((Solid(rest), []))
    ensures ReadPayloads(|Solid([p] + rest)|, WireAll([p] + rest, id)) == Some((Solid([p] + rest), []))
  {
    var payloads, tail := [p] + rest, WireAll(rest, IdAfter(Chunks(p), id));
    assert payloads[0] == p && payloads[1..] == rest;
    assert Solid(payloads) == [p] + Solid(rest) && WireAll(payloads, id) == Wire(Chunks(p), id) + tail;
    PayloadRoundTrip(p, id, tail);
    ReadPayloadsCons(|Solid(rest)|, WireAll(payloads, id), p, tail, Solid(rest));
  }

  /** Reading as many payloads as there are non-empty ones gives exactly those. */
  lemma {:induction false} SolidRoundTrip(payloads: seq<seq<byte>>, id: byte)
    ensures ReadPayloads(|Solid(payloads)|, WireAll(payloads, id)) == Some((Solid(payloads), []))
    decreases |payloads|
  {
    if payloads != [] {
      var p, rest := payloads[0], payloads[1..];
      assert payloads == [p] + rest;
      if p == [] {
        SolidRoundTrip(rest, id);
        EmptyLeavesNothing(rest, id);
      } else {
        SolidRoundTrip(rest, IdAfter(Chunks(p), id));
        PayloadThenRest(p, rest, id);
      }
    }
  }

  lemma {:induction false} ReadPastEnd(n: nat, k: nat, input: seq<byte>, ps: seq<seq<byte>>)
    requires k < n && ReadPayloads(k, input) == Some((ps, []))
    ensures ReadPayloads(n, input) == None
    decreases k
  {
    if k > 0 {
      var (p, rest) := ReadPayload(input).value;
      ReadPastEnd(n - 1, k - 1, rest, ReadPayloads(k - 1, rest).value.0);
    }
  }

  /** A list of payloads written one after another is read back as the same list if and only
      if none of them is empty. */
  lemma ListRoundTripIff(payloads: seq<seq<byte>>, id: byte)
    ensures ReadPayloads(|payloads|, WireAll(payloads, id)) == Some((payloads, []))
            <==> forall i :: 0 <= i < |payloads| ==> payloads[i] != []
  {
    SolidRoundTrip(payloads, id);
    if |Solid(payloads)| < |payloads| {
      ReadPastEnd(|payloads|, |Solid(payloads)|, WireAll(payloads, id), Solid(payloads));
    }
  }

  lemma {:induction false} IdAfterCount(cs: seq<seq<byte>>, id: byte)
    ensures IdAfter(cs, id) == (id + |cs|) % 256
    decreases |cs|
  {
    if cs != [] {
      IdAfterCount(cs[1..], Next(id));
      LaterId(id, |cs|);
    }
  }

  lemma {:induction false} WireSplit(a: seq<seq<byte>>, b: seq<seq<byte>>, id: byte)
    ensures Wire(a + b, id) == Wire(a, id) + Wire(b, IdAfter(a, id))
    decreases |a|
  {
    if a == [] {
      assert a + b == b;
    } else {
      assert (a + b)[0] == a[0] && (a + b)[1..] == a[1..] + b;
      WireSplit(a[1..], b, Next(id));
    }
  }

  /** From packet i on, the packets carry the ids from i after the first, modulo 256. */
  lemma ConsecutiveIds(cs: seq<seq<byte>>, id: byte, i: nat)
    requires i <= |cs|
    ensures Wire(cs, id) == Wire(cs[..i], id) + Wire(cs[i..], (id + i) % 256)
  {
    assert cs == cs[..i] + cs[i..];
    WireSplit(cs[..i], cs[i..], id);
    IdAfterCount(cs[..i], id);
  }

  lemma LaterId(id: byte, i: nat)
    requires i > 0
    ensures (Next(id) + (i - 1)) % 256 == (id + i) % 256
  {}

  /** The input starts with a packet's frame. */
  ghost predicate IsFirst(input: seq<byte>, p: Packet, rest: seq<byte>) {
    |p.payload| <= MAX_PACKET && input == Frame(p.payload, p.id) + rest
  }

  /** The payload length a header gives. */
  function LengthOf(h: seq<byte>): (len: nat)
    requires |h| >= 4
    ensures len <= MAX_PACKET
  {
    (h[0] as int) + 256 * (h[1] as int) + 65536 * (h[2] as int)
  }

  lemma Digits(a: nat, b: nat, c: nat)
    requires a < 256 && b < 256 && c < 256
    ensures var n := a + 256 * b + 65536 * c; n % 256 == a && n / 256 % 256 == b && n / 65536 % 256 == c
  {
    var n := a + 256 * b + 65536 * c;
    assert n == a + 256 * (b + 256 * c);
    assert n / 256 == b + 256 * c;
    assert n / 65536 == c;
  }

  lemma HeaderOf(h: seq<byte>)
    requires |h| == 4
    ensures Header(LengthOf(h), h[3]) == h
  {
    Digits(h[0], h[1], h[2]);
  }

  lemma FirstLength(input: seq<byte>, p: Packet, rest: seq<byte>)
    requires IsFirst(input, p, rest)
    ensures |input| >= 4 && LengthOf(input) == |p.payload| && |input| >= 4 + LengthOf(input)
  {
    var len := |p.payload|;
    assert input[..4] == Header(len, p.id);
    assert input[0] == len % 256 && input[1] == len / 256 % 256 && input[2] == len / 65536 % 256;
    assert len % 256 + 256 * (len / 256 % 256) + 65536 * (len / 65536 % 256) == len;
  }

  lemma ShortHasNoFrame(input: seq<byte>)
    requires |input| < 4 || |input| < 4 + LengthOf(input)
    ensures forall p, rest :: !IsFirst(input, p, rest)
  {
    forall p, rest
      ensures !IsFirst(input, p, rest)
    {
      if IsFirst(input, p, rest) {
        FirstLength(input, p, rest);
      }
    }
  }

  /** An input is read as a packet if and only if it starts with a frame. */
  lemma FirstIsRead(input: seq<byte>)
    ensures ReadOne(input).Some? ==> IsFirst(input, ReadOne(input).value.0, ReadOne(input).value.1)
    ensures ReadOne(input).None? ==> forall p, rest :: !IsFirst(input, p, rest)
  {
    if |input| < 4 || |input| < 4 + LengthOf(input) {
      ShortHasNoFrame(input);
    } else {
      var h := input[..4];
      var (p, rest) := ReadOne(input).value;
      HeaderOf(h);
      assert input == h + p.payload + rest;
    }
  }

  function Prepend(full: seq<byte>, r: Option<(seq<byte>, seq<byte>)>): Option<(seq<byte>, seq<byte>)> {
    if r.None? then None else Some((full + r.value.0, r.value.1))
  }

  /** One round of the reading loop. */
  lemma ReadStep(full: seq<byte>, input: seq<byte>, p: Packet, rest: seq<byte>)
    requires IsFirst(input, p, rest)
    ensures |rest| < |input|
    ensures Prepend(full, ReadPayload(input)) ==
            if |p.payload| < MAX_PACKET then Some((full + p.payload, rest))
            else Prepend(full + p.payload, ReadPayload(rest))
  {
    ReadFrame(p.payload, p.id, rest);
    if |p.payload| == MAX_PACKET && ReadPayload(rest).Some? {
      var more := ReadPayload(rest).value.0;
      assert full + (p.payload + more) == full + p.payload + more;
    }
  }

  // ---- The codec ----

  /** Both directions of a connection and the current sequence id. */
  class PacketCodec {
    var input: seq<byte>
    var output: seq<byte>
    var id: byte

    constructor (input: seq<byte>)
      ensures this.input == input && output == [] && id == 0
    {
      this.input := input;
      output := [];
      id := 0;
    }

    method WritePacket(payload: seq<byte>, withId: byte)
      requires |payload| <= MAX_PACKET
      modifies this`output, this`id
      ensures output == old(output) + Frame(payload, withId) && id == Next(withId)
    {
      output := output + Frame(payload, withId);
      id := Next(withId);
    }

    /** Writes a payload of any length, packet by packet. */
    method WriteLargePayload(payload: seq<byte>)
      modifies this`output, this`id
      ensures output == old(output) + Wire(Chunks(payload), old(id)) && id == IdAfter(Chunks(payload), old(id))
    {
      var offset: nat, next := 0, id;
      while offset < |payload|
        invariant offset <= |payload| && (offset < |payload| ==> next == id)
        invariant output + Wire(Chunks(payload[offset..]), id) == old(output) + Wire(Chunks(payload), old(id))
        invariant IdAfter(Chunks(payload[offset..]), id) == IdAfter(Chunks(payload), old(id))
      {
        var size := if |payload| - offset < MAX_PACKET then |payload| - offset else MAX_PACKET;
        WriteStep(output, payload, offset, size, next);
        WritePacket(payload[offset..offset + size], next);
        next := Next(next);
        offset := offset + size;
        if size == MAX_PACKET && offset == |payload| {
          WritePacket([], next);
        }
      }
    }

    /** Takes n bytes, or fails when there are fewer. */
    method ReadExact(n: nat) returns (r: Result<seq<byte>, WireError>)
      modifies this`input
      ensures r.Err? <==> |old(input)| < n
      ensures r.Ok? ==> |r.value| == n && old(input) == r.value + input
    {
      if |input| < n {
        input := [];
        return Err(UnexpectedEnd);
      }
      r := Ok(input[..n]);
      input := input[n..];
    }

    /** Takes one packet: what was taken is the frame that a writer makes of the packet. It fails
        if and only if the input starts with no frame; how much is left then is not said. */
    method ReadPacket() returns (r: Result<Packet, WireError>)
      modifies this`input, this`id
      ensures r.Ok? ==> IsFirst(old(input), r.value, input) && id == Next(r.value.id)
      ensures r.Err? ==> id == old(id) && forall p, rest :: !IsFirst(old(input), p, rest)
    {
      ghost var before := input;
      var header := ReadExact(4);
      if header.Err? {
        ShortHasNoFrame(before);
        return Err(UnexpectedEnd);
      }
      var len := LengthOf(header.value);
      var payload := ReadExact(len);
      if payload.Err? {
        ShortHasNoFrame(before);
        return Err(UnexpectedEnd);
      }
      id := Next(header.value[3]);
      HeaderOf(header.value);
      assert before == Frame(payload.value, header.value[3]) + input;
      return Ok(Packet(header.value[3], payload.value));
    }

    /** Reads packets up to and including the first short one. */
    method ReadFullPayload() returns (r: Result<seq<byte>, WireError>)
      modifies this`input, this`id
      ensures match ReadPayload(old(input))
              case None => r == Err(UnexpectedEnd)
              case Some((p, rest)) => r == Ok(p) && input == rest
    {
      var full: seq<byte> := [];
      assert ReadPayload(input).Some? ==> full + ReadPayload(input).value.0 == ReadPayload(input).value.0;
      while true
        invariant ReadPayload(old(input)) == Prepend(full, ReadPayload(input))
        decreases |input|
      {
        ghost var before := input;
        var packet := ReadPacket();
        if packet.Err? {
          FirstIsRead(before);
          return Err(UnexpectedEnd);
        }
        ReadStep(full, before, packet.value, input);
        full := full + packet.value.payload;
        if |packet.value.payload| < MAX_PACKET {
          return Ok(full);
        }
      }
    }
  }

  /** What is left to write after one packet. */
  lemma CutChunk(payload: seq<byte>, offset: nat, size: nat, id: byte)
    requires offset < |payload| && size == if |payload| - offset < MAX_PACKET then |payload| - offset else MAX_PACKET
    ensures var left, after := payload[offset..], payload[offset + size..];
            var end := if size == MAX_PACKET && after == [] then Frame([], Next(id)) else [];
            var id' := if size == MAX_PACKET && after == [] then Next(Next(id)) else Next(id);
            && Wire(Chunks(left), id) == Frame(payload[offset..offset + size], id) + end + Wire(Chunks(after), id')
            && IdAfter(Chunks(left), id) == IdAfter(Chunks(after), id')
  {
    var left := payload[offset..];
    assert left[..size] == payload[offset..offset + size] && left[size..] == payload[offset + size..];
    var cs := Chunks(left);
    if |left| < MAX_PACKET {
      assert cs == [left] && |cs[1..]| == 0;
    } else if |left| == MAX_PACKET {
      var none: seq<byte>, last: seq<seq<byte>> := [], cs[1..];
      assert last == [none] && |last[1..]| == 0;
    } else {
      assert cs[1..] == Chunks(left[MAX_PACKET..]);
    }
  }

  /** One round of the writing loop leaves the bytes in all unchanged. */
  lemma WriteStep(out: seq<byte>, payload: seq<byte>, offset: nat, size: nat, id: byte)
    requires offset < |payload| && size == if |payload| - offset < MAX_PACKET then |payload| - offset else MAX_PACKET
    ensures var chunk, after := payload[offset..offset + size], payload[offset + size..];
            if size == MAX_PACKET && offset + size == |payload|
            then && out + Frame(chunk, id) + Frame([], Next(id)) + Wire(Chunks(after), Next(Next(id)))
                    == out + Wire(Chunks(payload[offset..]), id)
                 && IdAfter(Chunks(after), Next(Next(id))) == IdAfter(Chunks(payload[offset..]), id)
            else && out + Frame(chunk, id) + Wire(Chunks(after), Next(id)) == out + Wire(Chunks(payload[offset..]), id)
                 && IdAfter(Chunks(after), Next(id)) == IdAfter(Chunks(payload[offset..]), id)
  {
    CutChunk(payload, offset, size, id);
  }

  // ---- Length-encoded integers and strings ----

  const U64_END: nat := 0x1_0000_0000_0000_0000

  function EncodeInt(v: nat): seq<nat> {
    if v < 251 then [v]
    else if v < 65536 then [0xfc] + ToBytes(v, 2)
    else if v < 16777216 then [0xfd] + ToBytes(v, 3)
    else [0xfe] + ToBytes(v, 8)
  }

  /** The value and the number of bytes it took. */
  function DecodeInt(buf: seq<nat>): Result<(nat, nat), WireError> {
    if buf == [] then Err(UnexpectedEnd)
    else if buf[0] <= 250 then Ok((buf[0], 1))
    else if buf[0] == 0xfc then (if |buf| < 3 then Err(UnexpectedEnd) else Ok((FromBytes(buf[1..3]), 3)))
    else if buf[0] == 0xfd then (if |buf| < 4 then Err(UnexpectedEnd) else Ok((FromBytes(buf[1..4]), 4)))
    else if buf[0] == 0xfe then (if |buf| < 9 then Err(UnexpectedEnd) else Ok((FromBytes(buf[1..9]), 9)))
    else Err(UnexpectedEnd)
  }

  function EncodeString(s: seq<nat>): seq<nat> {
    EncodeInt(|s|) + s
  }

  function DecodeString(buf: seq<nat>): Result<(seq<nat>, nat), WireError> {
    match DecodeInt(buf)
    case Err(e) => Err(e)
    case Ok((len, used)) =>
      if |buf| < used + len then Err(UnexpectedEnd) else Ok((buf[used..used + len], used + len))
  }

  lemma Powers()
    ensures Pow256(2) == 65536 && Pow256(3) == 16777216 && Pow256(8) == U64_END
  {}

  /** An encoded integer decodes to itself and its own length, whatever follows. */
  lemma IntRoundTrip(v: nat, suffix: seq<nat>)
    requires v < U64_END
    ensures DecodeInt(EncodeInt(v) + suffix) == Ok((v, |EncodeInt(v)|))
  {
    Powers();
    var k := if v < 65536 then 2 else if v < 16777216 then 3 else 8;
    BytesRoundTrip(v, k);
    if v >= 251 {
      assert (EncodeInt(v) + suffix)[1..k + 1] == ToBytes(v, k);
    }
  }

  lemma StringRoundTrip(s: seq<nat>, suffix: seq<nat>)
    requires |s| < U64_END
    ensures DecodeString(EncodeString(s) + suffix) == Ok((s, |EncodeString(s)|))
  {
    var n := EncodeInt(|s|);
    assert EncodeString(s) + suffix == n + (s + suffix);
    IntRoundTrip(|s|, s + suffix);
    assert (n + (s + suffix))[|n|..|n| + |s|] == s;
  }

  /** No proper prefix of an encoding decodes. */
  lemma TruncatedFails(s: seq<nat>, k: nat)
    requires |s| < U64_END && k < |EncodeString(s)|
    ensures DecodeString(EncodeString(s)[..k]).Err?
  {
    var n := EncodeInt(|s|);
    if k >= |n| {
      assert EncodeString(s)[..k] == n + s[..k - |n|];
      IntRoundTrip(|s|, s[..k - |n|]);
    } else if k > 0 {
      assert EncodeString(s)[..k][0] == n[0];
    }
  }
}
