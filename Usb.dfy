/** The Bulk-Only Transport session: command block wrappers with a per-session tag, writes
    and reads split into packet-sized device calls, the command/data/status sequence, and the
    status read with its single clear-halt retry.

    The raw device is abstract. A `Device` gives, for every call, how many bytes a write
    accepts and what a read delivers (or that it raised), as functions of the call's
    position in the trace; since every call has its own position, this stands for an
    arbitrary device. What the device did is recorded in the session's `trace`: each
    operation is proved to append exactly the events that a ghost function of the old state
    and the inputs describes, and the protocol's properties are lemmas about those functions. */
module Usb {
  import opened Bytes
  import opened Errors
  import opened Structs

  /** The `flags` byte of a command block wrapper: bit 7 set for device-to-host. */
  datatype TransferDirection = In | Out

  function Flag(d: TransferDirection): (r: byte)
    ensures r == 0x80 <==> d == In
    ensures r == 0x00 <==> d == Out
  {
    match d
    case In => 0x80
    case Out => 0x00
  }

  datatype ReadOutcome = Delivered(bytes: seq<byte>) | Raised

  /** One call on the raw device, with the device's answer. */
  datatype Event =
    | Write(offered: seq<byte>, accepted: nat)
    | Read(requested: nat, outcome: ReadOutcome)
    | ClearHalt

  /** A `wMaxPacketSize`, which USB requires to be positive. */
  type PacketSize = n: nat | n >= 1 witness 1

  /** What a read call of the raw device answers: an exception, or a packet. `Delivers` reads
      a packet as `first` followed by `more` (at least one byte); `Fills` reads it as `more`
      alone, so that it may be empty. */
  datatype Reply = Packet(first: byte, more: seq<byte>) | Fault

  /** The raw device: the `wMaxPacketSize` of its OUT and IN endpoints, and its answers to
      the call at each trace position. The answers are read through `Accepts`, `Delivers` and
      `Fills`, which keep them within what a working device can return. */
  datatype Device = Device(
    outPacketSize: PacketSize,
    inPacketSize: PacketSize,
    accept: (nat, seq<byte>) -> nat,
    deliver: (nat, nat) -> Reply)

  /** How many bytes of `chunk` the write call at trace position `k` accepts: none of an
      empty chunk, otherwise between one byte and the whole chunk. Every such count is the
      answer of some device. */
  function Accepts(dev: Device, k: nat, chunk: seq<byte>): (n: nat)
    ensures chunk == [] ==> n == 0
    ensures chunk != [] ==> 1 <= n <= |chunk|
  {
    if chunk == [] then 0 else 1 + dev.accept(k, chunk) % |chunk|
  }

  /** What the read call at trace position `k` asking for `n` bytes returns: an exception,
      or between one and `n` bytes (none when nothing was asked for). Every such outcome is
      the answer of some device. */
  function Delivers(dev: Device, k: nat, n: nat): (o: ReadOutcome)
    ensures o.Delivered? ==> |o.bytes| <= n && (n > 0 ==> |o.bytes| >= 1)
  {
    match dev.deliver(k, n)
    case Fault => Raised
    case Packet(b, more) => Delivered(([b] + more)[..Min(n, 1 + |more|)])
  }

  /** What the read call at trace position `k` into an `n`-byte buffer returns: an
      exception, or at most `n` bytes, possibly none (a zero-length packet). Every such outcome
      is the answer of some device. */
  function Fills(dev: Device, k: nat, n: nat): (o: ReadOutcome)
    ensures o.Delivered? ==> |o.bytes| <= n
  {
    match dev.deliver(k, n)
    case Fault => Raised
    case Packet(_, more) => Delivered(more[..Min(n, |more|)])
  }

  // ------------------------------------------------------------ command block wrapper

  const CBW_SIGNATURE: seq<byte> := [0x55, 0x53, 0x42, 0x43]  // "USBC"

  /** The wrapper `get_command_block_wrapper` builds from the tag counter's value. The
      command fills block_data from the front, zero-padded; more than 16 command bytes do not
      fit the ctypes array and raise. */
  function CommandBlockWrapperFor(command: seq<byte>, transferSize: int,
                                  direction: TransferDirection, tag: int)
    : (r: Result<CommandBlockWrapper>)
    ensures r.Ok? <==> |command| <= 16
    ensures r.Ok? ==> r.value.Valid()
  {
    if |command| > 16 then Err(CommandTooLong)
    else
      Ok(CommandBlockWrapper(CBW_SIGNATURE, Wrap32(tag), Wrap32(transferSize), Flag(direction),
                             0x00, 16, command + Zeros(16 - |command|)))
  }

  /** The bytes `get_command_block_wrapper` hands to `write`, or why it raised. */
  function WrapperBytes(command: seq<byte>, transferSize: int, direction: TransferDirection,
                        tag: int): (r: Result<seq<byte>>)
    ensures r.Ok? <==> |command| <= 16
    ensures r.Err? ==> r.error == CommandTooLong
    ensures r.Ok? ==> |r.value| == CBW_SIZE
  {
    match CommandBlockWrapperFor(command, transferSize, direction, tag)
    case Ok(c) => Ok(EncodeCbw(c))
    case Err(e) => Err(e)
  }

  /** The 31 bytes on the wire: "USBC", the tag and the transfer length (both truncated to
      32 bits, least significant byte first), the direction flag, lun 0, block length 16 and
      the command padded with zeros. */
  lemma CommandBlockWrapperBytes(command: seq<byte>, transferSize: int,
                                 direction: TransferDirection, tag: int)
    requires |command| <= 16
    ensures WrapperBytes(command, transferSize, direction, tag).Ok?
    ensures var b := WrapperBytes(command, transferSize, direction, tag).value;
      && |b| == 31
      && b[0..4] == [0x55, 0x53, 0x42, 0x43]
      && b[4..8] == LE32(Wrap32(tag))
      && b[8..12] == LE32(Wrap32(transferSize))
      && b[12] == (if direction == In then 0x80 else 0x00)
      && b[13] == 0 && b[14] == 16
      && b[15..15 + |command|] == command
      && (forall i :: 15 + |command| <= i < 31 ==> b[i] == 0)
  {
    var c := CommandBlockWrapperFor(command, transferSize, direction, tag).value;
    CbwLayout(c);
    var b := EncodeCbw(c);
    assert b[15..31] == command + Zeros(16 - |command|);
    assert b[15..15 + |command|] == b[15..31][..|command|];
    forall i | 15 + |command| <= i < 31 ensures b[i] == 0 {
      assert b[i] == b[15..31][i - 15];
    }
  }

  /** A receiver decoding those bytes gets the tag counter's value back for every counter
      value below 2^32, so 2^32 - 1 successive wrappers carry distinct tags. */
  lemma {:induction false} CommandBlockWrapperTagDecodes(command: seq<byte>, transferSize: int,
                                                        direction: TransferDirection, tag: nat)
    requires |command| <= 16 && tag < 0x1_0000_0000
    ensures var c := CommandBlockWrapperFor(command, transferSize, direction, tag);
      c.Ok? && DecodeCbw(EncodeCbw(c.value)) == c && c.value.tag == tag
  {
    CbwRoundTrip(CommandBlockWrapperFor(command, transferSize, direction, tag).value);
  }

  // ------------------------------------------------------------------------- writing

  /** The bytes of an event the device took. */
  function AcceptedPart(e: Event): seq<byte>
  {
    if e.Write? then e.offered[..Min(e.accepted, |e.offered|)] else []
  }

  function Accepted(events: seq<Event>): seq<byte>
  {
    if events == [] then [] else AcceptedPart(events[0]) + Accepted(events[1..])
  }

  /** The device calls `IT8951_USB.write(data)` makes, from trace position `k` on: offer at
      most one packet of what is left, drop what the device accepted, and go on until nothing
      is left and at least one call was made. */
  ghost function WriteRun(dev: Device, k: nat, data: seq<byte>, wroteOnce: bool): seq<Event>
    decreases |data|, if wroteOnce then 0 else 1
  {
    if data == [] && wroteOnce then []
    else
      var chunk := data[..Min(dev.outPacketSize, |data|)];
      var n := Accepts(dev, k, chunk);
      [Write(chunk, n)] + WriteRun(dev, k + 1, data[n..], true)
  }

  /** A write call that offered at most one packet and was accepted at most in full. */
  ghost predicate PacketSized(dev: Device, e: Event)
  {
    e.Write? && |e.offered| <= dev.outPacketSize && e.accepted <= |e.offered|
  }

  /** Every event of the segment is a write call. */
  ghost predicate AllWrites(events: seq<Event>)
  {
    events == [] || (events[0].Write? && AllWrites(events[1..]))
  }

  lemma {:induction false} AllWritesAppend(a: seq<Event>, b: seq<Event>)
    requires AllWrites(a) && AllWrites(b)
    ensures AllWrites(a + b)
  {
    if a != [] {
      assert (a + b)[1..] == a[1..] + b;
      AllWritesAppend(a[1..], b);
    } else {
      assert a + b == b;
    }
  }

  /** Every call writes and offers at most one packet, and offers a non-empty chunk unless
      the payload is empty; an empty payload is written by precisely one empty call. */
  lemma {:induction false} WriteRunChunks(dev: Device, k: nat, data: seq<byte>, wroteOnce: bool)
    ensures forall e <- WriteRun(dev, k, data, wroteOnce) :: PacketSized(dev, e)
    ensures data != [] ==> forall e <- WriteRun(dev, k, data, wroteOnce) :: e.Write? && e.offered != []
    ensures data == [] && !wroteOnce ==> WriteRun(dev, k, data, wroteOnce) == [Write([], 0)]
    decreases |data|, if wroteOnce then 0 else 1
  {
    if !(data == [] && wroteOnce) {
      var chunk := data[..Min(dev.outPacketSize, |data|)];
      var n := Accepts(dev, k, chunk);
      WriteRunChunks(dev, k + 1, data[n..], true);
      if data == [] {
        assert WriteRun(dev, k + 1, data[n..], true) == [];
      }
    }
  }

  /** A write makes write calls only, and at least one. */
  lemma {:induction false} WriteRunAllWrites(dev: Device, k: nat, data: seq<byte>, wroteOnce: bool)
    ensures AllWrites(WriteRun(dev, k, data, wroteOnce))
    ensures !wroteOnce ==> |WriteRun(dev, k, data, wroteOnce)| >= 1
    decreases |data|, if wroteOnce then 0 else 1
  {
    if !(data == [] && wroteOnce) {
      var chunk := data[..Min(dev.outPacketSize, |data|)];
      var n := Accepts(dev, k, chunk);
      var rest := WriteRun(dev, k + 1, data[n..], true);
      WriteRunAllWrites(dev, k + 1, data[n..], true);
      AllWritesAppend([Write(chunk, n)], rest);
    }
  }

  lemma {:induction false} AcceptedAppend(a: seq<Event>, b: seq<Event>)
    ensures Accepted(a + b) == Accepted(a) + Accepted(b)
  {
    if a != [] {
      assert (a + b)[1..] == a[1..] + b;
      AcceptedAppend(a[1..], b);
    } else {
      assert a + b == b;
    }
  }

  /** The prefixes the device accepted, in order, make up the payload exactly. */
  lemma {:induction false} WriteRunDelivers(dev: Device, k: nat, data: seq<byte>, wroteOnce: bool)
    ensures Accepted(WriteRun(dev, k, data, wroteOnce)) == data
    decreases |data|, if wroteOnce then 0 else 1
  {
    if !(data == [] && wroteOnce) {
      var chunk := data[..Min(dev.outPacketSize, |data|)];
      var n := Accepts(dev, k, chunk);
      var rest := WriteRun(dev, k + 1, data[n..], true);
      WriteRunDelivers(dev, k + 1, data[n..], true);
      AcceptedAppend([Write(chunk, n)], rest);
      assert Accepted([Write(chunk, n)]) == chunk[..n] + Accepted([]);
      assert data == chunk[..n] + data[n..];
    }
  }

  // ------------------------------------------------------------------------- reading

  datatype ReadRun = ReadRun(events: seq<Event>, result: Result<seq<byte>>)

  function DeliveredPart(e: Event): seq<byte>
  {
    if e.Read? && e.outcome.Delivered? then e.outcome.bytes else []
  }

  function DeliveredBytes(events: seq<Event>): seq<byte>
  {
    if events == [] then [] else DeliveredPart(events[0]) + DeliveredBytes(events[1..])
  }

  /** The device calls `IT8951_USB.read(size)` makes, from trace position `k` on, having
      collected `got` so far: ask for at most one packet of what is missing, append what
      arrives, stop when nothing is missing; a read that raises ends the run with the fault. */
  ghost function ReadLoop(dev: Device, k: nat, size: nat, got: seq<byte>): ReadRun
    requires |got| <= size
    decreases size - |got|
  {
    if |got| == size then ReadRun([], Ok(got))
    else
      var n := Min(dev.inPacketSize, size - |got|);
      var o := Delivers(dev, k, n);
      if o.Raised? then ReadRun([Read(n, o)], Err(TransportFault))
      else
        var rest := ReadLoop(dev, k + 1, size, got + o.bytes);
        ReadRun([Read(n, o)] + rest.events, rest.result)
  }

  /** One call of the read loop. */
  lemma ReadLoopStep(dev: Device, k: nat, size: nat, got: seq<byte>, n: nat, o: ReadOutcome)
    requires |got| < size && n == Min(dev.inPacketSize, size - |got|) && o == Delivers(dev, k, n)
    ensures o.Raised? ==> ReadLoop(dev, k, size, got) == ReadRun([Read(n, o)], Err(TransportFault))
    ensures o.Delivered? ==>
      && |got + o.bytes| <= size
      && ReadLoop(dev, k, size, got).events
         == [Read(n, o)] + ReadLoop(dev, k + 1, size, got + o.bytes).events
      && ReadLoop(dev, k, size, got).result == ReadLoop(dev, k + 1, size, got + o.bytes).result
  {
  }

  /** A read started on trace `t0` has reached trace `t` having collected `got`: what is
      still to come completes the run that started on `t0`. */
  ghost predicate ReadingFrom(dev: Device, t0: seq<Event>, size: nat, t: seq<Event>, got: seq<byte>)
  {
    && |got| <= size
    && t0 + ReadLoop(dev, |t0|, size, []).events == t + ReadLoop(dev, |t|, size, got).events
    && ReadLoop(dev, |t0|, size, []).result == ReadLoop(dev, |t|, size, got).result
  }

  /** One call of the read loop keeps `ReadingFrom`, or ends the run with the fault. */
  lemma ReadLoopAdvance(dev: Device, t0: seq<Event>, size: nat, t: seq<Event>, got: seq<byte>,
                        n: nat, o: ReadOutcome)
    requires ReadingFrom(dev, t0, size, t, got) && |got| < size
    requires n == Min(dev.inPacketSize, size - |got|) && o == Delivers(dev, |t|, n)
    ensures o.Raised? ==>
      && t + [Read(n, o)] == t0 + ReadLoop(dev, |t0|, size, []).events
      && ReadLoop(dev, |t0|, size, []).result == Err(TransportFault)
    ensures o.Delivered? ==> ReadingFrom(dev, t0, size, t + [Read(n, o)], got + o.bytes)
  {
    ReadLoopStep(dev, |t|, size, got, n, o);
    if o.Delivered? {
      AppendAssoc(t, [Read(n, o)], ReadLoop(dev, |t| + 1, size, got + o.bytes).events);
    }
  }

  lemma {:induction false} DeliveredBytesAppend(a: seq<Event>, b: seq<Event>)
    ensures DeliveredBytes(a + b) == DeliveredBytes(a) + DeliveredBytes(b)
  {
    if a != [] {
      assert (a + b)[1..] == a[1..] + b;
      DeliveredBytesAppend(a[1..], b);
    } else {
      assert a + b == b;
    }
  }

  /** A successful read returns exactly `size` bytes, namely everything the device
      delivered, in order. */
  lemma {:induction false} ReadLoopExact(dev: Device, k: nat, size: nat, got: seq<byte>)
    requires |got| <= size
    ensures var r := ReadLoop(dev, k, size, got);
      r.result.Ok? ==> |r.result.value| == size && r.result.value == got + DeliveredBytes(r.events)
    decreases size - |got|
  {
    if |got| < size {
      var n := Min(dev.inPacketSize, size - |got|);
      var o := Delivers(dev, k, n);
      if o.Delivered? {
        var rest := ReadLoop(dev, k + 1, size, got + o.bytes);
        ReadLoopExact(dev, k + 1, size, got + o.bytes);
        DeliveredBytesAppend([Read(n, o)], rest.events);
        assert DeliveredBytes([Read(n, o)]) == o.bytes;
      }
    }
  }

  /** A read fails exactly when its last device call raised, every earlier call having
      delivered; a read of a positive size makes at least one call. */
  lemma {:induction false} ReadLoopFailure(dev: Device, k: nat, size: nat, got: seq<byte>)
    requires |got| <= size
    ensures var r := ReadLoop(dev, k, size, got);
      && (r.result.Err? <==> r.events != [] && r.events[|r.events| - 1].Read?
                             && r.events[|r.events| - 1].outcome.Raised?)
      && (forall i :: 0 <= i < |r.events| - 1 ==> r.events[i].Read? && r.events[i].outcome.Delivered?)
      && (|got| < size ==> r.events != [])
    decreases size - |got|
  {
    if |got| < size {
      var n := Min(dev.inPacketSize, size - |got|);
      var o := Delivers(dev, k, n);
      if o.Delivered? {
        var rest := ReadLoop(dev, k + 1, size, got + o.bytes);
        ReadLoopFailure(dev, k + 1, size, got + o.bytes);
        assert ReadLoop(dev, k, size, got).events == [Read(n, o)] + rest.events;
      }
    }
  }

  /** Call `i` of a read that had collected `got` before its first call asks for
      min(packet size, bytes still missing), which is at least one byte and at most one
      packet. */
  ghost predicate AsksForMissing(dev: Device, size: nat, got: seq<byte>, events: seq<Event>, i: nat)
    requires i < |events|
  {
    var missing := size - |got + DeliveredBytes(events[..i])|;
    && events[i].Read?
    && missing > 0
    && events[i].requested == Min(dev.inPacketSize, missing)
    && 1 <= events[i].requested <= dev.inPacketSize
  }

  /** A call after a first delivering call asks for what was missing once that call's bytes
      are counted. */
  lemma AsksForMissingShift(dev: Device, size: nat, got: seq<byte>, n: nat, o: ReadOutcome,
                            rest: seq<Event>, i: nat)
    requires o.Delivered? && 0 < i <= |rest|
    requires AsksForMissing(dev, size, got + o.bytes, rest, i - 1)
    ensures AsksForMissing(dev, size, got, [Read(n, o)] + rest, i)
  {
    var events := [Read(n, o)] + rest;
    assert events[i] == rest[i - 1];
    assert events[..i] == [Read(n, o)] + rest[..i - 1];
    DeliveredBytesAppend([Read(n, o)], rest[..i - 1]);
    assert DeliveredBytes([Read(n, o)]) == o.bytes;
    assert got + DeliveredBytes(events[..i]) == (got + o.bytes) + DeliveredBytes(rest[..i - 1]);
  }

  lemma {:induction false} ReadLoopRequests(dev: Device, k: nat, size: nat, got: seq<byte>)
    requires |got| <= size
    ensures forall i :: 0 <= i < |ReadLoop(dev, k, size, got).events| ==>
      AsksForMissing(dev, size, got, ReadLoop(dev, k, size, got).events, i)
    decreases size - |got|
  {
    var r := ReadLoop(dev, k, size, got);
    if |got| < size {
      var n := Min(dev.inPacketSize, size - |got|);
      var o := Delivers(dev, k, n);
      if o.Delivered? {
        var rest := ReadLoop(dev, k + 1, size, got + o.bytes);
        ReadLoopRequests(dev, k + 1, size, got + o.bytes);
        assert r.events == [Read(n, o)] + rest.events;
        forall i | 0 <= i < |r.events|
          ensures AsksForMissing(dev, size, got, r.events, i)
        {
          if i > 0 {
            AsksForMissingShift(dev, size, got, n, o, rest.events, i);
          } else {
            assert r.events[0] == Read(n, o);
            assert r.events[..i] == [];
          }
        }
      } else {
        assert r.events == [Read(n, o)];
        assert r.events[..0] == [];
        assert AsksForMissing(dev, size, got, r.events, 0);
      }
    }
  }

  // ------------------------------------------------------------------ status wrapper

  datatype StatusRun = StatusRun(events: seq<Event>, status: Option<CommandStatusWrapper>)

  /** `CommandStatusWrapper.from_buffer`, with its failure absorbed as an absent status. */
  function DecodeStatus(buf: seq<byte>): (r: Option<CommandStatusWrapper>)
    ensures r.Some? <==> |buf| >= CSW_SIZE
  {
    match DecodeCsw(buf)
    case Ok(c) => Some(c)
    case Err(_) => None
  }

  /** The first 13-byte read of `send_status_block_wrapper` started at trace position `k`. */
  ghost function FirstRead(dev: Device, k: nat): ReadRun
  {
    ReadLoop(dev, k, CSW_SIZE, [])
  }

  /** The retry read, after the first read and the clear-halt call. */
  ghost function RetryRead(dev: Device, k: nat): ReadRun
  {
    ReadLoop(dev, k + |FirstRead(dev, k).events| + 1, CSW_SIZE, [])
  }

  /** `send_status_block_wrapper` from trace position `k`: read 13 bytes; if that raises,
      clear the halt on the IN endpoint and read 13 bytes once more; decode what was read. A
      second fault gives an absent status instead of an exception. */
  ghost function StatusRetrieval(dev: Device, k: nat): StatusRun
  {
    var first := FirstRead(dev, k);
    if first.result.Ok? then StatusRun(first.events, DecodeStatus(first.result.value))
    else
      var second := RetryRead(dev, k);
      StatusRun(first.events + [ClearHalt] + second.events,
                if second.result.Ok? then DecodeStatus(second.result.value) else None)
  }

  function ClearHalts(events: seq<Event>): nat
  {
    if events == [] then 0 else (if events[0].ClearHalt? then 1 else 0) + ClearHalts(events[1..])
  }

  lemma {:induction false} ClearHaltsAppend(a: seq<Event>, b: seq<Event>)
    ensures ClearHalts(a + b) == ClearHalts(a) + ClearHalts(b)
  {
    if a != [] {
      assert (a + b)[1..] == a[1..] + b;
      ClearHaltsAppend(a[1..], b);
    } else {
      assert a + b == b;
    }
  }

  lemma {:induction false} ReadLoopHasNoClearHalt(dev: Device, k: nat, size: nat, got: seq<byte>)
    requires |got| <= size
    ensures ClearHalts(ReadLoop(dev, k, size, got).events) == 0
    decreases size - |got|
  {
    if |got| < size {
      var n := Min(dev.inPacketSize, size - |got|);
      var o := Delivers(dev, k, n);
      if o.Delivered? {
        var rest := ReadLoop(dev, k + 1, size, got + o.bytes);
        ReadLoopHasNoClearHalt(dev, k + 1, size, got + o.bytes);
        ClearHaltsAppend([Read(n, o)], rest.events);
      }
    }
  }

  lemma FirstReadHasNoClearHalt(dev: Device, k: nat)
    ensures ClearHalts(FirstRead(dev, k).events) == 0
  {
    ReadLoopHasNoClearHalt(dev, k, CSW_SIZE, []);
  }

  lemma RetryReadHasNoClearHalt(dev: Device, k: nat)
    ensures ClearHalts(RetryRead(dev, k).events) == 0
  {
    ReadLoopHasNoClearHalt(dev, k + |FirstRead(dev, k).events| + 1, CSW_SIZE, []);
  }

  /** A clear-halt call between two segments that have none. */
  lemma RetryClearHalts(a: seq<Event>, b: seq<Event>)
    requires ClearHalts(a) == 0 && ClearHalts(b) == 0
    ensures ClearHalts(a + [ClearHalt] + b) == 1
    ensures (a + [ClearHalt] + b)[..|a|] == a && (a + [ClearHalt] + b)[|a|] == ClearHalt
  {
    ClearHaltsAppend(a, [ClearHalt]);
    ClearHaltsAppend(a + [ClearHalt], b);
  }

  /** The halt is cleared exactly once, right after the first read, if that read raised,
      and never otherwise. */
  lemma StatusClearsHaltOnce(dev: Device, k: nat)
    ensures ClearHalts(StatusRetrieval(dev, k).events)
            == (if FirstRead(dev, k).result.Err? then 1 else 0)
    ensures StatusRetrieval(dev, k).events[..|FirstRead(dev, k).events|] == FirstRead(dev, k).events
    ensures FirstRead(dev, k).result.Err? ==>
              StatusRetrieval(dev, k).events[|FirstRead(dev, k).events|] == ClearHalt
  {
    FirstReadHasNoClearHalt(dev, k);
    if FirstRead(dev, k).result.Err? {
      RetryReadHasNoClearHalt(dev, k);
      RetryClearHalts(FirstRead(dev, k).events, RetryRead(dev, k).events);
    }
  }

  /** The status is absent exactly when both reads raised; otherwise it is the status
      wrapper whose 13 bytes the successful read returned. */
  lemma StatusAbsentIffBothReadsRaise(dev: Device, k: nat)
    ensures StatusRetrieval(dev, k).status.None?
            <==> FirstRead(dev, k).result.Err? && RetryRead(dev, k).result.Err?
    ensures FirstRead(dev, k).result.Ok? ==>
              && StatusRetrieval(dev, k).status.Some?
              && StatusRetrieval(dev, k).status.value.Valid()
              && EncodeCsw(StatusRetrieval(dev, k).status.value) == FirstRead(dev, k).result.value
    ensures FirstRead(dev, k).result.Err? && RetryRead(dev, k).result.Ok? ==>
              && StatusRetrieval(dev, k).status.Some?
              && StatusRetrieval(dev, k).status.value.Valid()
              && EncodeCsw(StatusRetrieval(dev, k).status.value) == RetryRead(dev, k).result.value
  {
    ReadLoopExact(dev, k, CSW_SIZE, []);
    if FirstRead(dev, k).result.Ok? {
      CswBytesRoundTrip(FirstRead(dev, k).result.value);
    } else {
      ReadLoopExact(dev, k + |FirstRead(dev, k).events| + 1, CSW_SIZE, []);
      if RetryRead(dev, k).result.Ok? {
        CswBytesRoundTrip(RetryRead(dev, k).result.value);
      }
    }
  }

  // ---------------------------------------------------------------- command sequences

  /** `array('B', [0] * size)` after the device wrote `got` into its front. */
  function FillBuffer(got: seq<byte>, size: nat): (r: seq<byte>)
    ensures |r| == size
    ensures |got| <= size ==> r[..|got|] == got && r[|got|..] == Zeros(size - |got|)
  {
    if |got| <= size then got + Zeros(size - |got|) else got[..size]
  }

  /** `read_command` from trace position `k` once the wrapper's bytes `w` are built: write
      them, then make one device read into a `size`-byte buffer. */
  ghost function ReadCommandRun(dev: Device, k: nat, w: seq<byte>, size: nat): ReadRun
  {
    var sent := WriteRun(dev, k, w, false);
    var o := Fills(dev, k + |sent|, size);
    ReadRun(sent + [Read(size, o)],
            if o.Raised? then Err(TransportFault) else Ok(FillBuffer(o.bytes, size)))
  }

  /** The number of leading write calls of a trace segment. */
  function LeadingWrites(events: seq<Event>): (n: nat)
    ensures n <= |events|
  {
    if events != [] && events[0].Write? then 1 + LeadingWrites(events[1..]) else 0
  }

  lemma {:induction false} LeadingWritesAppend(a: seq<Event>, b: seq<Event>)
    requires AllWrites(a)
    requires b == [] || !b[0].Write?
    ensures LeadingWrites(a + b) == |a| && (a + b)[..|a|] == a && (a + b)[|a|..] == b
  {
    if a != [] {
      assert (a + b)[1..] == a[1..] + b;
      LeadingWritesAppend(a[1..], b);
    } else {
      assert a + b == b;
    }
  }

  lemma {:induction false} WritesHaveNoClearHalt(events: seq<Event>)
    requires AllWrites(events)
    ensures ClearHalts(events) == 0
  {
    if events != [] {
      WritesHaveNoClearHalt(events[1..]);
    }
  }

  /** A run of writes followed by one read. */
  lemma WritesThenRead(a: seq<Event>, r: Event)
    requires AllWrites(a) && r.Read?
    ensures LeadingWrites(a + [r]) == |a| && (a + [r])[..|a|] == a && (a + [r])[|a|] == r
    ensures |a + [r]| == |a| + 1 && ClearHalts(a + [r]) == 0
  {
    LeadingWritesAppend(a, [r]);
    ClearHaltsAppend(a, [r]);
    WritesHaveNoClearHalt(a);
  }

  /** `read_command` writes the wrapper and then makes exactly one read, of `size` bytes,
      and no status read; what it hands to the decoder is always a full `size`-byte buffer
      whose front is what the device delivered. */
  lemma ReadCommandShape(dev: Device, k: nat, w: seq<byte>, size: nat)
    ensures |ReadCommandRun(dev, k, w, size).events|
            == LeadingWrites(ReadCommandRun(dev, k, w, size).events) + 1
    ensures Accepted(ReadCommandRun(dev, k, w, size).events
                       [..LeadingWrites(ReadCommandRun(dev, k, w, size).events)]) == w
    ensures ReadCommandRun(dev, k, w, size).events[LeadingWrites(ReadCommandRun(dev, k, w, size).events)]
            == Read(size, Fills(dev, k + LeadingWrites(ReadCommandRun(dev, k, w, size).events), size))
    ensures ClearHalts(ReadCommandRun(dev, k, w, size).events) == 0
    ensures ReadCommandRun(dev, k, w, size).result.Err?
            <==> Fills(dev, k + LeadingWrites(ReadCommandRun(dev, k, w, size).events), size).Raised?
    ensures ReadCommandRun(dev, k, w, size).result.Ok? ==>
              && |ReadCommandRun(dev, k, w, size).result.value| == size
              && ReadCommandRun(dev, k, w, size).result.value
                 == FillBuffer(Fills(dev, k + LeadingWrites(ReadCommandRun(dev, k, w, size).events),
                                        size).bytes, size)
  {
    var sent := WriteRun(dev, k, w, false);
    var o := Fills(dev, k + |sent|, size);
    var run := ReadCommandRun(dev, k, w, size);
    assert run.events == sent + [Read(size, o)];
    WriteRunAllWrites(dev, k, w, false);
    WriteRunDelivers(dev, k, w, false);
    WritesThenRead(sent, Read(size, o));
    assert LeadingWrites(run.events) == |sent|;
    assert run.result == if o.Raised? then Err(TransportFault) else Ok(FillBuffer(o.bytes, size));
  }

  /** A zero-length response leaves the buffer as allocated: `read_command` decodes `size`
      zero bytes. */
  lemma ZeroLengthResponse(dev: Device, k: nat, w: seq<byte>, size: nat)
    requires Fills(dev, k + |WriteRun(dev, k, w, false)|, size) == Delivered([])
    ensures ReadCommandRun(dev, k, w, size).result == Ok(Zeros(size))
  {
    assert FillBuffer([], size) == Zeros(size);
  }

  /** `write_command` from trace position `k` once the wrapper's bytes `w` are built: write
      them, then `bulk`, then retrieve the status. */
  ghost function WriteCommandRun(dev: Device, k: nat, w: seq<byte>, bulk: seq<byte>): StatusRun
  {
    var sentWrapper := WriteRun(dev, k, w, false);
    var sentBulk := WriteRun(dev, k + |sentWrapper|, bulk, false);
    var status := StatusRetrieval(dev, k + |sentWrapper| + |sentBulk|);
    StatusRun(sentWrapper + sentBulk + status.events, status.status)
  }

  lemma FirstReadStartsWithRead(dev: Device, k: nat)
    ensures FirstRead(dev, k).events != [] && FirstRead(dev, k).events[0].Read?
  {
  }

  lemma StatusStartsWithRead(dev: Device, k: nat)
    ensures StatusRetrieval(dev, k).events != [] && StatusRetrieval(dev, k).events[0].Read?
  {
    FirstReadStartsWithRead(dev, k);
    if FirstRead(dev, k).result.Err? {
      assert StatusRetrieval(dev, k).events[0]
             == (FirstRead(dev, k).events + ([ClearHalt] + RetryRead(dev, k).events))[0];
    }
  }

  /** A trace segment whose leading write calls accepted `sent`, followed by `rest`. */
  ghost predicate WritesThen(events: seq<Event>, sent: seq<byte>, rest: seq<Event>)
  {
    && Accepted(events[..LeadingWrites(events)]) == sent
    && events[LeadingWrites(events)..] == rest
  }

  /** Two runs of writes followed by a segment that starts with a read. */
  lemma WritesThenRest(a: seq<Event>, b: seq<Event>, rest: seq<Event>)
    requires AllWrites(a) && AllWrites(b)
    requires rest != [] && rest[0].Read?
    ensures LeadingWrites(a + b + rest) == |a| + |b|
    ensures WritesThen(a + b + rest, Accepted(a) + Accepted(b), rest)
  {
    AllWritesAppend(a, b);
    LeadingWritesAppend(a + b, rest);
    AcceptedAppend(a, b);
  }

  /** The trace segment of a command started at position `k` is a run of writes whose
      accepted bytes are `sent`, followed by the status retrieval, whose status is the
      command's result. */
  ghost predicate SendsThenRetrievesStatus(dev: Device, k: nat, run: StatusRun, sent: seq<byte>)
  {
    && WritesThen(run.events, sent, StatusRetrieval(dev, k + LeadingWrites(run.events)).events)
    && run.status == StatusRetrieval(dev, k + LeadingWrites(run.events)).status
  }

  /** The writes of `write_command` followed by a status retrieval, for any two write
      runs. */
  lemma WritesThenStatus(dev: Device, k: nat, a: seq<Event>, b: seq<Event>, k2: nat)
    requires AllWrites(a) && AllWrites(b) && k2 == k + |a| + |b|
    ensures SendsThenRetrievesStatus(dev, k, StatusRun(a + b + StatusRetrieval(dev, k2).events,
                                                       StatusRetrieval(dev, k2).status),
                                     Accepted(a) + Accepted(b))
  {
    StatusStartsWithRead(dev, k2);
    WritesThenRest(a, b, StatusRetrieval(dev, k2).events);
    SendsAt(dev, k, k2, StatusRun(a + b + StatusRetrieval(dev, k2).events, StatusRetrieval(dev, k2).status),
            Accepted(a) + Accepted(b));
  }

  /** Substitutes the position of the status retrieval into `SendsThenRetrievesStatus`. */
  lemma SendsAt(dev: Device, k: nat, k2: nat, run: StatusRun, sent: seq<byte>)
    requires k + LeadingWrites(run.events) == k2
    requires WritesThen(run.events, sent, StatusRetrieval(dev, k2).events)
    requires run.status == StatusRetrieval(dev, k2).status
    ensures SendsThenRetrievesStatus(dev, k, run, sent)
  {
  }

  /** `write_command` sends the wrapper's bytes followed by `bulk`, and after the last write
      comes the status retrieval, whose status it returns. */
  lemma WriteCommandOrder(dev: Device, k: nat, w: seq<byte>, bulk: seq<byte>)
    ensures SendsThenRetrievesStatus(dev, k, WriteCommandRun(dev, k, w, bulk), w + bulk)
  {
    var k1 := k + |WriteRun(dev, k, w, false)|;
    WriteCommandOrderAt(dev, k, k1, k1 + |WriteRun(dev, k1, bulk, false)|, w, bulk);
  }

  lemma WriteCommandOrderAt(dev: Device, k0: nat, k1: nat, k2: nat, w: seq<byte>, bulk: seq<byte>)
    requires k1 == k0 + |WriteRun(dev, k0, w, false)|
    requires k2 == k1 + |WriteRun(dev, k1, bulk, false)|
    ensures SendsThenRetrievesStatus(dev, k0, WriteCommandRun(dev, k0, w, bulk), w + bulk)
  {
    WriteCommandRunSplit(dev, k0, k1, k2, w, bulk);
    WriteRunAllWrites(dev, k0, w, false);
    WriteRunAllWrites(dev, k1, bulk, false);
    WriteRunDelivers(dev, k0, w, false);
    WriteRunDelivers(dev, k1, bulk, false);
    WritesThenStatus(dev, k0, WriteRun(dev, k0, w, false), WriteRun(dev, k1, bulk, false), k2);
  }

  /** The segments of a command run, named by the trace positions where they start. */
  lemma WriteCommandRunSplit(dev: Device, k0: nat, k1: nat, k2: nat, w: seq<byte>, bulk: seq<byte>)
    requires k1 == k0 + |WriteRun(dev, k0, w, false)|
    requires k2 == k1 + |WriteRun(dev, k1, bulk, false)|
    ensures WriteCommandRun(dev, k0, w, bulk)
            == StatusRun(WriteRun(dev, k0, w, false) + WriteRun(dev, k1, bulk, false)
                           + StatusRetrieval(dev, k2).events,
                         StatusRetrieval(dev, k2).status)
  {
    var sentWrapper := WriteRun(dev, k0, w, false);
    assert k0 + |sentWrapper| == k1;
    var sentBulk := WriteRun(dev, k1, bulk, false);
    assert k1 + |sentBulk| == k2;
  }

  /** The segments of `read_command`, named by the trace positions where they start. */
  lemma ReadCommandRunSplit(dev: Device, k0: nat, k1: nat, w: seq<byte>, size: nat)
    requires k1 == k0 + |WriteRun(dev, k0, w, false)|
    ensures ReadCommandRun(dev, k0, w, size)
            == ReadRun(WriteRun(dev, k0, w, false) + [Read(size, Fills(dev, k1, size))],
                       if Fills(dev, k1, size).Raised? then Err(TransportFault)
                       else Ok(FillBuffer(Fills(dev, k1, size).bytes, size)))
  {
  }

  /** The segments of the status retrieval, named by the trace positions where they start. */
  lemma StatusRetrievalSplit(dev: Device, k0: nat, k1: nat)
    requires k1 == k0 + |FirstRead(dev, k0).events|
    ensures FirstRead(dev, k0) == ReadLoop(dev, k0, CSW_SIZE, [])
    ensures RetryRead(dev, k0) == ReadLoop(dev, k1 + 1, CSW_SIZE, [])
    ensures FirstRead(dev, k0).result.Ok? ==>
      StatusRetrieval(dev, k0)
      == StatusRun(FirstRead(dev, k0).events, DecodeStatus(FirstRead(dev, k0).result.value))
    ensures FirstRead(dev, k0).result.Err? ==>
      StatusRetrieval(dev, k0)
      == StatusRun(FirstRead(dev, k0).events + [ClearHalt] + RetryRead(dev, k0).events,
                   if RetryRead(dev, k0).result.Ok? then DecodeStatus(RetryRead(dev, k0).result.value)
                   else None)
  {
  }

  lemma AppendAssoc(a: seq<Event>, b: seq<Event>, c: seq<Event>)
    ensures a + (b + c) == a + b + c
  {
  }

  /** Appending three segments one after the other appends their concatenation. */
  lemma AppendThree(t: seq<Event>, a: seq<Event>, b: seq<Event>, c: seq<Event>)
    ensures t + a + b + c == t + (a + b + c)
  {
  }

  // ------------------------------------------------------------------- command log

  /** What the host asked of the controller in one command: a query of `length` bytes
      (`read_command`) or a command with its bulk data (`write_command`). */
  datatype Request = Query(block: seq<byte>, length: nat) | Send(block: seq<byte>, bulk: seq<byte>)

  /** One command of the session: a query, or a command with the status that came back. */
  datatype CommandRecord =
    | ReadRecord(block: seq<byte>, length: nat)
    | WriteRecord(block: seq<byte>, bulk: seq<byte>, status: Option<CommandStatusWrapper>)

  function RequestOf(c: CommandRecord): Request
  {
    match c
    case ReadRecord(block, length) => Query(block, length)
    case WriteRecord(block, bulk, _) => Send(block, bulk)
  }

  /** The requests of a run of commands, in order. */
  function Requests(cs: seq<CommandRecord>): (r: seq<Request>)
    ensures |r| == |cs|
  {
    if cs == [] then [] else [RequestOf(cs[0])] + Requests(cs[1..])
  }

  lemma {:induction false} RequestsAppend(a: seq<CommandRecord>, b: seq<CommandRecord>)
    ensures Requests(a + b) == Requests(a) + Requests(b)
  {
    if a != [] {
      assert (a + b)[1..] == a[1..] + b;
      RequestsAppend(a[1..], b);
    } else {
      assert a + b == b;
    }
  }

  // ------------------------------------------------------------------------- session

  /** An `IT8951_USB` connection together with the tag counter, which the source keeps as a
      module global and which here belongs to the session. */
  class Transport {
    const dev: Device
    var tag: nat
    var trace: seq<Event>
    /** The counter values the wrappers of this session took, in order. */
    ghost var issued: seq<nat>
    /** The commands of this session, in the order they were issued. */
    ghost var commands: seq<CommandRecord>

    /** The counter started at 1 and every wrapper took its current value and advanced it by
        one, so the issued values are 1, 2, 3, ... without gaps or repeats. */
    ghost predicate Valid()
      reads this
    {
      tag == |issued| + 1 && forall i :: 0 <= i < |issued| ==> issued[i] == i + 1
    }

    constructor (dev: Device)
      ensures this.dev == dev && Valid()
      ensures tag == 1 && trace == [] && issued == [] && commands == []
    {
      this.dev := dev;
      tag := 1;
      trace := [];
      issued := [];
      commands := [];
    }

    /** `dev.write(out_endpoint, chunk, timeout)`. */
    method DeviceWrite(chunk: seq<byte>) returns (n: nat)
      modifies this`trace
      ensures n == Accepts(dev, |old(trace)|, chunk)
      ensures trace == old(trace) + [Event.Write(chunk, n)]
    {
      n := Accepts(dev, |trace|, chunk);
      trace := trace + [Event.Write(chunk, n)];
    }

    /** `dev.read(in_endpoint, n, timeout)`; `Raised` stands for the exception. */
    method DeviceRead(n: nat) returns (o: ReadOutcome)
      modifies this`trace
      ensures o == Delivers(dev, |old(trace)|, n)
      ensures trace == old(trace) + [Event.Read(n, o)]
    {
      o := Delivers(dev, |trace|, n);
      trace := trace + [Event.Read(n, o)];
    }

    /** `dev.read(in_endpoint, buffer)`: a read into an `n`-byte buffer. */
    method DeviceReadInto(n: nat) returns (o: ReadOutcome)
      modifies this`trace
      ensures o == Fills(dev, |old(trace)|, n)
      ensures trace == old(trace) + [Event.Read(n, o)]
    {
      o := Fills(dev, |trace|, n);
      trace := trace + [Event.Read(n, o)];
    }

    /** `clear_halt(in_endpoint)`. */
    method ClearInHalt()
      modifies this`trace
      ensures trace == old(trace) + [ClearHalt]
    {
      trace := trace + [ClearHalt];
    }

    /** `get_command_block_wrapper`: the wrapper takes the counter's value, and the counter
        advances only when the wrapper could be built. */
    method GetCommandBlockWrapper(command: seq<byte>, transferSize: int,
                                  direction: TransferDirection)
      returns (r: Result<CommandBlockWrapper>)
      requires Valid()
      modifies this`tag, this`issued
      ensures Valid()
      ensures r == CommandBlockWrapperFor(command, transferSize, direction, old(tag))
      ensures r.Ok? ==> tag == old(tag) + 1 && issued == old(issued) + [old(tag)]
      ensures r.Err? ==> tag == old(tag) && issued == old(issued)
    {
      r := CommandBlockWrapperFor(command, transferSize, direction, tag);
      if r.Ok? {
        issued := issued + [tag];
        tag := tag + 1;
      }
    }

    /** `IT8951_USB.write`: returns the number of bytes written, which is all of them. */
    method Write(data: seq<byte>) returns (written: nat)
      modifies this`trace
      ensures written == |data|
      ensures trace == old(trace) + WriteRun(dev, |old(trace)|, data, false)
    {
      var rest := data;
      var wroteOnce := false;
      written := 0;
      while rest != [] || !wroteOnce
        invariant written + |rest| == |data|
        invariant old(trace) + WriteRun(dev, |old(trace)|, data, false)
                  == trace + WriteRun(dev, |trace|, rest, wroteOnce)
        decreases |rest|, if wroteOnce then 0 else 1
      {
        var chunk := rest[..Min(dev.outPacketSize, |rest|)];
        var n := DeviceWrite(chunk);
        rest := rest[n..];
        wroteOnce := true;
        written := written + n;
      }
    }

    /** `IT8951_USB.read`: a device fault propagates as `TransportFault`. */
    method Read(size: nat) returns (r: Result<seq<byte>>)
      modifies this`trace
      ensures trace == old(trace) + ReadLoop(dev, |old(trace)|, size, []).events
      ensures r == ReadLoop(dev, |old(trace)|, size, []).result
    {
      var data: seq<byte> := [];
      var remaining := size - |data|;
      while remaining != 0
        invariant remaining == size - |data|
        invariant ReadingFrom(dev, old(trace), size, trace, data)
        decreases remaining
      {
        ghost var before := trace;
        var n := Min(dev.inPacketSize, remaining);
        var o := DeviceRead(n);
        ReadLoopAdvance(dev, old(trace), size, before, data, n, o);
        if o.Raised? {
          return Err(TransportFault);
        }
        data := data + o.bytes;
        remaining := size - |data|;
      }
      r := Ok(data);
    }

    /** `send_status_block_wrapper`: never raises; an absent status means both reads failed
        or the bytes could not be decoded. */
    method SendStatusBlockWrapper() returns (s: Option<CommandStatusWrapper>)
      modifies this`trace
      ensures trace == old(trace) + StatusRetrieval(dev, |old(trace)|).events
      ensures s == StatusRetrieval(dev, |old(trace)|).status
    {
      ghost var t0 := trace;
      var first := Read(CSW_SIZE);
      ghost var t1 := trace;
      StatusRetrievalSplit(dev, |t0|, |t1|);
      ghost var run := StatusRetrieval(dev, |t0|);
      var data: seq<byte>;
      if first.Err? {
        ClearInHalt();
        assert |trace| == |t1| + 1;
        var second := Read(CSW_SIZE);
        assert second == RetryRead(dev, |t0|).result;
        AppendThree(t0, FirstRead(dev, |t0|).events, [ClearHalt], RetryRead(dev, |t0|).events);
        assert trace == t0 + run.events;
        if second.Err? {
          return None;
        }
        data := second.value;
      } else {
        assert trace == t0 + run.events;
        data := first.value;
      }
      s := DecodeStatus(data);
    }

    /** `read_command`: `size` and `decode` stand for the ctypes class `commandType`, its
        `sizeof` and its `from_buffer`. */
    method ReadCommand<T>(command: seq<byte>, size: nat, decode: seq<byte> -> Result<T>)
      returns (r: Result<T>)
      requires Valid()
      modifies this
      ensures Valid()
      ensures |command| > 16 ==> trace == old(trace) && r == Err(CommandTooLong)
      ensures |command| <= 16 ==>
        var run := ReadCommandRun(dev, |old(trace)|, WrapperBytes(command, size, In, old(tag)).value, size);
        && trace == old(trace) + run.events
        && r == (if run.result.Ok? then decode(run.result.value) else Err(run.result.error))
      ensures tag == old(tag) + (if |command| <= 16 then 1 else 0)
      ensures issued == old(issued) + (if |command| <= 16 then [old(tag)] else [])
      ensures commands == old(commands) + (if |command| <= 16 then [ReadRecord(command, size)] else [])
    {
      var cbw :- GetCommandBlockWrapper(command, size, In);
      commands := commands + [ReadRecord(command, size)];
      ghost var t0 := trace;
      var sent := Write(EncodeCbw(cbw));
      ghost var t1 := trace;
      var o := DeviceReadInto(size);
      ReadCommandRunSplit(dev, |t0|, |t1|, EncodeCbw(cbw), size);
      AppendAssoc(t0, WriteRun(dev, |t0|, EncodeCbw(cbw), false), [Event.Read(size, o)]);
      if o.Raised? {
        return Err(TransportFault);
      }
      r := decode(FillBuffer(o.bytes, size));
    }

    /** `write_command`: the status retrieval's result, or the failure to build the
        wrapper. */
    method WriteCommand(command: seq<byte>, value: seq<byte>, data: seq<byte>)
      returns (r: Result<Option<CommandStatusWrapper>>)
      requires Valid()
      modifies this
      ensures Valid()
      ensures |command| > 16 ==> trace == old(trace) && r == Err(CommandTooLong)
      ensures |command| <= 16 ==>
        var run := WriteCommandRun(dev, |old(trace)|,
                                   WrapperBytes(command, |value| + |data|, Out, old(tag)).value,
                                   value + data);
        && trace == old(trace) + run.events && r == Ok(run.status)
        && commands == old(commands) + [WriteRecord(command, value + data, run.status)]
      ensures |command| > 16 ==> commands == old(commands)
      ensures tag == old(tag) + (if |command| <= 16 then 1 else 0)
      ensures issued == old(issued) + (if |command| <= 16 then [old(tag)] else [])
    {
      var bulk := value + data;
      var cbw :- GetCommandBlockWrapper(command, |bulk|, Out);
      ghost var t0 := trace;
      var sentCbw := Write(EncodeCbw(cbw));
      ghost var t1 := trace;
      var sentBulk := Write(bulk);
      ghost var t2 := trace;
      var s := SendStatusBlockWrapper();
      commands := commands + [WriteRecord(command, bulk, s)];
      r := Ok(s);
      WriteCommandRunSplit(dev, |t0|, |t1|, |t2|, EncodeCbw(cbw), bulk);
      AppendThree(t0, WriteRun(dev, |t0|, EncodeCbw(cbw), false), WriteRun(dev, |t1|, bulk, false),
                  StatusRetrieval(dev, |t2|).events);
    }
  }
}
