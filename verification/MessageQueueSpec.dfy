/**
 What one gated section of the message queue code does, on values: the two rings as byte queues, the
 two MQFlags bits, the adapter's outbound message buffer and doorbells, the read timer, and the signals
 sent so far.
 */
module MessageQueueSpec {
  import opened Arithmetic
  import opened Bytes
  import opened ByteQueue

  const MESSAGE_BUFFER := 4096
  const RING_SIZE := MESSAGE_BUFFER + 1
  const CHUNK := 124

  /** Doorbell writes seen by the adapter, and wakeups of sleeping threads. */
  datatype Signal =
    | DataWriteOk(chunk: seq<byte>)   // ioctl_wbuffer holds `chunk` when this doorbell rings
    | DataReadOk
    | WakeWriters
    | WakeReaders

  datatype Driver = Driver(
    inbound: seq<byte>,
    underflow: bool,
    outbound: seq<byte>,
    overflow: bool,
    message: seq<byte>,      // what ioctl_rbuffer holds; only the adapter writes it
    writeOk: bool,           // DATA_WRITE_OK and DATA_READ_OK in the outbound doorbell register;
    readOk: bool,            // the adapter raises them and the interrupt handler acknowledges them
    timer: int,              // milliseconds outboundMQTimeout was last set to, 0 once it has fired
    signals: seq<Signal>)    // in program order

  const INITIAL := Driver([], true, [], false, [], false, false, 0, [])

  function Send(d: Driver, s: Signal): Driver {
    d.(signals := d.signals + [s])
  }

  function InboundMQWrite(d: Driver): Driver {
    var chunk, d' := Taken(d.inbound, CHUNK), d.(inbound := AfterRemove(d.inbound, CHUNK));
    if |chunk| > 0 then Send(d', DataWriteOk(chunk))
    else Send(d'.(underflow := true), WakeWriters)
  }

  /** A writer's attempt is accepted; otherwise it goes to sleep for space. */
  predicate HasRoom(d: Driver, buf: seq<byte>) {
    Accepts(d.inbound, RING_SIZE, buf)
  }

  /** One attempt of a writer. */
  function InsertPass(d: Driver, buf: seq<byte>): Driver {
    var d' := d.(inbound := AfterInsert(d.inbound, RING_SIZE, buf));
    if HasRoom(d, buf) && d.underflow then InboundMQWrite(d'.(underflow := false)) else d'
  }

  function OutboundMQRead(d: Driver): Driver {
    if Accepts(d.outbound, RING_SIZE, d.message)
    then Send(Send(d.(outbound := AfterInsert(d.outbound, RING_SIZE, d.message)), DataReadOk), WakeReaders)
    else d.(overflow := true)
  }

  /** After a reader's first grab came back short while a message was stalled in the adapter. */
  function FetchStalled(d: Driver): Driver {
    OutboundMQRead(d).(overflow := false)
  }

  /** One pass of a reader with room for `length` bytes. */
  function RemovePass(d: Driver, length: nat): Driver {
    var d1 := d.(outbound := AfterRemove(d.outbound, length));
    if |d.outbound| < length && d.overflow then
      var d2 := FetchStalled(d1);
      d2.(outbound := AfterRemove(d2.outbound, length - |d.outbound|))
    else d1
  }

  /** The bytes that pass delivers. */
  function Delivered(d: Driver, length: nat): seq<byte> {
    if |d.outbound| < length && d.overflow then
      d.outbound + Taken(FetchStalled(d.(outbound := [])).outbound, length - |d.outbound|)
    else Taken(d.outbound, length)
  }

  /** The register is read and acknowledged; then the message, then the next chunk. */
  function HandleDoorbell(d: Driver): Driver {
    var d0 := d.(writeOk := false, readOk := false);
    var d1 := if d.writeOk then OutboundMQRead(d0) else d0;
    if d.readOk then InboundMQWrite(d1) else d1
  }

  /** A reader goes to sleep, on the one timer that all readers share. */
  function StartTimer(d: Driver, timeout: int): Driver {
    d.(timer := timeout)
  }

  function OutboundMQWakeup(d: Driver): Driver {
    Send(d.(timer := 0), WakeReaders)
  }

  function InboundMQBufferClear(d: Driver): Driver {
    d.(inbound := [])
  }

  function OutboundMQBufferClear(d: Driver): Driver {
    if d.overflow then Send(d.(outbound := [], overflow := false), DataReadOk)
    else d.(outbound := [])
  }

  /** A whole gated section run by some thread, or a move of the adapter. */
  datatype Section =
    | WriterPass(buf: seq<byte>)
    | ReaderPass(length: nat)
    | DoorbellInterrupt
    | TimerFires
    | ClearInbound
    | ClearOutbound
    | AdapterMessage(bytes: seq<byte>)
    | AdapterConsumed

  function Perform(d: Driver, s: Section): Driver {
    match s
    case WriterPass(buf) => InsertPass(d, buf)
    case ReaderPass(length) => RemovePass(d, length)
    case DoorbellInterrupt => HandleDoorbell(d)
    case TimerFires => OutboundMQWakeup(d)
    case ClearInbound => InboundMQBufferClear(d)
    case ClearOutbound => OutboundMQBufferClear(d)
    case AdapterMessage(bytes) => d.(message := bytes, writeOk := true)
    case AdapterConsumed => d.(readOk := true)
  }

  function PerformAll(d: Driver, ss: seq<Section>): Driver {
    if ss == [] then d else Perform(PerformAll(d, ss[..|ss| - 1]), ss[|ss| - 1])
  }

  /** The message buffer of the adapter carries 1 to 124 bytes. */
  predicate MessageFits(s: Section) {
    s.AdapterMessage? ==> 1 <= |s.bytes| <= CHUNK
  }

  /**
   A read hands over a prefix of what was queued followed by the stalled message, if it gets to it;
   a read that comes back short has emptied the ring and left nothing stalled in the adapter.
   */
  lemma ShortReadMeansDrained(d: Driver, length: nat)
    requires |d.outbound| < RING_SIZE
    requires d.overflow ==> |d.message| <= CHUNK
    ensures var d', got := RemovePass(d, length), Delivered(d, length);
            && |got| <= length
            && |d'.outbound| < RING_SIZE
            && (|got| < length ==> d'.outbound == [] && !d'.overflow)
            && got + d'.outbound == d.outbound + (if d.overflow && !d'.overflow then d.message else [])
  {
    if |d.outbound| < length && d.overflow {
      StalledRead(d, length);
    } else {
      TakenThenRest(d.outbound, length);
    }
  }

  lemma StalledRead(d: Driver, length: nat)
    requires |d.outbound| < length && d.overflow && |d.message| <= CHUNK
    ensures var d', got := RemovePass(d, length), Delivered(d, length);
            && |got| <= length
            && (|got| < length ==> d'.outbound == [])
            && |d'.outbound| <= CHUNK && !d'.overflow && got + d'.outbound == d.outbound + d.message
  {
    assert [] + d.message == d.message;
    assert FetchStalled(d.(outbound := [])).outbound == d.message;
    var rest := length - |d.outbound|;
    TakenThenRest(d.message, rest);
    assert (d.outbound + Taken(d.message, rest)) + AfterRemove(d.message, rest)
        == d.outbound + (Taken(d.message, rest) + AfterRemove(d.message, rest));
  }

  /** A read of at least one byte comes back empty only if nothing is queued and no bytes are stalled. */
  lemma NothingDelivered(d: Driver, length: nat)
    requires |d.outbound| < RING_SIZE && |d.message| <= CHUNK
    ensures Delivered(d, length) == [] <==> length == 0 || (d.outbound == [] && (d.overflow ==> d.message == []))
  {
    if |d.outbound| < length && d.overflow {
      StalledRead(d, length);
    }
  }

  // ---------------------------------------------------------------------------------------------
  // Drain bounds

  /** k READ_OK interrupts, nothing else happening. */
  function ReadOks(d: Driver, k: nat): Driver {
    if k == 0 then d else InboundMQWrite(ReadOks(d, k - 1))
  }

  /**
   With n bytes queued and a chunk in flight, UNDERFLOW is set by exactly the ceil(n/124)+1-th
   READ_OK and no earlier one.
   */
  lemma {:induction false} InboundDrain(d: Driver, k: nat)
    requires !d.underflow
    ensures ReadOks(d, k).underflow <==> k >= (|d.inbound| + 123) / 124 + 1
    ensures ReadOks(d, k).inbound == AfterRemove(d.inbound, k * 124)
  {
    if k > 0 {
      InboundDrain(d, k - 1);
      var n := (k - 1) * CHUNK;
      if n < |d.inbound| && CHUNK < |d.inbound[n..]| {
        assert d.inbound[n..][CHUNK..] == d.inbound[n + CHUNK..];
      }
    }
  }

  /** k reads of `length` bytes, nothing else happening. */
  function Reads(d: Driver, length: nat, k: nat): Driver {
    if k == 0 then d else RemovePass(Reads(d, length, k - 1), length)
  }

  /** While a message is stalled behind u bytes, exactly the floor(u/length)+1-th read clears OVERFLOW. */
  lemma {:induction false} OutboundDrain(d: Driver, length: nat, k: nat)
    requires d.overflow && 1 <= length
    ensures Reads(d, length, k).overflow <==> k <= |d.outbound| / length
    ensures k <= |d.outbound| / length ==>
              k * length <= |d.outbound| && Reads(d, length, k).outbound == d.outbound[k * length..]
  {
    DivAtLeast(|d.outbound|, length, k);
    ReadsWhileStalled(d, length, k, k * length);
  }

  lemma {:induction false} ReadsWhileStalled(d: Driver, length: nat, k: nat, n: nat)
    requires d.overflow && 1 <= length && n == k * length
    ensures Reads(d, length, k).overflow <==> n <= |d.outbound|
    ensures n <= |d.outbound| ==> Reads(d, length, k).outbound == d.outbound[n..]
  {
    if k > 0 {
      assert n - length == (k - 1) * length;
      ReadsWhileStalled(d, length, k - 1, n - length);
      ReadStep(Reads(d, length, k - 1), length);
      if n <= |d.outbound| {
        assert d.outbound[n - length..][length..] == d.outbound[n..];
      }
    }
  }

  lemma ReadStep(d: Driver, length: nat)
    ensures var d' := RemovePass(d, length);
            && (d'.overflow <==> d.overflow && length <= |d.outbound|)
            && (length <= |d.outbound| ==> d'.outbound == d.outbound[length..])
  {
  }
}
