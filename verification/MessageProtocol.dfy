/**
 The message queues as a system: any number of writers and readers, the adapter, its interrupts, the
 read timeout and the clear calls, interleaved in any order. Every theorem is about every run.
 */
module MessageProtocol {
  import opened Bytes
  import opened ByteQueue
  import opened MessageQueueSpec

  /** A thread in inboundMQBufferInsert: asleep, or waiting to run its next attempt. */
  datatype Writer = Writer(buf: seq<byte>, asleep: bool)

  /** A thread in outboundMQBufferRemove. */
  datatype Reader = Reader(length: nat, timeout: int, slept: bool, asleep: bool)

  datatype Adapter = Adapter(
    outstanding: int,   // chunks posted to it, less READ_OK interrupts handled
    unacked: int)       // messages it posted, less acknowledgements it received

  datatype History = History(
    accepted: seq<byte>,        // bytes of accepted writes, in the order of acceptance
    chunks: seq<seq<byte>>,     // chunks posted to the adapter
    lostIn: nat,
    posted: seq<byte>,          // bytes the adapter posted
    delivered: seq<byte>,       // bytes handed to readers
    lostOut: nat,
    handled: nat,               // WRITE_OK interrupts handled
    acks: nat)                  // DATA_READ_OK doorbells rung

  datatype System = System(d: Driver, a: Adapter, writers: map<nat, Writer>, readers: map<nat, Reader>, h: History)

  const START := System(INITIAL, Adapter(0, 0), map[], map[], History([], [], 0, [], [], 0, 0, 0))

  datatype Event =
    | StartWrite(id: nat, buf: seq<byte>)
    | WriterRuns(id: nat)
    | WriterInterrupted(id: nat)
    | StartRead(id: nat, length: nat, timeout: int)
    | ReaderRuns(id: nat)
    | ReaderInterrupted(id: nat)
    | ReadTimeout
    | CallInboundClear
    | CallOutboundClear
    | AdapterPosts(message: seq<byte>)
    | AdapterConsumes
    | Interrupt

  // ---------------------------------------------------------------------------------------------
  // Steps

  function Receive(s: System, signal: Signal): System {
    match signal
    case DataWriteOk(chunk) =>
      s.(a := s.a.(outstanding := s.a.outstanding + 1), h := s.h.(chunks := s.h.chunks + [chunk]))
    case DataReadOk =>
      s.(a := s.a.(unacked := s.a.unacked - 1), h := s.h.(acks := s.h.acks + 1))
    case WakeWriters =>
      s.(writers := map id | id in s.writers :: s.writers[id].(asleep := false))
    case WakeReaders =>
      s.(readers := map id | id in s.readers :: s.readers[id].(asleep := false))
  }

  function ReceiveAll(s: System, signals: seq<Signal>): System {
    if signals == [] then s
    else Receive(ReceiveAll(s, signals[..|signals| - 1]), signals[|signals| - 1])
  }

  /** Every signal sent by a gated section takes effect, in order. */
  function Settle(s: System): System {
    ReceiveAll(s.(d := s.d.(signals := [])), s.d.signals)
  }

  function WriterStep(s: System, id: nat): System
    requires id in s.writers
  {
    var buf := s.writers[id].buf;
    if !HasRoom(s.d, buf) then
      s.(writers := s.writers[id := Writer(buf, true)])
    else
      var lost := if ExactFill(s.d.inbound, RING_SIZE, buf) then RING_SIZE else 0;
      Settle(s.(d := InsertPass(s.d, buf),
                writers := s.writers - {id},
                h := s.h.(accepted := s.h.accepted + buf, lostIn := s.h.lostIn + lost)))
  }

  function ReaderStep(s: System, id: nat): System
    requires id in s.readers
  {
    var r, got := s.readers[id], Delivered(s.d, s.readers[id].length);
    if got == [] && !r.slept && r.timeout > 0 then
      var s' := Settle(s.(d := StartTimer(RemovePass(s.d, r.length), r.timeout)));
      s'.(readers := s'.readers[id := r.(slept := true, asleep := true)])
    else
      Settle(s.(d := RemovePass(s.d, r.length),
                readers := s.readers - {id},
                h := s.h.(delivered := s.h.delivered + got)))
  }

  /** WRITE_OK is taken, if it is up. */
  function TakeWriteOk(s: System): System {
    if !s.d.writeOk then s else
    var lost := if ExactFill(s.d.outbound, RING_SIZE, s.d.message) then RING_SIZE else 0;
    s.(d := OutboundMQRead(s.d.(writeOk := false)),
       h := s.h.(lostOut := s.h.lostOut + lost, handled := s.h.handled + 1))
  }

  /** READ_OK is taken, with d the new state of the driver. */
  function TakeReadOk(s: System, d: Driver): System {
    s.(d := d, a := s.a.(outstanding := s.a.outstanding - 1))
  }

  /** The WRITE_OK half of the doorbell interrupt. */
  function MessageArrives(s: System): System {
    if s.d.writeOk then Settle(TakeWriteOk(s)) else s
  }

  /** The READ_OK half. */
  function ChunkConsumed(s: System): System {
    if s.d.readOk then Settle(TakeReadOk(s, InboundMQWrite(s.d.(readOk := false)))) else s
  }

  /** What the user client's size checks and the adapter's protocol allow. */
  predicate Enabled(s: System, e: Event) {
    match e
    case StartWrite(id, buf) => id !in s.writers && 1 <= |buf| <= MESSAGE_BUFFER
    case WriterRuns(id) => id in s.writers && !s.writers[id].asleep
    case WriterInterrupted(id) => id in s.writers
    case StartRead(id, length, _) => id !in s.readers && 1 <= length <= MESSAGE_BUFFER
    case ReaderRuns(id) => id in s.readers && !s.readers[id].asleep
    case ReaderInterrupted(id) => id in s.readers
    case ReadTimeout => s.d.timer > 0
    case CallInboundClear => true
    case CallOutboundClear => true
    case AdapterPosts(message) => s.a.unacked == 0 && 1 <= |message| <= CHUNK
    case AdapterConsumes => s.a.outstanding > 0 && !s.d.readOk
    case Interrupt => true
  }

  function Step(s: System, e: Event): System {
    if !Enabled(s, e) then s else
    match e
    case StartWrite(id, buf) => s.(writers := s.writers[id := Writer(buf, false)])
    case WriterRuns(id) => WriterStep(s, id)
    case WriterInterrupted(id) => s.(writers := s.writers[id := s.writers[id].(asleep := false)])
    case StartRead(id, length, timeout) => s.(readers := s.readers[id := Reader(length, timeout, false, false)])
    case ReaderRuns(id) => ReaderStep(s, id)
    case ReaderInterrupted(id) => s.(readers := s.readers[id := s.readers[id].(asleep := false)])
    case ReadTimeout => Settle(s.(d := OutboundMQWakeup(s.d)))
    case CallInboundClear =>
      s.(d := InboundMQBufferClear(s.d), h := s.h.(lostIn := s.h.lostIn + |s.d.inbound|))
    case CallOutboundClear =>
      Settle(s.(d := OutboundMQBufferClear(s.d),
                h := s.h.(lostOut := s.h.lostOut + |s.d.outbound| + if s.d.overflow then |s.d.message| else 0)))
    case AdapterPosts(message) =>
      s.(d := s.d.(message := message, writeOk := true), a := s.a.(unacked := 1),
         h := s.h.(posted := s.h.posted + message))
    case AdapterConsumes => s.(d := s.d.(readOk := true))
    case Interrupt => ChunkConsumed(MessageArrives(s))
  }

  /** The state after a run; an event that is not enabled does nothing. */
  function State(es: seq<Event>): System {
    if es == [] then START else Step(State(es[..|es| - 1]), es[|es| - 1])
  }

  // ---------------------------------------------------------------------------------------------
  // Invariants

  function Flatten(chunks: seq<seq<byte>>): seq<byte> {
    if chunks == [] then [] else Flatten(chunks[..|chunks| - 1]) + chunks[|chunks| - 1]
  }

  /** A message the adapter has posted and the driver has not copied out of the message buffer. */
  function Unread(s: System): seq<byte> {
    if s.d.writeOk || s.d.overflow then s.d.message else []
  }

  ghost predicate Handshake(s: System) {
    && s.d.signals == []
    && |s.d.inbound| < RING_SIZE && |s.d.outbound| < RING_SIZE
    && s.a.outstanding == (if s.d.underflow then 0 else 1)
    && (s.d.readOk ==> s.a.outstanding == 1)
    && (s.d.underflow ==> s.d.inbound == [])
    && s.a.unacked == (if s.d.writeOk then 1 else 0) + (if s.d.overflow then 1 else 0)
    && !(s.d.writeOk && s.d.overflow)
    && (s.d.writeOk || s.d.overflow ==> 1 <= |s.d.message| <= CHUNK)
    && s.h.handled == s.h.acks + (if s.d.overflow then 1 else 0)
  }

  ghost predicate Sleepers(s: System) {
    && (forall id <- s.writers ::
          1 <= |s.writers[id].buf| <= MESSAGE_BUFFER && (s.writers[id].asleep ==> !s.d.underflow))
    && (forall id <- s.readers ::
          && s.readers[id].length >= 1
          && (s.readers[id].asleep ==> s.d.outbound == [] && !s.d.overflow && s.d.timer > 0 && s.readers[id].slept))
  }

  ghost predicate InboundAccount(s: System) {
    && (forall c <- s.h.chunks :: 1 <= |c| <= CHUNK)
    && |Flatten(s.h.chunks)| + |s.d.inbound| + s.h.lostIn == |s.h.accepted|
    && (s.h.lostIn == 0 ==> Flatten(s.h.chunks) + s.d.inbound == s.h.accepted)
  }

  ghost predicate OutboundAccount(s: System) {
    && |s.h.delivered| + |s.d.outbound| + |Unread(s)| + s.h.lostOut == |s.h.posted|
    && (s.h.lostOut == 0 ==> s.h.delivered + s.d.outbound + Unread(s) == s.h.posted)
  }

  ghost predicate Inv(s: System) {
    Handshake(s) && Sleepers(s) && InboundAccount(s) && OutboundAccount(s)
  }

  // ---------------------------------------------------------------------------------------------
  // Signals

  lemma ReceiveOne(s: System, x: Signal)
    ensures ReceiveAll(s, [x]) == Receive(s, x)
  {
    assert [x][..0] == [];
    assert ReceiveAll(s, []) == s;
  }

  lemma ReceiveTwo(s: System, x: Signal, y: Signal)
    ensures ReceiveAll(s, [x, y]) == Receive(Receive(s, x), y)
  {
    assert [x, y][..1] == [x];
    ReceiveOne(s, x);
  }

  /** With no signals left over, what one or two sends do once they take effect. */
  lemma SettleSends(s: System, x: Signal, y: Signal)
    requires s.d.signals == []
    ensures Settle(s) == s
    ensures Settle(s.(d := Send(s.d, x))) == Receive(s, x)
    ensures Settle(s.(d := Send(Send(s.d, x), y))) == Receive(Receive(s, x), y)
  {
    assert s.(d := s.d.(signals := [])) == s;
    ReceiveOne(s, x);
    assert Send(s.d, x) == s.d.(signals := [x]);
    ReceiveTwo(s, x, y);
    assert Send(Send(s.d, x), y) == s.d.(signals := [x, y]);
  }

  /** Signals move adapter counters, posted chunks and sleepers; nothing else. */
  ghost predicate OnlySignalled(s: System, t: System) {
    && t.d == s.d.(signals := t.d.signals)
    && t.h == s.h.(chunks := t.h.chunks, acks := t.h.acks)
  }

  lemma {:induction false} ReceiveAllOnlySignals(s: System, signals: seq<Signal>)
    ensures OnlySignalled(s, ReceiveAll(s, signals)) && ReceiveAll(s, signals).d == s.d
  {
    if signals != [] {
      ReceiveAllOnlySignals(s, signals[..|signals| - 1]);
    }
  }

  lemma SettleOnlySignals(s: System)
    ensures OnlySignalled(s, Settle(s)) && Settle(s).d.signals == []
  {
    ReceiveAllOnlySignals(s.(d := s.d.(signals := [])), s.d.signals);
  }

  lemma {:induction false} ReceiveAllConcat(s: System, a: seq<Signal>, b: seq<Signal>)
    ensures ReceiveAll(s, a + b) == ReceiveAll(ReceiveAll(s, a), b)
  {
    if b == [] {
      assert a + b == a;
    } else {
      var n := |b| - 1;
      assert (a + b)[..|a + b| - 1] == a + b[..n];
      ReceiveAllConcat(s, a, b[..n]);
    }
  }

  lemma ReceiveOneBeforeReadOk(s: System, d: Driver, x: Signal)
    ensures Receive(TakeReadOk(s, d), x) == TakeReadOk(Receive(s, x), d)
  {
    match x {
      case DataWriteOk(chunk) =>
      case DataReadOk =>
      case WakeWriters =>
      case WakeReaders =>
    }
  }

  lemma {:induction false} ReceiveBeforeReadOk(s: System, d: Driver, signals: seq<Signal>)
    ensures ReceiveAll(TakeReadOk(s, d), signals) == TakeReadOk(ReceiveAll(s, signals), d)
  {
    if signals != [] {
      var n := |signals| - 1;
      ReceiveBeforeReadOk(s, d, signals[..n]);
      ReceiveOneBeforeReadOk(ReceiveAll(s, signals[..n]), d, signals[n]);
    }
  }

  /**
   The interrupt step, which lets the adapter and the sleepers see the signals of each half before the
   other half runs, is the driver's doorbell handler as one section: the same signals in the same order,
   with the same effect on adapter, chunks, acknowledgements and sleepers.
   */
  lemma InterruptIsDoorbellHandler(s: System)
    requires s.d.signals == []
    ensures var d := HandleDoorbell(s.d);
            && Step(s, Interrupt) ==
                 Settle(if s.d.readOk then TakeReadOk(TakeWriteOk(s), d) else TakeWriteOk(s).(d := d))
            && Step(s, Interrupt).d == d.(signals := [])
  {
    var t := TakeWriteOk(s);
    SettleOnlySignals(t);
    assert Settle(s) == s;
    assert MessageArrives(s) == Settle(t);
    HalvesOfHandler(s.d);
    assert t.d == if s.d.writeOk then OutboundMQRead(s.d.(writeOk := false)) else s.d;
    if s.d.readOk {
      ReadOkAfter(t);
      SettleOnlySignals(TakeReadOk(t, InboundMQWrite(t.d.(readOk := false))));
    } else {
      assert TakeWriteOk(s).(d := HandleDoorbell(s.d)) == t;
    }
  }

  /** Acknowledging both doorbells first is the same as acknowledging each as it is served. */
  lemma HalvesOfHandler(d: Driver)
    ensures var d1 := if d.writeOk then OutboundMQRead(d.(writeOk := false)) else d;
            HandleDoorbell(d) == if d.readOk then InboundMQWrite(d1.(readOk := false)) else d1
  {
    assert !d.writeOk ==> d.(writeOk := false) == d;
    assert !d.readOk ==> d.(readOk := false) == d;
  }

  /** Settling before READ_OK is taken makes no difference to what comes after. */
  lemma ReadOkAfter(t: System)
    requires t.d.readOk
    ensures ChunkConsumed(Settle(t)) == Settle(TakeReadOk(t, InboundMQWrite(t.d.(readOk := false))))
  {
    var taken, quiet := t.d.(readOk := false), t.d.(readOk := false, signals := []);
    var d, sent := InboundMQWrite(quiet).(signals := []), InboundMQWrite(quiet).signals;
    calc {
      ChunkConsumed(Settle(t));
    ==  { ChunkAfterSettle(t); }
      Settle(TakeReadOk(Settle(t), InboundMQWrite(quiet)));
    ==  { SettleReadOk(Settle(t), InboundMQWrite(quiet)); }
      ReceiveAll(TakeReadOk(Settle(t), d), sent);
    ==  { ReadOkBefore(t.(d := t.d.(signals := [])), d, t.d.signals, sent); }
      ReceiveAll(TakeReadOk(t.(d := t.d.(signals := [])), d), t.d.signals + sent);
    ==  { assert TakeReadOk(t.(d := t.d.(signals := [])), d) == TakeReadOk(t, d); }
      ReceiveAll(TakeReadOk(t, d), t.d.signals + sent);
    ==  { WriteSignals(taken); SettleReadOk(t, InboundMQWrite(taken)); }
      Settle(TakeReadOk(t, InboundMQWrite(taken)));
    }
  }

  lemma ChunkAfterSettle(t: System)
    requires t.d.readOk
    ensures ChunkConsumed(Settle(t)) ==
            Settle(TakeReadOk(Settle(t), InboundMQWrite(t.d.(readOk := false, signals := []))))
  {
    SettleOnlySignals(t);
    assert Settle(t).d == t.d.(signals := []);
  }

  lemma ReadOkBefore(s: System, d: Driver, a: seq<Signal>, b: seq<Signal>)
    ensures ReceiveAll(TakeReadOk(ReceiveAll(s, a), d), b) == ReceiveAll(TakeReadOk(s, d), a + b)
  {
    ReceiveBeforeReadOk(s, d, a);
    ReceiveAllConcat(TakeReadOk(s, d), a, b);
  }

  lemma SettleReadOk(s: System, d: Driver)
    ensures Settle(TakeReadOk(s, d)) == ReceiveAll(TakeReadOk(s, d.(signals := [])), d.signals)
  {
    assert TakeReadOk(s, d).(d := d.(signals := [])) == TakeReadOk(s, d.(signals := []));
  }

  lemma WriteSignals(d: Driver)
    ensures var d', sent := InboundMQWrite(d.(signals := [])), InboundMQWrite(d.(signals := [])).signals;
            InboundMQWrite(d).signals == d.signals + sent && InboundMQWrite(d).(signals := []) == d'.(signals := [])
  {
  }

  lemma MessageArrivesChanges(s: System)
    requires s.d.signals == []
    ensures OnlySignalled(TakeWriteOk(s), MessageArrives(s)) && MessageArrives(s).d.signals == []
  {
    SettleOnlySignals(TakeWriteOk(s));
  }

  // ---------------------------------------------------------------------------------------------
  // Each step keeps the invariant

  lemma FlattenOne(chunks: seq<seq<byte>>, c: seq<byte>)
    ensures Flatten(chunks + [c]) == Flatten(chunks) + c
  {
    assert (chunks + [c])[..|chunks|] == chunks;
  }

  lemma MessageArrivesKeeps(s: System)
    requires Inv(s) && s.d.writeOk
    ensures Inv(MessageArrives(s))
  {
    if Accepts(s.d.outbound, RING_SIZE, s.d.message) {
      var outbound := AfterInsert(s.d.outbound, RING_SIZE, s.d.message);
      var t := TakeWriteOk(s).(d := s.d.(writeOk := false, outbound := outbound));
      SettleSends(t, DataReadOk, WakeReaders);
      MessageAccepted(s, t);
    } else {
      MessageStalled(s);
    }
  }

  lemma MessageStalled(s: System)
    requires Inv(s) && s.d.writeOk && !Accepts(s.d.outbound, RING_SIZE, s.d.message)
    ensures Inv(MessageArrives(s))
  {
    var t := TakeWriteOk(s);
    SettleSends(t, DataReadOk, WakeReaders);
    assert MessageArrives(s) == t;
    assert Handshake(t) && Sleepers(t);
  }

  lemma MessageAccepted(s: System, t: System)
    requires Inv(s) && s.d.writeOk && Accepts(s.d.outbound, RING_SIZE, s.d.message)
    requires t == s.(
      d := s.d.(writeOk := false, outbound := AfterInsert(s.d.outbound, RING_SIZE, s.d.message)),
      h := s.h.(lostOut := s.h.lostOut + if ExactFill(s.d.outbound, RING_SIZE, s.d.message) then RING_SIZE else 0,
                handled := s.h.handled + 1))
    ensures Inv(Receive(Receive(t, DataReadOk), WakeReaders))
  {
    var s' := Receive(Receive(t, DataReadOk), WakeReaders);
    assert Handshake(s');
    assert Sleepers(s');
    assert s.h.delivered + (s.d.outbound + s.d.message) + [] == s.h.delivered + s.d.outbound + s.d.message;
    assert OutboundAccount(s');
  }

  lemma ChunkConsumedKeeps(s: System)
    requires Inv(s)
    ensures Inv(ChunkConsumed(s))
  {
    if s.d.readOk {
      WriteKeeps(s.(d := s.d.(readOk := false), a := s.a.(outstanding := 0)));
    }
  }

  /** inboundMQWrite is called with no chunk outstanding; then it posts one, or the ring has drained. */
  lemma WriteKeeps(s: System)
    requires Handshake(s.(d := s.d.(underflow := true, inbound := [])))
    requires !s.d.underflow && |s.d.inbound| < RING_SIZE
    requires Sleepers(s) && InboundAccount(s) && OutboundAccount(s)
    ensures Inv(Settle(s.(d := InboundMQWrite(s.d))))
  {
    var chunk := Taken(s.d.inbound, CHUNK);
    var t := s.(d := s.d.(inbound := AfterRemove(s.d.inbound, CHUNK)));
    if s.d.inbound != [] {
      SettleSends(t, DataWriteOk(chunk), WakeWriters);
      ChunkPosted(s, chunk, t);
      assert s.(d := InboundMQWrite(s.d)) == t.(d := Send(t.d, DataWriteOk(chunk)));
      assert Inv(Settle(s.(d := InboundMQWrite(s.d))));
    } else {
      QueueDrained(s);
    }
  }

  lemma QueueDrained(s: System)
    requires Handshake(s.(d := s.d.(underflow := true, inbound := [])))
    requires !s.d.underflow && s.d.inbound == []
    requires Sleepers(s) && InboundAccount(s) && OutboundAccount(s)
    ensures Inv(Settle(s.(d := InboundMQWrite(s.d))))
  {
    var t := s.(d := s.d.(underflow := true));
    assert s.(d := InboundMQWrite(s.d)) == t.(d := Send(t.d, WakeWriters));
    SettleSends(t, WakeWriters, WakeWriters);
    DrainedWakes(s, t);
  }

  lemma DrainedWakes(s: System, t: System)
    requires Handshake(s.(d := s.d.(underflow := true, inbound := [])))
    requires s.d.inbound == [] && t == s.(d := s.d.(underflow := true))
    requires Sleepers(s) && InboundAccount(s) && OutboundAccount(s)
    ensures Inv(Receive(t, WakeWriters))
  {
    assert t == s.(d := s.d.(underflow := true, inbound := []));
    var s' := Receive(t, WakeWriters);
    assert Handshake(s');
    assert Sleepers(s');
  }

  lemma ChunkPosted(s: System, chunk: seq<byte>, t: System)
    requires Handshake(s.(d := s.d.(underflow := true, inbound := [])))
    requires !s.d.underflow && 0 < |s.d.inbound| < RING_SIZE
    requires Sleepers(s) && InboundAccount(s) && OutboundAccount(s)
    requires chunk == Taken(s.d.inbound, CHUNK) && t == s.(d := s.d.(inbound := AfterRemove(s.d.inbound, CHUNK)))
    ensures Inv(Receive(t, DataWriteOk(chunk)))
  {
    var s' := Receive(t, DataWriteOk(chunk));
    ChunkAccounted(s, chunk, s');
    assert Handshake(s') && Sleepers(s') && OutboundAccount(s');
  }

  lemma ChunkAccounted(s: System, chunk: seq<byte>, t: System)
    requires InboundAccount(s) && s.d.inbound != []
    requires chunk == Taken(s.d.inbound, CHUNK) && t.d.inbound == AfterRemove(s.d.inbound, CHUNK)
    requires t.h.chunks == s.h.chunks + [chunk] && t.h.accepted == s.h.accepted && t.h.lostIn == s.h.lostIn
    ensures InboundAccount(t)
  {
    TakenThenRest(s.d.inbound, CHUNK);
    FlattenOne(s.h.chunks, chunk);
    assert Flatten(s.h.chunks) + (chunk + t.d.inbound) == (Flatten(s.h.chunks) + chunk) + t.d.inbound;
  }

  lemma WriterKeeps(s: System, id: nat)
    requires Inv(s) && id in s.writers && !s.writers[id].asleep
    ensures Inv(WriterStep(s, id))
  {
    if !HasRoom(s.d, s.writers[id].buf) {
      WriterSleeps(s, id);
    } else if s.d.underflow {
      var t := AfterAccept(s, id);
      InsertAccounted(s, s.writers[id].buf, t);
      assert WriterStep(s, id) == Settle(t.(d := InboundMQWrite(t.d)));
      WriteKeeps(t);
    } else {
      PlainWrite(s, id);
    }
  }

  lemma WriterSleeps(s: System, id: nat)
    requires Inv(s) && id in s.writers && !HasRoom(s.d, s.writers[id].buf)
    ensures Inv(WriterStep(s, id))
  {
  }

  lemma PlainWrite(s: System, id: nat)
    requires Inv(s) && id in s.writers && HasRoom(s.d, s.writers[id].buf) && !s.d.underflow
    ensures Inv(WriterStep(s, id))
  {
    var t := AfterAccept(s, id);
    InsertAccounted(s, s.writers[id].buf, t);
    SettleSends(t, WakeWriters, WakeWriters);
    assert WriterStep(s, id) == t;
    assert Handshake(t) && Sleepers(t);
  }

  /** The write is in the ring and accounted for; the adapter has not been kicked yet. */
  function AfterAccept(s: System, id: nat): System
    requires id in s.writers
  {
    var buf := s.writers[id].buf;
    var lost := if ExactFill(s.d.inbound, RING_SIZE, buf) then RING_SIZE else 0;
    s.(d := s.d.(inbound := AfterInsert(s.d.inbound, RING_SIZE, buf), underflow := false),
       writers := s.writers - {id},
       h := s.h.(accepted := s.h.accepted + buf, lostIn := s.h.lostIn + lost))
  }

  lemma InsertAccounted(s: System, buf: seq<byte>, t: System)
    requires InboundAccount(s) && |s.d.inbound| < RING_SIZE && HasRoom(s.d, buf)
    requires t.d.inbound == AfterInsert(s.d.inbound, RING_SIZE, buf)
    requires t.h == s.h.(accepted := s.h.accepted + buf, lostIn :=
               s.h.lostIn + if ExactFill(s.d.inbound, RING_SIZE, buf) then RING_SIZE else 0)
    ensures InboundAccount(t)
  {
    assert Flatten(s.h.chunks) + (s.d.inbound + buf) == (Flatten(s.h.chunks) + s.d.inbound) + buf;
  }

  lemma ReaderKeeps(s: System, id: nat)
    requires Inv(s) && id in s.readers && !s.readers[id].asleep
    ensures Inv(ReaderStep(s, id))
  {
    var r, got := s.readers[id], Delivered(s.d, s.readers[id].length);
    ShortReadMeansDrained(s.d, r.length);
    if |s.d.outbound| < r.length && s.d.overflow {
      var t := s.(d := RemovePass(s.d, r.length).(signals := []), readers := s.readers - {id},
                  h := s.h.(delivered := s.h.delivered + got));
      SettleSends(t, DataReadOk, WakeReaders);
      StalledMessageRead(s, t, got);
      assert ReaderStep(s, id) == Receive(Receive(t, DataReadOk), WakeReaders);
    } else {
      PlainRead(s, id);
    }
  }

  lemma PlainRead(s: System, id: nat)
    requires Inv(s) && id in s.readers && !s.readers[id].asleep
    requires !(|s.d.outbound| < s.readers[id].length && s.d.overflow)
    ensures Inv(ReaderStep(s, id))
  {
    var r, got := s.readers[id], Delivered(s.d, s.readers[id].length);
    if got == [] && !r.slept && r.timeout > 0 {
      ReaderSleeps(s, id);
    } else {
      var t := s.(d := RemovePass(s.d, r.length), readers := s.readers - {id},
                  h := s.h.(delivered := s.h.delivered + got));
      SettleSends(t, DataReadOk, WakeReaders);
      assert ReaderStep(s, id) == t;
      BytesDelivered(s, r.length, t);
    }
  }

  lemma ReaderSleeps(s: System, id: nat)
    requires Inv(s) && id in s.readers
    requires !(|s.d.outbound| < s.readers[id].length && s.d.overflow)
    requires var r := s.readers[id]; Delivered(s.d, r.length) == [] && !r.slept && r.timeout > 0
    ensures Inv(ReaderStep(s, id))
  {
    var r := s.readers[id];
    var t := s.(d := StartTimer(s.d, r.timeout));
    SettleSends(t, DataReadOk, WakeReaders);
    assert s.d.outbound == [] && RemovePass(s.d, r.length) == s.d;
    assert ReaderStep(s, id) == t.(readers := s.readers[id := r.(slept := true, asleep := true)]);
  }

  lemma BytesDelivered(s: System, length: nat, t: System)
    requires Inv(s) && !(|s.d.outbound| < length && s.d.overflow)
    requires t.d == s.d.(outbound := AfterRemove(s.d.outbound, length)) && t.a == s.a && t.writers == s.writers
    requires forall id <- t.readers :: id in s.readers && t.readers[id] == s.readers[id]
    requires t.h == s.h.(delivered := s.h.delivered + Taken(s.d.outbound, length))
    ensures Inv(t)
  {
    TakenThenRest(s.d.outbound, length);
    assert t.h.delivered + t.d.outbound == s.h.delivered + s.d.outbound;
  }

  lemma StalledMessageRead(s: System, t: System, got: seq<byte>)
    requires Inv(s) && s.d.overflow
    requires t.d == s.d.(outbound := t.d.outbound, overflow := false) && |t.d.outbound| < RING_SIZE
    requires t.a == s.a && t.writers == s.writers
    requires forall id <- t.readers :: id in s.readers && t.readers[id] == s.readers[id]
    requires got + t.d.outbound == s.d.outbound + s.d.message
    requires t.h == s.h.(delivered := s.h.delivered + got)
    ensures Inv(Receive(Receive(t, DataReadOk), WakeReaders))
  {
    assert |got + t.d.outbound| == |s.d.outbound + s.d.message|;
    assert s.h.delivered + got + t.d.outbound + [] == s.h.delivered + (got + t.d.outbound);
    assert s.h.delivered + s.d.outbound + s.d.message == s.h.delivered + (s.d.outbound + s.d.message);
  }

  lemma ClearKeeps(s: System)
    requires Inv(s)
    ensures Inv(Step(s, CallOutboundClear))
  {
    if s.d.overflow {
      var t := s.(d := s.d.(outbound := [], overflow := false),
                  h := s.h.(lostOut := s.h.lostOut + |s.d.outbound| + |s.d.message|));
      SettleSends(t, DataReadOk, DataReadOk);
      assert Step(s, CallOutboundClear) == Receive(t, DataReadOk);
      StalledMessageCleared(s, t);
    } else {
      PlainClear(s);
    }
  }

  lemma PlainClear(s: System)
    requires Inv(s) && !s.d.overflow
    ensures Inv(Step(s, CallOutboundClear))
  {
    var t := s.(d := s.d.(outbound := []), h := s.h.(lostOut := s.h.lostOut + |s.d.outbound|));
    SettleSends(t, DataReadOk, DataReadOk);
    assert Step(s, CallOutboundClear) == t;
  }

  lemma StalledMessageCleared(s: System, t: System)
    requires Inv(s) && s.d.overflow
    requires t == s.(d := s.d.(outbound := [], overflow := false),
                     h := s.h.(lostOut := s.h.lostOut + |s.d.outbound| + |s.d.message|))
    ensures Inv(Receive(t, DataReadOk))
  {
  }

  /** Threads coming or being interrupted. */
  lemma ThreadsKeep(s: System, e: Event)
    requires Inv(s) && Enabled(s, e)
    requires e.StartWrite? || e.WriterInterrupted? || e.StartRead? || e.ReaderInterrupted?
    ensures Inv(Step(s, e))
  {
    var s' := Step(s, e);
    assert s'.d == s.d && s'.a == s.a && s'.h == s.h;
    assert Sleepers(s');
  }

  lemma TimeoutKeeps(s: System)
    requires Inv(s) && s.d.timer > 0
    ensures Step(s, ReadTimeout) == Receive(s.(d := s.d.(timer := 0)), WakeReaders) && Inv(Step(s, ReadTimeout))
  {
    var t := s.(d := s.d.(timer := 0));
    SettleSends(t, WakeReaders, WakeReaders);
    assert Sleepers(Receive(t, WakeReaders));
  }

  /** The adapter's own moves. */
  lemma AdapterKeeps(s: System, e: Event)
    requires Inv(s) && Enabled(s, e) && (e.AdapterPosts? || e.AdapterConsumes?)
    ensures Inv(Step(s, e))
  {
    if e.AdapterPosts? {
      var s' := Step(s, e);
      assert s.h.delivered + s.d.outbound + [] == s.h.delivered + s.d.outbound;
      assert s'.h.delivered + s'.d.outbound + e.message == s'.h.posted || s.h.lostOut != 0;
    }
  }

  lemma InboundClearKeeps(s: System)
    requires Inv(s)
    ensures Inv(Step(s, CallInboundClear))
  {
  }

  lemma StepKeeps(s: System, e: Event)
    requires Inv(s)
    ensures Inv(Step(s, e))
  {
    if Enabled(s, e) {
      match e {
        case WriterRuns(id) => WriterKeeps(s, id);
        case ReaderRuns(id) => ReaderKeeps(s, id);
        case CallOutboundClear => ClearKeeps(s);
        case Interrupt =>
          if s.d.writeOk {
            MessageArrivesKeeps(s);
          }
          ChunkConsumedKeeps(MessageArrives(s));
        case CallInboundClear => InboundClearKeeps(s);
        case ReadTimeout => TimeoutKeeps(s);
        case AdapterPosts(_) => AdapterKeeps(s, e);
        case AdapterConsumes => AdapterKeeps(s, e);
        case _ => ThreadsKeep(s, e);
      }
    }
  }
}
