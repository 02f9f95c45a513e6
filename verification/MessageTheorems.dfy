/** What every run of the message queues keeps, loses, and eventually does. */
module MessageTheorems {
  import opened Arithmetic
  import opened Bytes
  import opened ByteQueue
  import opened MessageQueueSpec
  import opened MessageProtocol

  lemma {:induction false} Reachable(es: seq<Event>)
    ensures Inv(State(es))
  {
    if es != [] {
      Reachable(es[..|es| - 1]);
      StepKeeps(State(es[..|es| - 1]), es[|es| - 1]);
    }
  }

  // ---------------------------------------------------------------------------------------------
  // Stream conservation

  /** Bytes an event discards from the inbound stream, seen from the state before it. */
  function LossIn(s: System, e: Event): nat {
    match e
    case WriterRuns(id) =>
      if Enabled(s, e) && ExactFill(s.d.inbound, RING_SIZE, s.writers[id].buf) then RING_SIZE else 0
    case CallInboundClear => |s.d.inbound|
    case _ => 0
  }

  function LossOut(s: System, e: Event): nat {
    match e
    case Interrupt =>
      if s.d.writeOk && ExactFill(s.d.outbound, RING_SIZE, s.d.message) then RING_SIZE else 0
    case CallOutboundClear => |s.d.outbound| + if s.d.overflow then |s.d.message| else 0
    case _ => 0
  }

  predicate LossFreeIn(es: seq<Event>) {
    es == [] || (LossFreeIn(es[..|es| - 1]) && LossIn(State(es[..|es| - 1]), es[|es| - 1]) == 0)
  }

  predicate LossFreeOut(es: seq<Event>) {
    es == [] || (LossFreeOut(es[..|es| - 1]) && LossOut(State(es[..|es| - 1]), es[|es| - 1]) == 0)
  }

  lemma LossAccounted(s: System, e: Event)
    requires s.d.signals == []
    ensures Step(s, e).h.lostIn == s.h.lostIn + LossIn(s, e)
    ensures Step(s, e).h.lostOut == s.h.lostOut + LossOut(s, e)
  {
    if Enabled(s, e) {
      match e {
        case WriterRuns(id) => WriterLoss(s, id);
        case ReaderRuns(id) => ReaderLoss(s, id);
        case CallOutboundClear => ClearLoss(s);
        case Interrupt => InterruptLoss(s);
        case ReadTimeout => SettleOnlySignals(s.(d := OutboundMQWakeup(s.d)));
        case _ =>
      }
    }
  }

  lemma WriterLoss(s: System, id: nat)
    requires id in s.writers
    ensures var buf, h := s.writers[id].buf, WriterStep(s, id).h;
            && h.lostIn == s.h.lostIn + (if ExactFill(s.d.inbound, RING_SIZE, buf) then RING_SIZE else 0)
            && h.lostOut == s.h.lostOut
  {
    var buf := s.writers[id].buf;
    var lost := if ExactFill(s.d.inbound, RING_SIZE, buf) then RING_SIZE else 0;
    SettleOnlySignals(s.(d := InsertPass(s.d, buf), writers := s.writers - {id},
                         h := s.h.(accepted := s.h.accepted + buf, lostIn := s.h.lostIn + lost)));
  }

  lemma ReaderLoss(s: System, id: nat)
    requires id in s.readers
    ensures ReaderStep(s, id).h.lostIn == s.h.lostIn && ReaderStep(s, id).h.lostOut == s.h.lostOut
  {
    var r := s.readers[id];
    SettleOnlySignals(s.(d := StartTimer(RemovePass(s.d, r.length), r.timeout)));
    SettleOnlySignals(s.(d := RemovePass(s.d, r.length), readers := s.readers - {id},
                         h := s.h.(delivered := s.h.delivered + Delivered(s.d, r.length))));
  }

  lemma ClearLoss(s: System)
    ensures var h := Step(s, CallOutboundClear).h;
            h.lostIn == s.h.lostIn && h.lostOut == s.h.lostOut + LossOut(s, CallOutboundClear)
  {
    var lost := |s.d.outbound| + if s.d.overflow then |s.d.message| else 0;
    SettleOnlySignals(s.(d := OutboundMQBufferClear(s.d), h := s.h.(lostOut := s.h.lostOut + lost)));
  }

  lemma InterruptLoss(s: System)
    requires s.d.signals == []
    ensures var h := Step(s, Interrupt).h;
            h.lostIn == s.h.lostIn && h.lostOut == s.h.lostOut + LossOut(s, Interrupt)
  {
    MessageArrivesChanges(s);
    ChunkLoss(MessageArrives(s));
  }

  lemma ChunkLoss(s: System)
    ensures ChunkConsumed(s).h.lostIn == s.h.lostIn && ChunkConsumed(s).h.lostOut == s.h.lostOut
  {
    SettleOnlySignals(TakeReadOk(s, InboundMQWrite(s.d.(readOk := false))));
  }

  lemma {:induction false} LossFreeMeansNothingLost(es: seq<Event>)
    ensures LossFreeIn(es) <==> State(es).h.lostIn == 0
    ensures LossFreeOut(es) <==> State(es).h.lostOut == 0
  {
    if es != [] {
      var prefix := es[..|es| - 1];
      LossFreeMeansNothingLost(prefix);
      Reachable(prefix);
      LossAccounted(State(prefix), es[|es| - 1]);
    }
  }

  /**
   The chunks posted to the adapter, each of 1 to 124 bytes, followed by what the ring holds, are the
   accepted writes in order: in exactly those runs in which no accepted write fills the ring exactly
   and no clear meets a non-empty ring.
   */
  lemma InboundConservation(es: seq<Event>)
    ensures var s := State(es);
            && (forall c <- s.h.chunks :: 1 <= |c| <= 124)
            && (Flatten(s.h.chunks) + s.d.inbound == s.h.accepted <==> LossFreeIn(es))
  {
    Reachable(es);
    LossFreeMeansNothingLost(es);
    var s := State(es);
    assert |Flatten(s.h.chunks) + s.d.inbound| == |Flatten(s.h.chunks)| + |s.d.inbound|;
  }

  /**
   The bytes delivered to readers, then the ring, then a message posted but not yet copied out of the
   adapter, are all that the adapter posted, in order: in exactly those runs in which no message
   fills the ring exactly and no clear meets a non-empty ring or a stalled message.
   */
  lemma OutboundConservation(es: seq<Event>)
    ensures var s := State(es);
            s.h.delivered + s.d.outbound + Unread(s) == s.h.posted <==> LossFreeOut(es)
  {
    Reachable(es);
    LossFreeMeansNothingLost(es);
    var s := State(es);
    assert |s.h.delivered + s.d.outbound + Unread(s)| == |s.h.delivered| + |s.d.outbound| + |Unread(s)|;
  }

  // ---------------------------------------------------------------------------------------------
  // Handshakes and wakeups

  /** No writer is asleep and there is room for any one of them. */
  ghost predicate WritersCanProceed(s: System) {
    forall id <- s.writers :: !s.writers[id].asleep && HasRoom(s.d, s.writers[id].buf)
  }

  lemma DrainedMeansAwake(s: System)
    requires Inv(s) && s.d.underflow
    ensures WritersCanProceed(s)
  {
  }

  /**
   UNDERFLOW holds exactly when no chunk is outstanding at the adapter, of which there is at most one,
   and then the ring is empty. A sleeping writer has a chunk outstanding, whose READ_OK will wake it;
   once UNDERFLOW is set every writer is awake and there is room for any one of them. All this in
   every run, clears included.
   */
  lemma NoLostWriterWakeup(es: seq<Event>)
    ensures var s := State(es);
            && (s.d.underflow <==> s.a.outstanding == 0) && 0 <= s.a.outstanding <= 1
            && (s.d.underflow ==> s.d.inbound == [])
            && (forall id <- s.writers | s.writers[id].asleep :: s.a.outstanding == 1)
            && (s.d.underflow ==> WritersCanProceed(s))
  {
    Reachable(es);
  }

  /**
   A reader is only ever asleep while there is nothing to read, neither queued nor stalled, and while the
   timer is running; when it fires it finds every reader awake.
   */
  lemma NoLostReaderWakeup(es: seq<Event>)
    ensures var s := State(es);
            && (forall id <- s.readers | s.readers[id].asleep ::
                  s.d.outbound == [] && !s.d.overflow && Enabled(s, ReadTimeout))
            && (Enabled(s, ReadTimeout) ==>
                  var s' := Step(s, ReadTimeout);
                  s'.readers.Keys == s.readers.Keys && forall id <- s'.readers :: !s'.readers[id].asleep)
  {
    Reachable(es);
    if Enabled(State(es), ReadTimeout) {
      TimeoutKeeps(State(es));
    }
  }

  /**
   A read that slept ends with its next pass, data or not: when the timer has fired, and in general whenever
   it is awake again.
   */
  lemma SleepingReadReturns(es: seq<Event>, id: nat)
    requires id in State(es).readers && State(es).readers[id].slept
    ensures var s := State(es);
            var s1 := if s.readers[id].asleep then Step(s, ReadTimeout) else s;
            Enabled(s1, ReaderRuns(id)) && id !in Step(s1, ReaderRuns(id)).readers
  {
    NoLostReaderWakeup(es);
    var s := State(es);
    Reachable(es);
    if s.readers[id].asleep {
      TimeoutKeeps(s);
      SecondPassLeaves(Step(s, ReadTimeout), id);
    } else {
      SecondPassLeaves(s, id);
    }
  }

  lemma SecondPassLeaves(s: System, id: nat)
    requires id in s.readers && s.readers[id].slept
    ensures id !in ReaderStep(s, id).readers
  {
    var r := s.readers[id];
    SettleKeepsIds(s.(d := RemovePass(s.d, r.length), readers := s.readers - {id},
                      h := s.h.(delivered := s.h.delivered + Delivered(s.d, r.length))));
  }

  // ---------------------------------------------------------------------------------------------
  // The timer that all readers share

  /** A pass that finds nothing and puts its reader to sleep. */
  predicate FallsAsleep(s: System, e: Event) {
    && e.ReaderRuns? && Enabled(s, e)
    && var r := s.readers[e.id];
    Delivered(s.d, r.length) == [] && !r.slept && r.timeout > 0
  }

  /** The timer is set by exactly the reads that fall asleep, to their own timeouts, and runs till it fires. */
  lemma TimerIsSetBy(s: System, e: Event)
    requires s.d.signals == []
    ensures Step(s, e).d.timer ==
            if FallsAsleep(s, e) then s.readers[e.id].timeout
            else if e == ReadTimeout && s.d.timer > 0 then 0
            else s.d.timer
  {
    if Enabled(s, e) {
      match e {
        case ReaderRuns(id) => ReaderTimer(s, id);
        case WriterRuns(id) => WriterTimer(s, id);
        case ReadTimeout =>
          SettleOnlySignals(s.(d := OutboundMQWakeup(s.d)));
        case CallOutboundClear => ClearTimer(s);
        case Interrupt => InterruptTimer(s);
        case _ =>
      }
    }
  }

  lemma ClearTimer(s: System)
    ensures Step(s, CallOutboundClear).d.timer == s.d.timer
  {
    var lost := |s.d.outbound| + if s.d.overflow then |s.d.message| else 0;
    SettleOnlySignals(s.(d := OutboundMQBufferClear(s.d), h := s.h.(lostOut := s.h.lostOut + lost)));
  }

  lemma InterruptTimer(s: System)
    requires s.d.signals == []
    ensures Step(s, Interrupt).d.timer == s.d.timer
  {
    InterruptIsDoorbellHandler(s);
  }

  lemma ReaderTimer(s: System, id: nat)
    requires id in s.readers && !s.readers[id].asleep
    ensures ReaderStep(s, id).d.timer ==
            if FallsAsleep(s, ReaderRuns(id)) then s.readers[id].timeout else s.d.timer
  {
    var r := s.readers[id];
    SettleOnlySignals(s.(d := StartTimer(RemovePass(s.d, r.length), r.timeout)));
    SettleOnlySignals(s.(d := RemovePass(s.d, r.length), readers := s.readers - {id},
                         h := s.h.(delivered := s.h.delivered + Delivered(s.d, r.length))));
  }

  lemma WriterTimer(s: System, id: nat)
    requires id in s.writers
    ensures WriterStep(s, id).d.timer == s.d.timer
  {
    var buf := s.writers[id].buf;
    var lost := if ExactFill(s.d.inbound, RING_SIZE, buf) then RING_SIZE else 0;
    SettleOnlySignals(s.(d := InsertPass(s.d, buf), writers := s.writers - {id},
                         h := s.h.(accepted := s.h.accepted + buf, lostIn := s.h.lostIn + lost)));
  }

  /** Two reads of an empty queue: the first sleeps and the second is about to. */
  lemma TwoReadersMeet(first: int, second: int)
    requires first > 0 && second > 0
    ensures var s := State([StartRead(0, 1, first), ReaderRuns(0), StartRead(1, 1, second)]);
            && 0 in s.readers && s.readers[0].asleep && s.readers[0].timeout == first && s.d.timer == first
            && FallsAsleep(s, ReaderRuns(1)) && s.readers[1].timeout == second
  {
    var es := [StartRead(0, 1, first), ReaderRuns(0), StartRead(1, 1, second)];
    assert es[..1][..0] == [] && es[..2][..1] == es[..1];
    assert State([]) == START;
    assert State(es[..1]) == Step(START, StartRead(0, 1, first));
    assert State(es[..2]) == Step(State(es[..1]), ReaderRuns(0));
    FirstReadSleeps(first);
    assert State(es) == Step(State(es[..2]), StartRead(1, 1, second));
  }

  lemma FirstReadSleeps(timeout: int)
    requires timeout > 0
    ensures Step(Step(START, StartRead(0, 1, timeout)), ReaderRuns(0)) ==
            START.(d := StartTimer(INITIAL, timeout), readers := map[0 := Reader(1, timeout, true, true)])
  {
    var s := START.(readers := map[0 := Reader(1, timeout, false, false)]);
    assert Step(START, StartRead(0, 1, timeout)) == s;
    var t := s.(d := StartTimer(INITIAL, timeout));
    SettleSends(t, WakeReaders, WakeReaders);
    assert RemovePass(INITIAL, 1) == INITIAL && Delivered(INITIAL, 1) == [];
    assert ReaderStep(s, 0) == t.(readers := t.readers[0 := Reader(1, timeout, true, true)]);
  }

  /**
   So a read's timeout does not bound its own wait: a later read that falls asleep sets the timer anew, to
   any other time, while the earlier one sleeps on.
   */
  lemma LaterReadMovesTimeout(s: System, id: nat, later: nat)
    requires Inv(s) && id in s.readers && s.readers[id].asleep && FallsAsleep(s, ReaderRuns(later))
    ensures var s' := Step(s, ReaderRuns(later));
            && s'.d.timer == s.readers[later].timeout
            && id in s'.readers && s'.readers[id] == s.readers[id]
  {
    var r := s.readers[later];
    var t := s.(d := StartTimer(s.d, r.timeout));
    assert RemovePass(s.d, r.length) == s.d;
    SettleSends(t, WakeReaders, WakeReaders);
    assert Step(s, ReaderRuns(later)) == t.(readers := s.readers[later := r.(slept := true, asleep := true)]);
  }

  /**
   Acknowledgements equal messages handled, less the one that OVERFLOW stalls; the adapter never has
   more than one message unacknowledged and the driver never acknowledges out of turn.
   */
  lemma Acknowledgements(es: seq<Event>)
    ensures var s := State(es);
            && s.h.acks == s.h.handled - (if s.d.overflow then 1 else 0)
            && 0 <= s.a.unacked <= 1
            && (s.a.unacked == 1 <==> s.d.writeOk || s.d.overflow)
  {
    Reachable(es);
  }

  /** The re-read inside a reader's pass always fits, appends, and clears OVERFLOW for good. */
  lemma RereadFits(es: seq<Event>, length: nat)
    requires State(es).d.overflow && |State(es).d.outbound| < length
    ensures var d := State(es).d;
            var d' := OutboundMQRead(d.(outbound := []));
            && 1 <= |d.message| <= 124 && !ExactFill([], RING_SIZE, d.message)
            && d'.outbound == d.message && d'.signals == [DataReadOk, WakeReaders]
            && Delivered(d, length) == d.outbound + Taken(d.message, length - |d.outbound|)
            && !RemovePass(d, length).overflow
  {
    Reachable(es);
    assert [] + State(es).d.message == State(es).d.message;
    assert ([] + [DataReadOk]) + [WakeReaders] == [DataReadOk, WakeReaders];
  }

  // ---------------------------------------------------------------------------------------------
  // Progress

  /** The adapter consumes its chunk and the interrupt is handled. */
  function ChunkRound(s: System): System {
    Step(Step(s, AdapterConsumes), Interrupt)
  }

  function Rounds(s: System, k: nat): System {
    if k == 0 then s else ChunkRound(Rounds(s, k - 1))
  }

  lemma ChunkRoundKeeps(s: System, t: System)
    requires Inv(s) && t == ChunkRound(s)
    ensures Inv(t)
  {
    StepKeeps(s, AdapterConsumes);
    StepKeeps(Step(s, AdapterConsumes), Interrupt);
  }

  lemma OneRound(s: System)
    requires Handshake(s)
    ensures var s' := ChunkRound(s);
            && s'.d.inbound == AfterRemove(s.d.inbound, CHUNK)
            && (s'.d.underflow <==> s.d.inbound == [])
  {
    var t := Step(s, AdapterConsumes);
    assert t.d == s.d.(readOk := t.d.readOk) && (t.d.readOk <==> !s.d.underflow);
    InterruptIsDoorbellHandler(t);
    DoorbellInbound(t.d);
  }

  lemma DoorbellInbound(d: Driver)
    ensures var d' := HandleDoorbell(d);
            if d.readOk
            then d'.inbound == AfterRemove(d.inbound, CHUNK) && (d'.underflow <==> d.underflow || d.inbound == [])
            else d'.inbound == d.inbound && d'.underflow == d.underflow
  {
  }

  /**
   From any reachable state with a chunk outstanding and n bytes queued, exactly the ceil(n/124)+1-th round
   sets UNDERFLOW; every writer is then awake, with room for any one of them.
   */
  lemma WritersGetUnstuck(es: seq<Event>, k: nat)
    ensures var s, s' := State(es), Rounds(State(es), k);
            && (s'.d.underflow <==> s.d.underflow || k >= (|s.d.inbound| + 123) / 124 + 1)
            && (s'.d.underflow ==> WritersCanProceed(s'))
  {
    Reachable(es);
    RoundsKeepInv(State(es), k);
    RoundsDrain(State(es), k);
    if Rounds(State(es), k).d.underflow {
      DrainedMeansAwake(Rounds(State(es), k));
    }
  }

  lemma {:induction false} RoundsKeepInv(s: System, k: nat)
    requires Inv(s)
    ensures Inv(Rounds(s, k))
  {
    if k == 0 {
      assert Rounds(s, 0) == s;
    } else {
      RoundsKeepInv(s, k - 1);
      ChunkRoundKeeps(Rounds(s, k - 1), Rounds(s, k));
    }
  }

  /** What a round does to ring and flag. */
  predicate ChunkGone(before: Driver, after: Driver) {
    && after.inbound == AfterRemove(before.inbound, CHUNK)
    && (after.underflow <==> before.inbound == [])
  }

  lemma RoundTakesChunk(s: System, k: nat)
    requires Inv(s)
    ensures ChunkGone(Rounds(s, k).d, Rounds(s, k + 1).d)
  {
    RoundsKeepInv(s, k);
    OneRound(Rounds(s, k));
  }

  /** What k rounds do. */
  predicate Drained(before: Driver, after: Driver, k: nat) {
    && after.inbound == AfterRemove(before.inbound, CHUNK * k)
    && (after.underflow <==> if k == 0 then before.underflow else |before.inbound| <= CHUNK * (k - 1))
  }

  lemma DrainedMore(first: Driver, before: Driver, after: Driver, k: nat)
    requires Drained(first, before, k) && ChunkGone(before, after)
    ensures Drained(first, after, k + 1)
  {
    RemoveAgain(first.inbound, CHUNK * k);
  }

  lemma {:induction false} RoundsDrain(s: System, k: nat)
    requires Inv(s)
    ensures Drained(s.d, Rounds(s, k).d, k)
  {
    if k > 0 {
      RoundsDrain(s, k - 1);
      RoundTakesChunk(s, k - 1);
      DrainedMore(s.d, Rounds(s, k - 1).d, Rounds(s, k).d, k - 1);
    } else {
      assert Rounds(s, 0) == s;
    }
  }

  lemma RemoveAgain(q: seq<byte>, n: nat)
    ensures AfterRemove(AfterRemove(q, n), CHUNK) == AfterRemove(q, n + CHUNK)
  {
    if n + CHUNK < |q| {
      assert q[n..][CHUNK..] == q[n + CHUNK..];
    }
  }

  /** A thread comes in to read r bytes and makes its pass. */
  function ReaderRound(s: System, id: nat, r: nat, timeout: int): System {
    Step(Step(s, StartRead(id, r, timeout)), ReaderRuns(id))
  }

  function ReaderRounds(s: System, id: nat, r: nat, timeout: int, k: nat): System {
    if k == 0 then s else ReaderRound(ReaderRounds(s, id, r, timeout, k - 1), id, r, timeout)
  }

  lemma ReaderStepIs(s: System, id: nat)
    requires id in s.readers
    ensures var s', r := ReaderStep(s, id), s.readers[id];
            && s'.d == RemovePass(s.d, r.length).(signals := [], timer := s'.d.timer)
            && s'.h.handled == s.h.handled && s'.d.writeOk == s.d.writeOk
            && (Delivered(s.d, r.length) != [] ==> s'.readers.Keys == s.readers.Keys - {id})
  {
    var r := s.readers[id];
    SettleOnlySignals(s.(d := StartTimer(RemovePass(s.d, r.length), r.timeout)));
    var t := s.(d := RemovePass(s.d, r.length), readers := s.readers - {id},
                h := s.h.(delivered := s.h.delivered + Delivered(s.d, r.length)));
    SettleOnlySignals(t);
    SettleKeepsIds(t);
  }

  /** No message has arrived. */
  ghost predicate OnlyReads(s: System, t: System) {
    Inv(t) && t.h.handled == s.h.handled && t.d.writeOk == s.d.writeOk
  }

  lemma RoundKeeps(s: System, id: nat, r: nat, timeout: int)
    requires Inv(s)
    ensures OnlyReads(s, ReaderRound(s, id, r, timeout))
  {
    var t := Step(s, StartRead(id, r, timeout));
    StepKeeps(s, StartRead(id, r, timeout));
    StepKeeps(t, ReaderRuns(id));
    if Enabled(t, ReaderRuns(id)) {
      ReaderStepIs(t, id);
    }
  }

  lemma {:induction false} RoundsKeep(s: System, id: nat, r: nat, timeout: int, k: nat)
    requires Inv(s)
    ensures OnlyReads(s, ReaderRounds(s, id, r, timeout, k))
  {
    if k > 0 {
      RoundsKeep(s, id, r, timeout, k - 1);
      RoundKeeps(ReaderRounds(s, id, r, timeout, k - 1), id, r, timeout);
    }
  }

  /** A message is stalled in the adapter, and no thread is called id. */
  ghost predicate Stalled(s: System, id: nat) {
    s.d.overflow && 1 <= |s.d.message| <= CHUNK && |s.d.outbound| < RING_SIZE && id !in s.readers
  }

  /** A read then takes its fill of the ring, or clears OVERFLOW. */
  lemma ReadWhileStalled(s: System, id: nat, r: nat, timeout: int)
    requires Stalled(s, id) && 1 <= r <= MESSAGE_BUFFER
    ensures var s' := ReaderRound(s, id, r, timeout);
            if r <= |s.d.outbound| then Stalled(s', id) && s'.d.outbound == s.d.outbound[r..] else !s'.d.overflow
  {
    var t := s.(readers := s.readers[id := Reader(r, timeout, false, false)]);
    assert Step(s, StartRead(id, r, timeout)) == t;
    ReaderStepIs(t, id);
    ReadStep(s.d, r);
    ShortReadMeansDrained(s.d, r);
  }

  lemma SettleKeepsIds(s: System)
    ensures Settle(s).readers.Keys == s.readers.Keys
  {
    ReceiveAllKeepsIds(s.(d := s.d.(signals := [])), s.d.signals);
  }

  lemma {:induction false} ReceiveAllKeepsIds(s: System, signals: seq<Signal>)
    ensures ReceiveAll(s, signals).readers.Keys == s.readers.Keys
  {
    if signals != [] {
      ReceiveAllKeepsIds(s, signals[..|signals| - 1]);
      var t := ReceiveAll(s, signals[..|signals| - 1]);
      assert Receive(t, signals[|signals| - 1]).readers.Keys == t.readers.Keys;
    }
  }

  /** Without a message from the adapter no read stalls one. */
  lemma ReadWhileClear(s: System, id: nat, r: nat, timeout: int)
    requires !s.d.overflow
    ensures !ReaderRound(s, id, r, timeout).d.overflow
  {
    var t := Step(s, StartRead(id, r, timeout));
    if Enabled(t, ReaderRuns(id)) {
      ReaderStepIs(t, id);
      ReadStep(t.d, t.readers[id].length);
    }
  }

  /** How many times r bytes can be taken from u. */
  function Turns(u: nat, r: nat): nat
    requires r >= 1
  {
    if u < r then 0 else 1 + Turns(u - r, r)
  }

  lemma {:induction false} TurnsIsQuotient(u: nat, r: nat)
    requires r >= 1
    ensures Turns(u, r) == u / r
  {
    DivLess(u, r);
    if u >= r {
      TurnsIsQuotient(u - r, r);
    }
  }

  /** Where k reads of r bytes have come, from `first`. */
  ghost predicate AfterReads(first: Driver, s: System, id: nat, r: nat, k: nat)
    requires r >= 1
  {
    && (s.d.overflow <==> k <= Turns(|first.outbound|, r))
    && (s.d.overflow ==> Stalled(s, id) && Turns(|s.d.outbound|, r) == Turns(|first.outbound|, r) - k)
  }

  lemma OneMoreRead(first: Driver, s: System, id: nat, r: nat, timeout: int, k: nat)
    requires 1 <= r <= MESSAGE_BUFFER && AfterReads(first, s, id, r, k)
    ensures AfterReads(first, ReaderRound(s, id, r, timeout), id, r, k + 1)
  {
    if s.d.overflow {
      ReadWhileStalled(s, id, r, timeout);
    } else {
      ReadWhileClear(s, id, r, timeout);
    }
  }

  lemma {:induction false} RoundsClear(s: System, id: nat, r: nat, timeout: int, k: nat)
    requires Stalled(s, id) && 1 <= r <= MESSAGE_BUFFER
    ensures AfterReads(s.d, ReaderRounds(s, id, r, timeout, k), id, r, k)
  {
    if k > 0 {
      RoundsClear(s, id, r, timeout, k - 1);
      OneMoreRead(s.d, ReaderRounds(s, id, r, timeout, k - 1), id, r, timeout, k - 1);
    }
  }

  /**
   From any reachable state in which a message is stalled behind u queued bytes: reads of r bytes, by any
   thread and with any timeout, leave it stalled up to the floor(u/r)-th. The next one clears OVERFLOW and
   acknowledges, once; the adapter may then post again.
   */
  lemma ReadersClearOverflow(es: seq<Event>, id: nat, r: nat, timeout: int, k: nat)
    requires State(es).d.overflow && id !in State(es).readers && 1 <= r <= MESSAGE_BUFFER
    ensures var s, s' := State(es), ReaderRounds(State(es), id, r, timeout, k);
            && (s'.d.overflow <==> k <= |s.d.outbound| / r)
            && s'.h.acks == s.h.acks + (if s'.d.overflow then 0 else 1)
            && s'.a.unacked == (if s'.d.overflow then 1 else 0)
  {
    Reachable(es);
    TurnsIsQuotient(|State(es).d.outbound|, r);
    RoundsKeep(State(es), id, r, timeout, k);
    RoundsClear(State(es), id, r, timeout, k);
  }

  // ---------------------------------------------------------------------------------------------
  // The exact fill is reachable on both queues

  function TwoWrites(first: seq<byte>, second: seq<byte>): seq<Event> {
    [StartWrite(0, first), WriterRuns(0), StartWrite(1, second), WriterRuns(1)]
  }

  /**
   A 4096-byte write, of which one chunk goes out at once, and then a 125-byte write: both are
   accepted, nothing is cleared, and all but the first chunk is gone.
   */
  lemma ExactFillLosesWrites(first: seq<byte>, second: seq<byte>)
    requires |first| == 4096 && |second| == 125
    ensures var s := State(TwoWrites(first, second));
            s.h.accepted == first + second && s.h.chunks == [first[..124]] && s.d.inbound == [] && s.writers == map[]
  {
    var es := TwoWrites(first, second);
    assert es[..1][..0] == [] && es[..2][..1] == es[..1] && es[..3][..2] == es[..2];
    var s1 := State(es[..1]);
    assert State([]) == START;
    assert s1 == Step(START, StartWrite(0, first));
    var s2 := State(es[..2]);
    assert s2 == Step(s1, WriterRuns(0));
    FirstWrite(s1, first);
    var s3 := State(es[..3]);
    assert s3 == Step(s2, StartWrite(1, second));
    SettleSends(s3.(d := s3.d.(inbound := []), writers := map[],
                    h := s3.h.(accepted := first + second, lostIn := RING_SIZE)), WakeWriters, WakeWriters);
    assert s3.writers - {1} == map[];
  }

  lemma FirstWrite(s: System, buf: seq<byte>)
    requires |buf| == 4096 && s == Step(START, StartWrite(0, buf))
    ensures var s' := Step(s, WriterRuns(0));
            && |s'.d.inbound| == 3972 && !s'.d.underflow && s'.d.signals == []
            && s'.writers == map[] && s'.h.accepted == buf && s'.h.lostIn == 0
            && s'.h.chunks == [buf[..CHUNK]]
  {
    assert s == START.(writers := map[0 := Writer(buf, false)]);
    FirstInsert(buf);
    var chunk := buf[..CHUNK];
    var t := START.(d := INITIAL.(inbound := buf[CHUNK..], underflow := false), h := START.h.(accepted := buf));
    assert s.writers - {0} == map[] && [] + buf == buf;
    assert WriterStep(s, 0) == Settle(t.(d := Send(t.d, DataWriteOk(chunk))));
    SettleSends(t, DataWriteOk(chunk), WakeWriters);
  }

  lemma FirstInsert(buf: seq<byte>)
    requires |buf| == 4096
    ensures HasRoom(INITIAL, buf) && !ExactFill(INITIAL.inbound, RING_SIZE, buf)
    ensures InsertPass(INITIAL, buf) ==
            Send(INITIAL.(inbound := buf[CHUNK..], underflow := false), DataWriteOk(buf[..CHUNK]))
  {
    assert [] + buf == buf;
  }

  function Zeros(n: nat): (z: seq<byte>)
    ensures |z| == n
  {
    seq(n, _ => 0)
  }

  /** k full messages from the adapter, each taken by its interrupt, nobody reading. */
  function FullMessages(k: nat): seq<Event> {
    if k == 0 then [] else FullMessages(k - 1) + [AdapterPosts(Zeros(CHUNK)), Interrupt]
  }

  lemma OneMessage(es: seq<Event>, message: seq<byte>)
    requires 1 <= |message| <= CHUNK && Accepts(State(es).d.outbound, RING_SIZE, message)
    requires State(es).a.unacked == 0 && !State(es).d.readOk
    ensures var s, s' := State(es), State(es + [AdapterPosts(message), Interrupt]);
            && s'.d.outbound == AfterInsert(s.d.outbound, RING_SIZE, message)
            && s'.a.unacked == 0 && !s'.d.readOk
            && s'.h.posted == s.h.posted + message && s'.h.delivered == s.h.delivered
  {
    Reachable(es);
    StateNext(es, AdapterPosts(message));
    StateNext(es + [AdapterPosts(message)], Interrupt);
    assert es + [AdapterPosts(message)] + [Interrupt] == es + [AdapterPosts(message), Interrupt];
    OneMessageStep(State(es), message);
  }

  lemma StateNext(es: seq<Event>, e: Event)
    ensures State(es + [e]) == Step(State(es), e)
  {
    assert (es + [e])[..|es + [e]| - 1] == es;
    assert (es + [e])[|es + [e]| - 1] == e;
  }

  lemma OneMessageStep(s: System, message: seq<byte>)
    requires Inv(s) && Enabled(s, AdapterPosts(message)) && !s.d.readOk
    requires Accepts(s.d.outbound, RING_SIZE, message)
    ensures var s' := Step(Step(s, AdapterPosts(message)), Interrupt);
            && s'.d.outbound == AfterInsert(s.d.outbound, RING_SIZE, message)
            && s'.a.unacked == 0 && !s'.d.readOk
            && s'.h.posted == s.h.posted + message && s'.h.delivered == s.h.delivered
  {
    StepKeeps(s, AdapterPosts(message));
    var t := Step(s, AdapterPosts(message));
    MessageArrivesChanges(t);
    MessageArrivesKeeps(t);
    assert ChunkConsumed(MessageArrives(t)) == MessageArrives(t);
  }

  lemma {:induction false} FullMessagesFill(k: nat)
    requires k * CHUNK < RING_SIZE
    ensures var s := State(FullMessages(k));
            && |s.d.outbound| == k * CHUNK && s.a.unacked == 0 && !s.d.readOk
            && |s.h.posted| == k * CHUNK && s.h.delivered == []
  {
    if k > 0 {
      FullMessagesFill(k - 1);
      OneMessage(FullMessages(k - 1), Zeros(CHUNK));
    }
  }

  /** 33 full messages and one of 5 bytes, all acknowledged and never read, leave nothing to read. */
  lemma ExactFillLosesMessages()
    ensures var s := State(FullMessages(33) + [AdapterPosts(Zeros(5)), Interrupt]);
            |s.h.posted| == 4097 && s.h.delivered + s.d.outbound == [] && s.a.unacked == 0
  {
    FullMessagesFill(33);
    OneMessage(FullMessages(33), Zeros(5));
  }
}
