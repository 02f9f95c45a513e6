/** Who rings and wakes whom: the signals of each gated section, and who falls asleep and is woken in a run. */
module MessageWakeups {
  import opened Bytes
  import opened ByteQueue
  import opened MessageQueueSpec
  import opened MessageProtocol

  // ---------------------------------------------------------------------------------------------
  // Signals

  /** What the adapter sees and who is woken, in this order, for a chunk or a drain. */
  function ChunkSignals(inbound: seq<byte>): seq<Signal> {
    if inbound == [] then [WakeWriters]
    else [DataWriteOk(if |inbound| > 124 then inbound[..124] else inbound)]
  }

  lemma InboundWriteSends(d: Driver)
    ensures InboundMQWrite(d).signals == d.signals + ChunkSignals(d.inbound)
  {
  }

  lemma OutboundReadSends(d: Driver)
    ensures OutboundMQRead(d).signals ==
            d.signals + if |d.outbound| + |d.message| <= 4097 then [DataReadOk, WakeReaders] else []
  {
    assert (d.signals + [DataReadOk]) + [WakeReaders] == d.signals + [DataReadOk, WakeReaders];
  }

  /**
   A writer kicks only a quiescent adapter, with what its bytes have become: after an exact fill there is
   nothing to send, and the writers are woken instead.
   */
  lemma WriterSends(d: Driver, buf: seq<byte>)
    ensures InsertPass(d, buf).signals ==
            d.signals + if !d.underflow || |d.inbound| + |buf| > 4097 then []
                        else ChunkSignals(if |d.inbound| + |buf| == 4097 then [] else d.inbound + buf)
  {
  }

  /** A reader that asks for more than the ring has acknowledges a stalled message; it sends nothing else. */
  lemma ReaderSends(d: Driver, length: nat)
    requires |d.message| <= 124
    ensures RemovePass(d, length).signals ==
            d.signals + if d.overflow && |d.outbound| < length then [DataReadOk, WakeReaders] else []
  {
    OutboundReadSends(d.(outbound := []));
  }

  /** The message's signals come before the chunk's. */
  lemma DoorbellSends(d: Driver)
    ensures HandleDoorbell(d).signals ==
            d.signals
            + (if d.writeOk && |d.outbound| + |d.message| <= 4097 then [DataReadOk, WakeReaders] else [])
            + (if d.readOk then ChunkSignals(d.inbound) else [])
  {
    var d0 := d.(writeOk := false, readOk := false);
    OutboundReadSends(d0);
    InboundWriteSends(if d.writeOk then OutboundMQRead(d0) else d0);
  }

  /** Clearing wakes nobody, and rings only for a message it drops. */
  lemma ClearSends(d: Driver)
    ensures InboundMQBufferClear(d).signals == d.signals
    ensures OutboundMQBufferClear(d).signals == d.signals + if d.overflow then [DataReadOk] else []
  {
  }

  // ---------------------------------------------------------------------------------------------
  // Sleepers

  function AllReadersAwake(s: System): map<nat, Reader> {
    map id | id in s.readers :: s.readers[id].(asleep := false)
  }

  function AllWritersAwake(s: System): map<nat, Writer> {
    map id | id in s.writers :: s.writers[id].(asleep := false)
  }

  /** Sleepers depend on the signals for them alone. */
  lemma {:induction false} ReceiveAllWakes(s: System, signals: seq<Signal>)
    ensures ReceiveAll(s, signals).readers == if WakeReaders in signals then AllReadersAwake(s) else s.readers
    ensures ReceiveAll(s, signals).writers == if WakeWriters in signals then AllWritersAwake(s) else s.writers
  {
    if signals != [] {
      var n := |signals| - 1;
      ReceiveAllWakes(s, signals[..n]);
      assert signals == signals[..n] + [signals[n]];
    }
  }

  lemma SettleWakes(s: System)
    ensures Settle(s).readers == if WakeReaders in s.d.signals then AllReadersAwake(s) else s.readers
    ensures Settle(s).writers == if WakeWriters in s.d.signals then AllWritersAwake(s) else s.writers
  {
    ReceiveAllWakes(s.(d := s.d.(signals := [])), s.d.signals);
  }

  lemma WriterRunWakes(s: System, id: nat)
    requires Inv(s) && Enabled(s, WriterRuns(id)) && !s.d.underflow
    ensures var s' := Step(s, WriterRuns(id));
            && s'.readers == s.readers
            && (forall w <- s.writers | w != id :: w in s'.writers && s'.writers[w] == s.writers[w])
  {
    var buf := s.writers[id].buf;
    if HasRoom(s.d, buf) {
      WriterSends(s.d, buf);
      SettleWakes(AfterAccept(s, id));
      assert WriterStep(s, id) == Settle(AfterAccept(s, id));
    }
  }

  /** A write never wakes a reader; the kick that ends in a drain may wake writers, of whom none is asleep. */
  lemma WriterRunSparesReaders(s: System, id: nat)
    requires s.d.signals == [] && id in s.writers
    ensures WriterStep(s, id).readers == s.readers
  {
    var buf := s.writers[id].buf;
    if HasRoom(s.d, buf) {
      WriterSparesReaders(s.d, buf);
      var lost := if ExactFill(s.d.inbound, RING_SIZE, buf) then RING_SIZE else 0;
      SettleWakes(s.(d := InsertPass(s.d, buf), writers := s.writers - {id},
                     h := s.h.(accepted := s.h.accepted + buf, lostIn := s.h.lostIn + lost)));
    }
  }

  lemma WriterSparesReaders(d: Driver, buf: seq<byte>)
    requires d.signals == []
    ensures WakeReaders !in InsertPass(d, buf).signals
  {
    WriterSends(d, buf);
  }

  lemma ReaderRunWakes(s: System, id: nat)
    requires Inv(s) && Enabled(s, ReaderRuns(id))
    ensures var s' := Step(s, ReaderRuns(id));
            && s'.writers == s.writers
            && (!s.d.overflow ==>
                  forall r <- s.readers | r != id :: r in s'.readers && s'.readers[r] == s.readers[r])
  {
    var r := s.readers[id];
    ReaderSendsNoWakeup(s.d, r.length);
    SettleWakes(s.(d := StartTimer(RemovePass(s.d, r.length), r.timeout)));
    SettleWakes(s.(d := RemovePass(s.d, r.length), readers := s.readers - {id},
                   h := s.h.(delivered := s.h.delivered + Delivered(s.d, r.length))));
  }

  lemma ReaderSendsNoWakeup(d: Driver, length: nat)
    requires d.signals == [] && (d.overflow ==> |d.message| <= 124)
    ensures WakeWriters !in RemovePass(d, length).signals
    ensures !d.overflow ==> RemovePass(d, length).signals == []
  {
    if d.overflow {
      ReaderSends(d, length);
    }
  }

  lemma ClearWakes(s: System)
    requires s.d.signals == []
    ensures Step(s, CallOutboundClear).readers == s.readers && Step(s, CallOutboundClear).writers == s.writers
  {
    ClearSends(s.d);
    var lost := |s.d.outbound| + if s.d.overflow then |s.d.message| else 0;
    HandlerWakes(s, s.(d := OutboundMQBufferClear(s.d), h := s.h.(lostOut := s.h.lostOut + lost)));
  }

  lemma TimeoutWakes(s: System)
    requires Inv(s) && s.d.timer > 0
    ensures Step(s, ReadTimeout).readers == AllReadersAwake(s) && Step(s, ReadTimeout).writers == s.writers
  {
    TimeoutKeeps(s);
  }

  lemma DoorbellWakes(d: Driver)
    requires d.signals == []
    ensures WakeReaders in HandleDoorbell(d).signals <==> d.writeOk && |d.outbound| + |d.message| <= 4097
    ensures WakeWriters in HandleDoorbell(d).signals <==> d.readOk && d.inbound == []
  {
    DoorbellSends(d);
  }

  /** READ_OK is the writers' and WRITE_OK the readers'. */
  lemma InterruptWakes(s: System)
    requires s.d.signals == []
    ensures var s' := Step(s, Interrupt);
            && s'.readers == (if s.d.writeOk && |s.d.outbound| + |s.d.message| <= 4097
                              then AllReadersAwake(s) else s.readers)
            && s'.writers == (if s.d.readOk && s.d.inbound == [] then AllWritersAwake(s) else s.writers)
  {
    InterruptIsDoorbellHandler(s);
    DoorbellWakes(s.d);
    var t, d := TakeWriteOk(s), HandleDoorbell(s.d);
    assert t.readers == s.readers && t.writers == s.writers;
    if s.d.readOk {
      HandlerWakes(s, TakeReadOk(t, d));
    } else {
      HandlerWakes(s, t.(d := d));
    }
  }

  lemma HandlerWakes(s: System, t: System)
    requires t.readers == s.readers && t.writers == s.writers
    ensures Settle(t).readers == if WakeReaders in t.d.signals then AllReadersAwake(s) else s.readers
    ensures Settle(t).writers == if WakeWriters in t.d.signals then AllWritersAwake(s) else s.writers
  {
    SettleWakes(t);
  }

  /**
   A sleeping reader is woken by the timer, by an interruption of its own, or by the interrupt for a message;
   by nothing else, and its request is left as it is.
   */
  lemma WhoWakesReaders(s: System, e: Event, id: nat)
    requires Inv(s) && Enabled(s, e) && id in s.readers && s.readers[id].asleep
    ensures var s' := Step(s, e);
            && id in s'.readers && s'.readers[id] == s.readers[id].(asleep := s'.readers[id].asleep)
            && (!s'.readers[id].asleep <==>
                  e == ReadTimeout || e == ReaderInterrupted(id) || (e == Interrupt && s.d.writeOk))
  {
    match e {
      case WriterRuns(w) => WriterRunSparesReaders(s, w);
      case ReaderRuns(r) => ReaderRunWakes(s, r);
      case CallOutboundClear => ClearWakes(s);
      case ReadTimeout => TimeoutWakes(s);
      case Interrupt => InterruptWakes(s);
      case _ =>
    }
  }

  /** A sleeping writer is woken by an interruption of its own, or by the READ_OK that finds the ring drained. */
  lemma WhoWakesWriters(s: System, e: Event, id: nat)
    requires Inv(s) && Enabled(s, e) && id in s.writers && s.writers[id].asleep
    ensures var s' := Step(s, e);
            && id in s'.writers && s'.writers[id] == s.writers[id].(asleep := s'.writers[id].asleep)
            && (!s'.writers[id].asleep <==>
                  e == WriterInterrupted(id) || (e == Interrupt && s.d.readOk && s.d.inbound == []))
  {
    match e {
      case WriterRuns(w) => WriterRunWakes(s, w);
      case ReaderRuns(r) => ReaderRunWakes(s, r);
      case CallOutboundClear => ClearWakes(s);
      case ReadTimeout => TimeoutWakes(s);
      case Interrupt => InterruptWakes(s);
      case _ =>
    }
  }

  // ---------------------------------------------------------------------------------------------
  // Who falls asleep

  /** A write goes to sleep exactly when its bytes do not fit in 4097 slots, and then changes nothing else. */
  lemma WriteEndsOrSleeps(s: System, id: nat)
    requires Inv(s) && Enabled(s, WriterRuns(id))
    ensures var s', buf := Step(s, WriterRuns(id)), s.writers[id].buf;
            if |s.d.inbound| + |buf| > 4097 then s' == s.(writers := s.writers[id := Writer(buf, true)])
            else id !in s'.writers && s'.h.accepted == s.h.accepted + buf
  {
    if HasRoom(s.d, s.writers[id].buf) {
      AcceptedWriteEnds(s, id);
    }
  }

  lemma AcceptedWriteEnds(s: System, id: nat)
    requires id in s.writers && HasRoom(s.d, s.writers[id].buf)
    ensures id !in WriterStep(s, id).writers
    ensures WriterStep(s, id).h.accepted == s.h.accepted + s.writers[id].buf
  {
    var buf := s.writers[id].buf;
    var lost := if ExactFill(s.d.inbound, RING_SIZE, buf) then RING_SIZE else 0;
    var t := s.(d := InsertPass(s.d, buf), writers := s.writers - {id},
                h := s.h.(accepted := s.h.accepted + buf, lostIn := s.h.lostIn + lost));
    SettleWakes(t);
    SettleOnlySignals(t);
  }

  /**
   A read goes to sleep exactly when there is nothing to read, it was willing to wait and has not yet slept;
   it then changes nothing but the timer. Otherwise it returns.
   */
  lemma ReadEndsOrSleeps(s: System, id: nat)
    requires Inv(s) && Enabled(s, ReaderRuns(id))
    ensures var s', r := Step(s, ReaderRuns(id)), s.readers[id];
            if s.d.outbound == [] && !s.d.overflow && r.timeout > 0 && !r.slept
            then s' == s.(d := s.d.(timer := r.timeout),
                          readers := s.readers[id := Reader(r.length, r.timeout, true, true)])
            else id !in s'.readers
  {
    var r := s.readers[id];
    if s.d.overflow {
      NothingDelivered(s.d, r.length);
    }
    if Delivered(s.d, r.length) == [] && !r.slept && r.timeout > 0 {
      var t := s.(d := StartTimer(s.d, r.timeout));
      assert RemovePass(s.d, r.length) == s.d;
      SettleSends(t, WakeReaders, WakeReaders);
    } else {
      SettleWakes(s.(d := RemovePass(s.d, r.length), readers := s.readers - {id},
                     h := s.h.(delivered := s.h.delivered + Delivered(s.d, r.length))));
    }
  }

  // ---------------------------------------------------------------------------------------------
  // What only the adapter does

  lemma SettleKeepsDriver(s: System)
    ensures Settle(s).d == s.d.(signals := [])
  {
    SettleOnlySignals(s);
  }

  /** A doorbell is up from the adapter's move to the next interrupt; the message buffer is the adapter's alone. */
  lemma DoorbellsAndMessage(s: System, e: Event)
    requires s.d.signals == [] && Enabled(s, e)
    ensures var d := Step(s, e).d;
            && (d.writeOk <==> e.AdapterPosts? || (s.d.writeOk && e != Interrupt))
            && (d.readOk <==> e == AdapterConsumes || (s.d.readOk && e != Interrupt))
            && d.message == if e.AdapterPosts? then e.message else s.d.message
  {
    match e {
      case WriterRuns(id) => WriterSparesDoorbells(s, id);
      case ReaderRuns(id) => ReaderSparesDoorbells(s, id);
      case CallOutboundClear =>
        var lost := |s.d.outbound| + if s.d.overflow then |s.d.message| else 0;
        SettleKeepsDriver(s.(d := OutboundMQBufferClear(s.d), h := s.h.(lostOut := s.h.lostOut + lost)));
      case ReadTimeout => SettleKeepsDriver(s.(d := OutboundMQWakeup(s.d)));
      case Interrupt => InterruptIsDoorbellHandler(s);
      case _ =>
    }
  }

  /** The doorbells and the message buffer. */
  predicate SameRegisters(d: Driver, d': Driver) {
    d'.writeOk == d.writeOk && d'.readOk == d.readOk && d'.message == d.message
  }

  lemma WriterSparesDoorbells(s: System, id: nat)
    requires id in s.writers
    ensures SameRegisters(s.d, WriterStep(s, id).d)
  {
    var buf := s.writers[id].buf;
    var lost := if ExactFill(s.d.inbound, RING_SIZE, buf) then RING_SIZE else 0;
    SettleKeepsDriver(s.(d := InsertPass(s.d, buf), writers := s.writers - {id},
                         h := s.h.(accepted := s.h.accepted + buf, lostIn := s.h.lostIn + lost)));
  }

  lemma ReaderSparesDoorbells(s: System, id: nat)
    requires id in s.readers
    ensures SameRegisters(s.d, ReaderStep(s, id).d)
  {
    var r := s.readers[id];
    SettleKeepsDriver(s.(d := StartTimer(RemovePass(s.d, r.length), r.timeout)));
    SettleKeepsDriver(s.(d := RemovePass(s.d, r.length), readers := s.readers - {id},
                         h := s.h.(delivered := s.h.delivered + Delivered(s.d, r.length))));
  }
}
