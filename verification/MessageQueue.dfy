/** The message queue code of ArcMSRMessageQueue.cpp on its two rings and the mapped message buffers. */
module MessageQueues {
  import opened Bytes
  import opened ByteQueue
  import opened RingBuffers
  import opened MessageQueueSpec

  // ---------------------------------------------------------------------------------------------
  // Calls that may sleep. While a caller sleeps, other threads run gated sections.

  /** A writer whose k-th sleep lets sleeps[k] happen. */
  function WriteCall(d: Driver, buf: seq<byte>, sleeps: seq<seq<Section>>): Driver
    decreases |sleeps|
  {
    if HasRoom(d, buf) || sleeps == [] then InsertPass(d, buf)
    else WriteCall(PerformAll(InsertPass(d, buf), sleeps[0]), buf, sleeps[1..])
  }

  /** The writer got its bytes in; otherwise it is still asleep when `sleeps` ends. */
  predicate WriteCallDone(d: Driver, buf: seq<byte>, sleeps: seq<seq<Section>>)
    decreases |sleeps|
  {
    HasRoom(d, buf) ||
    (sleeps != [] && WriteCallDone(PerformAll(InsertPass(d, buf), sleeps[0]), buf, sleeps[1..]))
  }

  /** The state in which a reader makes its last pass: it may sleep once, letting `others` happen. */
  function BeforeLastPass(d: Driver, length: nat, timeout: int, others: seq<Section>): Driver {
    if Delivered(d, length) == [] && timeout > 0
    then PerformAll(StartTimer(RemovePass(d, length), timeout), others)
    else d
  }

  function Concat(sleeps: seq<seq<Section>>): seq<Section> {
    if sleeps == [] then [] else sleeps[0] + Concat(sleeps[1..])
  }

  lemma {:induction false} PerformAllConcat(d: Driver, a: seq<Section>, b: seq<Section>)
    ensures PerformAll(d, a + b) == PerformAll(PerformAll(d, a), b)
  {
    if b == [] {
      assert a + b == a;
    } else {
      var n := |b| - 1;
      assert (a + b)[..|a + b| - 1] == a + b[..n];
      PerformAllConcat(d, a, b[..n]);
    }
  }

  /**
   A write that slept is atomic at the pass that is accepted: the outcome is that of the sections that
   ran meanwhile followed by one insert, and the failed attempts left no trace. A writer that is
   still asleep has changed nothing.
   */
  lemma {:induction false} WriteCallIsOneInsert(d: Driver, buf: seq<byte>, sleeps: seq<seq<Section>>)
    returns (slept: nat)
    ensures slept <= |sleeps|
    ensures var before := PerformAll(d, Concat(sleeps[..slept]));
            if WriteCallDone(d, buf, sleeps)
            then HasRoom(before, buf) && WriteCall(d, buf, sleeps) == Perform(before, WriterPass(buf))
            else slept == |sleeps| && WriteCall(d, buf, sleeps) == before
    decreases |sleeps|
  {
    if HasRoom(d, buf) || sleeps == [] {
      slept := 0;
    } else {
      var n := WriteCallIsOneInsert(PerformAll(d, sleeps[0]), buf, sleeps[1..]);
      slept := n + 1;
      assert sleeps[..slept][1..] == sleeps[1..][..n];
      PerformAllConcat(d, sleeps[0], Concat(sleeps[1..][..n]));
    }
  }

  /** A refused attempt leaves the call where it was, one sleep further on. */
  lemma WriteCallNext(d: Driver, buf: seq<byte>, sleeps: seq<seq<Section>>, k: nat)
    requires k < |sleeps| && !HasRoom(d, buf)
    ensures var d' := PerformAll(InsertPass(d, buf), sleeps[k]);
            && WriteCall(d, buf, sleeps[k..]) == WriteCall(d', buf, sleeps[k + 1..])
            && WriteCallDone(d, buf, sleeps[k..]) == WriteCallDone(d', buf, sleeps[k + 1..])
  {
    assert sleeps[k..][0] == sleeps[k] && sleeps[k..][1..] == sleeps[k + 1..];
  }

  lemma WriteCallEnds(d: Driver, buf: seq<byte>, sleeps: seq<seq<Section>>, k: nat)
    requires k <= |sleeps| && (HasRoom(d, buf) || k == |sleeps|)
    ensures WriteCall(d, buf, sleeps[k..]) == InsertPass(d, buf)
    ensures WriteCallDone(d, buf, sleeps[k..]) <==> HasRoom(d, buf)
  {
  }

  /** A read that slept is atomic at its second pass: the first took nothing and only set the timer. */
  lemma ReadCallIsOneRemove(d: Driver, length: nat, timeout: int, others: seq<Section>)
    requires 1 <= length && |d.outbound| < RING_SIZE
    requires d.overflow ==> 1 <= |d.message| <= CHUNK
    ensures BeforeLastPass(d, length, timeout, others) ==
            if Delivered(d, length) == [] && timeout > 0 then PerformAll(StartTimer(d, timeout), others) else d
  {
    ShortReadMeansDrained(d, length);
  }

  lemma SplicePrefix(d: seq<byte>, x: seq<byte>)
    requires |x| <= |d|
    ensures Splice(d, 0, x)[..|x|] == x
  {
  }

  // ---------------------------------------------------------------------------------------------

  class MessageQueues {
    const inboundMQBuffer: RingBuffer
    const outboundMQBuffer: RingBuffer
    var underflow: bool          // ARCMSR_MQF_UNDERFLOW
    var overflow: bool           // ARCMSR_MQF_OVERFLOW

    // the two ioctl_qbuffers of the message unit
    const wbuffer: array<byte>
    var wbufferLength: int
    const rbuffer: array<byte>
    var rbufferLength: int

    // the outbound doorbell register; the adapter sets its bits
    var dataWriteOk: bool        // ARCMSR_OUTBOUND_IOP331_DATA_WRITE_OK
    var dataReadOk: bool         // ARCMSR_OUTBOUND_IOP331_DATA_READ_OK

    // milliseconds outboundMQTimeout was last set to, 0 once it has fired
    var outboundMQTimeout: int

    // doorbell writes and wakeups so far
    var signals: seq<Signal>

    ghost function Repr(): set<object> {
      {this, inboundMQBuffer, inboundMQBuffer.data, outboundMQBuffer, outboundMQBuffer.data, wbuffer, rbuffer}
    }

    ghost predicate Valid()
      reads this, inboundMQBuffer, outboundMQBuffer
    {
      && inboundMQBuffer != outboundMQBuffer
      && inboundMQBuffer.data != outboundMQBuffer.data
      && wbuffer !in {inboundMQBuffer.data, outboundMQBuffer.data, rbuffer}
      && rbuffer !in {inboundMQBuffer.data, outboundMQBuffer.data}
      && inboundMQBuffer.Valid() && inboundMQBuffer.size == RING_SIZE
      && outboundMQBuffer.Valid() && outboundMQBuffer.size == RING_SIZE
      && wbuffer.Length == CHUNK && rbuffer.Length == CHUNK
      && 0 <= rbufferLength <= CHUNK
    }

    ghost function Abs(): Driver
      requires Valid()
      reads this, inboundMQBuffer, inboundMQBuffer.data, outboundMQBuffer, outboundMQBuffer.data, rbuffer
    {
      Driver(inboundMQBuffer.Contents(), underflow, outboundMQBuffer.Contents(), overflow,
             rbuffer[..rbufferLength], dataWriteOk, dataReadOk, outboundMQTimeout, signals)
    }

    constructor ()
      ensures Valid() && fresh(Repr()) && Abs() == INITIAL
    {
      inboundMQBuffer := new RingBuffer(MESSAGE_BUFFER);
      outboundMQBuffer := new RingBuffer(MESSAGE_BUFFER);
      wbuffer := new byte[CHUNK];
      rbuffer := new byte[CHUNK];
      underflow, overflow := true, false;
      dataWriteOk, dataReadOk, outboundMQTimeout := false, false, 0;
      wbufferLength, rbufferLength := 0, 0;
      signals := [];
    }

    method InboundMQWrite()
      requires Valid()
      modifies Repr()
      ensures Valid() && Abs() == MessageQueueSpec.InboundMQWrite(old(Abs()))
      ensures var q := old(inboundMQBuffer.Contents());
              if q == []
              then underflow && signals == old(signals) + [WakeWriters]
              else underflow == old(underflow)
                   && signals == old(signals) + [DataWriteOk(if |q| > 124 then q[..124] else q)]
    {
      ghost var was, chunk := wbuffer[..], Taken(Abs().inbound, CHUNK);
      var length := inboundMQBuffer.Remove(wbuffer, 0, CHUNK);
      if length > 0 {
        wbufferLength := length;
        SplicePrefix(was, chunk);
        signals := signals + [DataWriteOk(wbuffer[..wbufferLength])];
      } else {
        underflow := true;
        signals := signals + [WakeWriters];
      }
    }

    method InsertAttempt(dataBuf: array<byte>) returns (done: bool)
      requires Valid() && dataBuf !in Repr()
      modifies Repr()
      ensures Valid() && Abs() == InsertPass(old(Abs()), dataBuf[..])
      ensures done == HasRoom(old(Abs()), dataBuf[..])
    {
      done := inboundMQBuffer.InsertDescriptor(dataBuf);
      if done && underflow {
        underflow := false;
        InboundMQWrite();
      }
    }

    /** `sleeps` is what happens during each sleep; false when the account ends with the caller asleep. */
    method InboundMQBufferInsert(dataBuf: array<byte>, sleeps: seq<seq<Section>>) returns (done: bool)
      requires Valid() && dataBuf !in Repr()
      requires forall others <- sleeps, s <- others :: MessageFits(s)
      modifies Repr()
      ensures Valid() && Abs() == WriteCall(old(Abs()), dataBuf[..], sleeps)
      ensures done == WriteCallDone(old(Abs()), dataBuf[..], sleeps)
    {
      var k := 0;
      while true
        invariant 0 <= k <= |sleeps|
        invariant Valid() && dataBuf[..] == old(dataBuf[..])
        invariant WriteCall(Abs(), dataBuf[..], sleeps[k..]) == WriteCall(old(Abs()), dataBuf[..], sleeps)
        invariant WriteCallDone(Abs(), dataBuf[..], sleeps[k..]) == WriteCallDone(old(Abs()), dataBuf[..], sleeps)
        decreases |sleeps| - k
      {
        ghost var d := Abs();
        done := InsertAttempt(dataBuf);
        if done || k == |sleeps| {
          WriteCallEnds(d, dataBuf[..], sleeps, k);
          return;
        }
        WriteCallNext(d, dataBuf[..], sleeps, k);
        CommandSleep(sleeps[k]);
        k := k + 1;
      }
    }

    method OutboundMQRead()
      requires Valid()
      modifies Repr()
      ensures Valid() && Abs() == MessageQueueSpec.OutboundMQRead(old(Abs()))
      ensures if |old(outboundMQBuffer.Contents())| + old(rbufferLength) <= 4097
              then overflow == old(overflow) && signals == old(signals) + [DataReadOk, WakeReaders]
              else overflow && signals == old(signals)
    {
      var ok := outboundMQBuffer.Insert(rbuffer, rbufferLength);
      if ok {
        signals := signals + [DataReadOk];
        signals := signals + [WakeReaders];
        assert signals == old(signals) + [DataReadOk, WakeReaders];
      } else {
        overflow := true;
      }
    }

    /** Takes what the ring has into dataBuf, from byte `offset` on. */
    method Grab(dataBuf: array<byte>, offset: int) returns (count: int)
      requires Valid() && dataBuf !in Repr() && 0 <= offset <= dataBuf.Length
      modifies Repr(), dataBuf
      ensures var q, room := old(Abs()).outbound, dataBuf.Length - offset;
              && Valid() && Abs() == old(Abs()).(outbound := AfterRemove(q, room))
              && count == |Taken(q, room)| <= room
              && dataBuf[..] == Splice(old(dataBuf[..]), offset, Taken(q, room))
    {
      count := outboundMQBuffer.RemoveDescriptor(dataBuf, offset);
    }

    /** The overflow data is guaranteed to fit now, since the ring has just been emptied. */
    method GrabStalled(dataBuf: array<byte>, offset: int) returns (count: int)
      requires Valid() && dataBuf !in Repr() && 0 <= offset <= dataBuf.Length
      modifies Repr(), dataBuf
      ensures var d, room := FetchStalled(old(Abs())), dataBuf.Length - offset;
              && Valid() && Abs() == d.(outbound := AfterRemove(d.outbound, room))
              && count == |Taken(d.outbound, room)| <= room
              && dataBuf[..] == Splice(old(dataBuf[..]), offset, Taken(d.outbound, room))
    {
      OutboundMQRead();
      overflow := false;
      count := Grab(dataBuf, offset);
    }

    method RemoveAttempt(dataBuf: array<byte>) returns (total: int)
      requires Valid() && dataBuf !in Repr()
      modifies Repr(), dataBuf
      ensures Valid() && Abs() == RemovePass(old(Abs()), dataBuf.Length)
      ensures total == |Delivered(old(Abs()), dataBuf.Length)| <= dataBuf.Length
      ensures dataBuf[..] == Splice(old(dataBuf[..]), 0, Delivered(old(Abs()), dataBuf.Length))
    {
      ghost var d, was := Abs(), dataBuf[..];
      total := Grab(dataBuf, 0);
      if total < dataBuf.Length && overflow {
        ghost var rest := Taken(FetchStalled(Abs()).outbound, dataBuf.Length - total);
        var length := GrabStalled(dataBuf, total);
        SpliceTwice(was, 0, d.outbound, rest);
        assert Delivered(d, dataBuf.Length) == d.outbound + rest;
        total := total + length;
      } else {
        assert Delivered(d, dataBuf.Length) == Taken(d.outbound, dataBuf.Length);
      }
    }

    /** `others` is what happens while the caller sleeps, if it sleeps. */
    method OutboundMQBufferRemove(dataBuf: array<byte>, timeout: int, others: seq<Section>)
      returns (bytesRead: int)
      requires Valid() && dataBuf !in Repr()
      requires forall s <- others :: MessageFits(s)
      modifies Repr(), dataBuf
      ensures Valid()
      ensures var d := BeforeLastPass(old(Abs()), dataBuf.Length, timeout, others);
              && Abs() == RemovePass(d, dataBuf.Length)
              && bytesRead == |Delivered(d, dataBuf.Length)| <= dataBuf.Length
              && dataBuf[..] == Splice(old(dataBuf[..]), 0, Delivered(d, dataBuf.Length))
      ensures bytesRead < dataBuf.Length ==> outboundMQBuffer.Contents() == [] && !overflow
      ensures timeout <= 0 ==> Abs() == RemovePass(old(Abs()), dataBuf.Length)
      ensures var something := old(outboundMQBuffer.Contents()) != [] || (old(overflow) && old(rbufferLength) > 0);
              dataBuf.Length > 0 && something ==> Abs() == RemovePass(old(Abs()), dataBuf.Length)
    {
      NothingDelivered(Abs(), dataBuf.Length);
      var slept := false;
      while true
        invariant Valid() && dataBuf[..] == old(dataBuf[..])
        invariant if slept
                  then timeout > 0 && Delivered(old(Abs()), dataBuf.Length) == [] &&
                       Abs() == BeforeLastPass(old(Abs()), dataBuf.Length, timeout, others)
                  else Abs() == old(Abs())
        decreases !slept
      {
        ShortReadMeansDrained(Abs(), dataBuf.Length);
        bytesRead := RemoveAttempt(dataBuf);
        if !(bytesRead == 0 && !slept && timeout > 0) {
          return;
        }
        slept := true;
        outboundMQTimeout := timeout;
        CommandSleep(others);
      }
    }

    /** Writing the register clears the bits that are written as ones. */
    method SetOutboundDoorbell(writeOk: bool, readOk: bool)
      modifies `dataWriteOk, `dataReadOk
      ensures dataWriteOk == (old(dataWriteOk) && !writeOk) && dataReadOk == (old(dataReadOk) && !readOk)
    {
      dataWriteOk, dataReadOk := dataWriteOk && !writeOk, dataReadOk && !readOk;
    }

    /** Every doorbell that is up is acknowledged and served, the message before the chunk. */
    method HandleDoorbellInterrupt()
      requires Valid()
      modifies Repr()
      ensures Valid() && Abs() == HandleDoorbell(old(Abs()))
    {
      var writeOk, readOk := dataWriteOk, dataReadOk;
      SetOutboundDoorbell(writeOk, readOk);
      if writeOk {
        OutboundMQRead();
      }
      if readOk {
        InboundMQWrite();
      }
    }

    /** The timer's action. */
    method OutboundMQWakeup()
      requires Valid()
      modifies Repr()
      ensures Valid() && Abs() == MessageQueueSpec.OutboundMQWakeup(old(Abs()))
    {
      outboundMQTimeout := 0;
      signals := signals + [WakeReaders];
    }

    method InboundMQBufferClear()
      requires Valid()
      modifies Repr()
      ensures Valid() && Abs() == MessageQueueSpec.InboundMQBufferClear(old(Abs()))
    {
      inboundMQBuffer.Clear();
    }

    method OutboundMQBufferClear()
      requires Valid()
      modifies Repr()
      ensures Valid() && Abs() == MessageQueueSpec.OutboundMQBufferClear(old(Abs()))
    {
      outboundMQBuffer.Clear();
      if overflow {
        overflow := false;
        signals := signals + [DataReadOk];
      }
    }

    /** The adapter's side: a message of 1 to 124 bytes appears in ioctl_rbuffer, and its doorbell is raised. */
    method AdapterPostsMessage(bytes: seq<byte>)
      requires Valid() && 1 <= |bytes| <= CHUNK
      modifies Repr()
      ensures Valid()
      ensures Abs() == old(Abs()).(message := bytes, writeOk := true)
    {
      forall i | 0 <= i < |bytes| {
        rbuffer[i] := bytes[i];
      }
      rbufferLength, dataWriteOk := |bytes|, true;
      assert rbuffer[..rbufferLength] == bytes;
    }

    method PerformSection(s: Section)
      requires Valid() && MessageFits(s)
      modifies Repr()
      ensures Valid() && Abs() == Perform(old(Abs()), s)
    {
      match s
      case WriterPass(buf) =>
        var dataBuf := new byte[|buf|](i requires 0 <= i < |buf| => buf[i]);
        assert dataBuf[..] == buf;
        var _ := InsertAttempt(dataBuf);
      case ReaderPass(length) =>
        var dataBuf := new byte[length](_ => 0);
        var _ := RemoveAttempt(dataBuf);
      case DoorbellInterrupt =>
        HandleDoorbellInterrupt();
      case TimerFires =>
        OutboundMQWakeup();
      case ClearInbound =>
        InboundMQBufferClear();
      case ClearOutbound =>
        OutboundMQBufferClear();
      case AdapterMessage(bytes) =>
        AdapterPostsMessage(bytes);
      case AdapterConsumed =>
        dataReadOk := true;
    }

    /** The gate is open: `others` happen before this thread runs again. */
    method CommandSleep(others: seq<Section>)
      requires Valid()
      requires forall s <- others :: MessageFits(s)
      modifies Repr()
      ensures Valid() && Abs() == PerformAll(old(Abs()), others)
    {
      for i := 0 to |others|
        invariant Valid() && Abs() == PerformAll(old(Abs()), others[..i])
      {
        assert others[..i + 1][..i] == others[..i] && others[i] in others;
        PerformSection(others[i]);
      }
      assert others[..|others|] == others;
    }
  }
}
