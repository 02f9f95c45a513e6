/**
 The rescan machinery with its threads: the message interrupt writes deviceMapUpdate and asks for a
 rescan; the handler, outside the gate, reads it back target by target. Every single read and write of
 the maps is a step of its own, in any interleaving.
 */
module RescanProtocol {
  import opened EventSource
  import opened Targets
  import opened DeviceMaps

  /** Where an activation of asyncEventHandler is. */
  datatype Pc =
    | TestDone                                      // about to call handlerDone
    | TestRescan                                    // about to call targetRescan of the event source
    | Read(target: nat)                             // about to read deviceMapUpdate[target]
    | Compare(target: nat, now: bv8)                // about to compare the snapshot with deviceMap[target]
    | Scan(target: nat, now: bv8, lun: nat)         // about to look at one LUN
    | Save(target: nat, now: bv8)                   // about to write deviceMap[target]

  /** Where the message interrupt is. */
  datatype Irq =
    | NoMessage
    | Copy(map16: DeviceMap, target: nat, updated: bool)    // about to write deviceMapUpdate[target]
    | Check(map16: DeviceMap, target: nat, updated: bool)   // about to compare it with deviceMap[target]
    | Finish(updated: bool)                                 // about to call addNotification, if updated

  datatype Entry = Notified | ScanStarted

  datatype State = State(
    deviceMap: DeviceMap,
    update: DeviceMap,
    source: Source,
    handlers: seq<Pc>,      // activations that have not ended
    irq: Irq,
    present: set<int>,      // SCSI targets created and not destroyed
    log: seq<Entry>)        // history

  const START := State(EMPTY_MAP, EMPTY_MAP, Source(false, false, false), [], NoMessage, {}, [])

  datatype Event =
    | MessageArrives(map16: DeviceMap)
    | IrqStep
    | TimerFires
    | HandlerStep(i: nat)

  // ---------------------------------------------------------------------------------------------
  // Steps

  function NextTarget(target: nat): Pc {
    if target + 1 < MAX_TARGETID then Read(target + 1) else TestDone
  }

  predicate PcOk(pc: Pc) {
    match pc
    case Read(t) => t < MAX_TARGETID
    case Compare(t, _) => t < MAX_TARGETID
    case Scan(t, _, lun) => t < MAX_TARGETID && lun < MAX_TARGETLUN
    case Save(t, _) => t < MAX_TARGETID
    case _ => true
  }

  function StepHandler(s: State, i: nat): State
    requires i < |s.handlers| && PcOk(s.handlers[i])
  {
    match s.handlers[i]
    case TestDone =>
      if s.source.rescan then s.(handlers := s.handlers[i := TestRescan])
      else s.(handlers := s.handlers[..i] + s.handlers[i + 1..], source := s.source.(handlerRunning := false))
    case TestRescan =>
      if s.source.rescan
      then s.(handlers := s.handlers[i := Read(0)], source := s.source.(rescan := false), log := s.log + [ScanStarted])
      else s.(handlers := s.handlers[i := TestDone])
    case Read(t) =>
      s.(handlers := s.handlers[i := Compare(t, s.update[t])])
    case Compare(t, now) =>
      s.(handlers := s.handlers[i := if now != s.deviceMap[t] then Scan(t, now, 0) else NextTarget(t)])
    case Scan(t, now, lun) =>
      s.(present := ScanLun(s.present, t, lun, s.deviceMap[t], now),
         handlers := s.handlers[i := if lun + 1 < MAX_TARGETLUN then Scan(t, now, lun + 1) else Save(t, now)])
    case Save(t, now) =>
      s.(deviceMap := s.deviceMap[t := now], handlers := s.handlers[i := NextTarget(t)])
  }

  predicate IrqOk(irq: Irq) {
    match irq
    case Copy(_, t, _) => t < MAX_TARGETID
    case Check(_, t, _) => t < MAX_TARGETID
    case _ => true
  }

  function StepIrq(s: State): State
    requires IrqOk(s.irq)
  {
    match s.irq
    case NoMessage => s
    case Copy(m, t, updated) =>
      s.(update := s.update[t := m[t]], irq := Check(m, t, updated))
    case Check(m, t, updated) =>
      var updated' := updated || s.update[t] != s.deviceMap[t];
      s.(irq := if t + 1 < MAX_TARGETID then Copy(m, t + 1, updated') else Finish(updated'))
    case Finish(updated) =>
      if updated then s.(irq := NoMessage, source := Notify(s.source), log := s.log + [Notified])
      else s.(irq := NoMessage)
  }

  predicate Enabled(s: State, e: Event) {
    match e
    case MessageArrives(_) => s.irq == NoMessage
    case IrqStep => s.irq != NoMessage && IrqOk(s.irq)
    case TimerFires => s.source.armed
    case HandlerStep(i) => i < |s.handlers| && PcOk(s.handlers[i])
  }

  function Step(s: State, e: Event): State {
    if !Enabled(s, e) then s else
    match e
    case MessageArrives(m) => s.(irq := Copy(m, 0, false))
    case IrqStep => StepIrq(s)
    case TimerFires => s.(source := s.source.(armed := false), handlers := s.handlers + [TestDone])
    case HandlerStep(i) => StepHandler(s, i)
  }

  function Run(s: State, es: seq<Event>): State {
    if es == [] then s else Step(Run(s, es[..|es| - 1]), es[|es| - 1])
  }

  // ---------------------------------------------------------------------------------------------
  // Invariant

  /** One activation at most, and one exactly when the handler counts as running and its timer is spent. */
  ghost predicate OneHandler(s: State) {
    && |s.handlers| + (if s.source.armed then 1 else 0) == (if s.source.handlerRunning then 1 else 0)
    && (s.source.rescan ==> s.source.handlerRunning)
    && IrqOk(s.irq)
    && (s.handlers != [] ==> PcOk(s.handlers[0]) && (s.handlers[0] == TestRescan ==> s.source.rescan))
    && (s.source.armed ==> s.source.rescan)
  }

  /** The stack has the units of the map, up to the LUNs of one target that the scanner has passed. */
  ghost predicate Mirror(s: State) {
    if s.handlers == [] then InStep(s.present, s.deviceMap, 0, 0, 0)
    else
      match s.handlers[0]
      case Scan(t, now, lun) => InStep(s.present, s.deviceMap, t, lun, now)
      case Save(t, now) => InStep(s.present, s.deviceMap, t, MAX_TARGETLUN, now)
      case _ => InStep(s.present, s.deviceMap, 0, 0, 0)
  }

  function Count(log: seq<Entry>, e: Entry): nat {
    if log == [] then 0
    else Count(log[..|log| - 1], e) + if log[|log| - 1] == e then 1 else 0
  }

  /** A rescan is pending exactly when the last notification has had no scan start after it. */
  ghost predicate Coalesced(s: State) {
    && (s.source.rescan <==> s.log != [] && s.log[|s.log| - 1] == Notified)
    && Count(s.log, ScanStarted) + (if s.source.rescan then 1 else 0) <= Count(s.log, Notified)
  }

  ghost predicate Inv(s: State) {
    OneHandler(s) && Mirror(s) && Coalesced(s)
  }

  lemma CountAppend(log: seq<Entry>, x: Entry, e: Entry)
    ensures Count(log + [x], e) == Count(log, e) + if x == e then 1 else 0
  {
    assert (log + [x])[..|log|] == log;
  }

  /** The handler between scans. */
  lemma LoopKeeps(s: State)
    requires Inv(s) && s.handlers != [] && (s.handlers[0].TestDone? || s.handlers[0].TestRescan?)
    ensures Inv(StepHandler(s, 0))
  {
    CountAppend(s.log, ScanStarted, ScanStarted);
    CountAppend(s.log, ScanStarted, Notified);
    assert s.handlers == [s.handlers[0]];
  }

  /** Inside a scan only map, stack and program counter move. */
  lemma ScanKeepsRest(s: State, pc: Pc, m: DeviceMap, present: set<int>)
    requires Inv(s) && s.handlers != [] && PcOk(pc) && pc != TestRescan
    ensures var s' := s.(deviceMap := m, present := present, handlers := s.handlers[0 := pc]);
            OneHandler(s') && Coalesced(s')
  {
  }

  lemma ReadKeeps(s: State)
    requires Inv(s) && s.handlers != [] && (s.handlers[0].Read? || s.handlers[0].Compare?)
    ensures Inv(StepHandler(s, 0))
  {
    var s' := StepHandler(s, 0);
    ScanKeepsRest(s, s'.handlers[0], s.deviceMap, s.present);
    if s.handlers[0].Compare? {
      InStepAtZero(s.present, s.deviceMap, 0, 0, s.handlers[0].target, s.handlers[0].now);
    }
  }

  lemma ScanKeeps(s: State)
    requires Inv(s) && s.handlers != [] && s.handlers[0].Scan?
    ensures Inv(StepHandler(s, 0))
  {
    var Scan(t, now, lun) := s.handlers[0];
    var s' := StepHandler(s, 0);
    ScanKeepsRest(s, s'.handlers[0], s.deviceMap, s'.present);
    ScanLunInStep(s.present, s.deviceMap, t, lun, now);
  }

  lemma SaveKeeps(s: State)
    requires Inv(s) && s.handlers != [] && s.handlers[0].Save?
    ensures Inv(StepHandler(s, 0))
  {
    var Save(t, now) := s.handlers[0];
    var s' := StepHandler(s, 0);
    ScanKeepsRest(s, s'.handlers[0], s'.deviceMap, s.present);
    SaveInStep(s.present, s.deviceMap, t, now);
    InStepAtZero(s.present, s'.deviceMap, t, now, 0, 0);
  }

  lemma HandlerKeeps(s: State)
    requires Inv(s) && s.handlers != []
    ensures Inv(StepHandler(s, 0))
  {
    match s.handlers[0] {
      case Scan(_, _, _) => ScanKeeps(s);
      case Save(_, _) => SaveKeeps(s);
      case Read(_) => ReadKeeps(s);
      case Compare(_, _) => ReadKeeps(s);
      case _ => LoopKeeps(s);
    }
  }

  lemma NotifyKeeps(s: State)
    requires Inv(s)
    ensures Inv(s.(irq := NoMessage, source := Notify(s.source), log := s.log + [Notified]))
  {
    CountAppend(s.log, Notified, ScanStarted);
    CountAppend(s.log, Notified, Notified);
  }

  /** Up to its end the interrupt writes nothing but the update. */
  lemma UpdateKeeps(s: State, irq: Irq, update: DeviceMap)
    requires Inv(s) && IrqOk(irq)
    ensures Inv(s.(irq := irq, update := update))
  {
  }

  lemma IrqKeeps(s: State)
    requires Inv(s)
    ensures Inv(StepIrq(s))
  {
    var s' := StepIrq(s);
    match s.irq {
      case NoMessage =>
      case Copy(_, _, _) => UpdateKeeps(s, s'.irq, s'.update);
      case Check(_, _, _) => UpdateKeeps(s, s'.irq, s.update);
      case Finish(updated) =>
        if updated {
          NotifyKeeps(s);
        } else {
          UpdateKeeps(s, NoMessage, s.update);
        }
    }
  }

  lemma TimerKeeps(s: State)
    requires Inv(s) && s.source.armed
    ensures Inv(Step(s, TimerFires))
  {
  }

  lemma StepKeeps(s: State, e: Event)
    requires Inv(s)
    ensures Inv(Step(s, e))
  {
    if Enabled(s, e) {
      match e {
        case HandlerStep(i) =>
          assert i == 0;
          HandlerKeeps(s);
        case IrqStep => IrqKeeps(s);
        case TimerFires => TimerKeeps(s);
        case MessageArrives(_) =>
      }
    }
  }

  lemma {:induction false} Reachable(es: seq<Event>)
    ensures Inv(Run(START, es))
  {
    if es == [] {
      EmptyInStep();
    } else {
      Reachable(es[..|es| - 1]);
      StepKeeps(Run(START, es[..|es| - 1]), es[|es| - 1]);
    }
  }
}
