/** What every interleaving of scanner and message interrupt keeps, and where it ends. */
module RescanTheorems {
  import opened EventSource
  import opened Targets
  import opened DeviceMaps
  import opened RescanProtocol

  /** The snapshot the scanner is working from, if it is inside a target. */
  predicate Working(s: State) {
    s.handlers != [] && (s.handlers[0].Scan? || s.handlers[0].Save?)
  }

  function Passed(pc: Pc): nat {
    match pc
    case Scan(_, _, lun) => lun
    case Save(_, _) => MAX_TARGETLUN
    case _ => 0
  }

  /**
   In every interleaving the targets created and not destroyed are the units of deviceMap, except in
   the target being scanned: there the LUNs already passed follow the snapshot, the others the old
   byte. A step that creates a target finds it absent, one that destroys a target finds it present.
   */
  lemma DeviceSetMirror(es: seq<Event>)
    ensures var s := Run(START, es);
            && (!Working(s) ==>
                  s.present == Units(s.deviceMap) && forall id :: id in s.present <==> IsUnit(s.deviceMap, id))
            && (Working(s) ==>
                  var pc := s.handlers[0];
                  && (forall id <- s.present :: 0 <= id < MAX_TARGETID * MAX_TARGETLUN)
                  && (forall t, l | 0 <= t < MAX_TARGETID && 0 <= l < MAX_TARGETLUN ::
                        UnitInStep(s.present, s.deviceMap, pc.target, Passed(pc), pc.now, t, l)))
            && (s.handlers != [] && s.handlers[0].Scan? && PcOk(s.handlers[0]) ==>
                  var Scan(t, now, lun) := s.handlers[0];
                  && (Appears(s.deviceMap[t], now, lun) ==> ScsiTarget(t, lun) !in s.present)
                  && (Disappears(s.deviceMap[t], now, lun) ==> ScsiTarget(t, lun) in s.present))
  {
    Reachable(es);
    var s := Run(START, es);
    if !Working(s) {
      InStepIsUnits(s.present, s.deviceMap, 0, 0);
      UnitsAre(s.deviceMap);
    } else if s.handlers[0].Scan? {
      var Scan(t, now, lun) := s.handlers[0];
      ScanLunInStep(s.present, s.deviceMap, t, lun, now);
    }
  }

  // ---------------------------------------------------------------------------------------------
  // Notifications

  /** Every notification in the log has a scan start after it. */
  ghost predicate AllServed(log: seq<Entry>) {
    forall i | 0 <= i < |log| && log[i] == Notified :: exists j :: i < j < |log| && log[j] == ScanStarted
  }

  /**
   A pending request means the handler is running; there is never a second activation, nor a timer
   armed beside one; n notifications start at most n scans; and once no request is pending, in
   particular when the handler is idle, every notification has been followed by the start of a scan.
   */
  lemma Notifications(es: seq<Event>)
    ensures var s := Run(START, es);
            && (s.source.rescan ==> s.source.handlerRunning)
            && |s.handlers| + (if s.source.armed then 1 else 0) == (if s.source.handlerRunning then 1 else 0)
            && Count(s.log, ScanStarted) <= Count(s.log, Notified)
            && (!s.source.rescan <==> AllServed(s.log))
  {
    Reachable(es);
    var s := Run(START, es);
    if s.log != [] {
      var last := |s.log| - 1;
      if s.source.rescan {
        assert s.log[last] == Notified;
      } else {
        assert s.log[last] == ScanStarted;
      }
    }
  }

  // ---------------------------------------------------------------------------------------------
  // Convergence

  /** Nothing is running and nothing is due to run. */
  predicate Quiet(s: State) {
    s.irq == NoMessage && s.handlers == [] && !s.source.armed
  }

  /** The byte deviceMap[t] will hold when the scanner leaves the target it is in. */
  function Effective(s: State, t: nat): bv8
    requires t < MAX_TARGETID
  {
    if s.handlers == [] then s.deviceMap[t]
    else
      match s.handlers[0]
      case Compare(u, now) => if u == t then now else s.deviceMap[t]
      case Scan(u, now, _) => if u == t then now else s.deviceMap[t]
      case Save(u, now) => if u == t then now else s.deviceMap[t]
      case _ => s.deviceMap[t]
  }

  /** The scanner has yet to read target t, in this scan or in one already requested. */
  predicate WillBeRead(s: State, t: nat) {
    s.source.rescan ||
    (s.handlers != [] &&
     match s.handlers[0]
     case Read(u) => u <= t
     case Compare(u, _) => u < t
     case Scan(u, _, _) => u < t
     case Save(u, _) => u < t
     case _ => false)
  }

  /** A byte of the update is going to be read, or is what the scanner will leave in the map anyway. */
  predicate Settled(s: State, t: nat)
    requires t < MAX_TARGETID
  {
    WillBeRead(s, t) || Effective(s, t) == s.update[t]
  }

  predicate OnCourse(s: State) {
    forall t: nat | t < MAX_TARGETID :: Settled(s, t)
  }

  /** Steps left in the scan that is running. */
  function Left(pc: Pc): int {
    match pc
    case TestRescan => 1
    case TestDone => 2
    case Read(t) => (MAX_TARGETID - t) * 11 + 2
    case Compare(t, _) => (MAX_TARGETID - 1 - t) * 11 + 12
    case Scan(t, _, lun) => (MAX_TARGETID - 1 - t) * 11 + 3 + (MAX_TARGETLUN - lun)
    case Save(t, _) => (MAX_TARGETID - 1 - t) * 11 + 3
  }

  function Fuel(s: State): int {
    (if s.source.rescan then 200 else 0) + (if s.source.armed then 3 else 0)
    + (if s.handlers == [] then 0 else Left(s.handlers[0]))
  }

  predicate ScannerEvent(e: Event) {
    e.TimerFires? || e.HandlerStep?
  }

  lemma LoopStep(s: State, t: nat)
    requires Inv(s) && t < MAX_TARGETID && s.handlers != [] && (s.handlers[0].TestDone? || s.handlers[0].TestRescan?)
    ensures Settled(StepHandler(s, 0), t) <==> Settled(s, t)
    ensures 0 <= Fuel(StepHandler(s, 0)) < Fuel(s)
  {
    assert s.handlers == [s.handlers[0]];
  }

  lemma ReadStep(s: State, t: nat)
    requires Inv(s) && t < MAX_TARGETID && s.handlers != [] && (s.handlers[0].Read? || s.handlers[0].Compare?)
    ensures Settled(StepHandler(s, 0), t) <==> Settled(s, t)
    ensures 0 <= Fuel(StepHandler(s, 0)) < Fuel(s)
  {
  }

  lemma UnitStep(s: State, t: nat)
    requires Inv(s) && t < MAX_TARGETID && s.handlers != [] && (s.handlers[0].Scan? || s.handlers[0].Save?)
    ensures Settled(StepHandler(s, 0), t) <==> Settled(s, t)
    ensures 0 <= Fuel(StepHandler(s, 0)) < Fuel(s)
  {
  }

  /**
   A step of the scanner, whatever the interrupt is doing, uses up fuel and leaves the update alone. It
   changes for no byte whether the maps will agree there.
   */
  lemma ScannerStep(s: State, e: Event, t: nat)
    requires Inv(s) && ScannerEvent(e) && Enabled(s, e) && t < MAX_TARGETID
    ensures var s' := Step(s, e);
            && s'.irq == s.irq && s'.update == s.update
            && 0 <= Fuel(s') < Fuel(s)
            && (Settled(s', t) <==> Settled(s, t))
  {
    if e.HandlerStep? {
      assert e.i == 0;
      match s.handlers[0] {
        case TestDone => LoopStep(s, t);
        case TestRescan => LoopStep(s, t);
        case Read(_) => ReadStep(s, t);
        case Compare(_, _) => ReadStep(s, t);
        case Scan(_, _, _) => UnitStep(s, t);
        case Save(_, _) => UnitStep(s, t);
      }
    }
  }

  /** While the scanner is not quiet it has a step to take. */
  lemma ScannerNeverStuck(s: State)
    requires Inv(s) && s.irq == NoMessage && !Quiet(s)
    ensures Enabled(s, TimerFires) || Enabled(s, HandlerStep(0))
  {
  }

  /** A run of scanner steps, each of them enabled. */
  predicate ScannerRun(s: State, es: seq<Event>) {
    es == [] ||
    (ScannerRun(s, es[..|es| - 1]) &&
     ScannerEvent(es[|es| - 1]) && Enabled(Run(s, es[..|es| - 1]), es[|es| - 1]))
  }

  lemma {:induction false} ScannerRunKeeps(s: State, es: seq<Event>)
    requires Inv(s) && s.irq == NoMessage && ScannerRun(s, es)
    ensures var s' := Run(s, es);
            && Inv(s') && s'.irq == NoMessage && s'.update == s.update
            && |es| + Fuel(s') <= Fuel(s) && 0 <= Fuel(s')
            && (OnCourse(s') <==> OnCourse(s))
  {
    if es != [] {
      ScannerRunKeeps(s, es[..|es| - 1]);
      var last, e := Run(s, es[..|es| - 1]), es[|es| - 1];
      StepKeeps(last, e);
      forall t: nat | t < MAX_TARGETID ensures Settled(Step(last, e), t) <==> Settled(last, t) {
        ScannerStep(last, e, t);
      }
      ScannerStep(last, e, 0);
    }
  }

  /**
   From any state in which no message is being handled, and with none arriving later: every run of the
   scanner is bounded, it can go on until everything is quiet, and it then leaves the map equal to
   the update if and only if it started on course; the stack then has the units of the map.
   */
  lemma Convergence(s: State, es: seq<Event>)
    requires Inv(s) && s.irq == NoMessage && ScannerRun(s, es)
    ensures var s' := Run(s, es);
            && |es| <= Fuel(s)
            && (!Quiet(s') ==> Enabled(s', TimerFires) || Enabled(s', HandlerStep(0)))
            && (Quiet(s') ==> (s'.deviceMap == s.update <==> OnCourse(s)) && s'.present == Units(s'.deviceMap))
  {
    ScannerRunKeeps(s, es);
    var s' := Run(s, es);
    if Quiet(s') {
      InStepIsUnits(s'.present, s'.deviceMap, 0, 0);
      assert forall t: nat | t < MAX_TARGETID :: Settled(s', t) <==> s'.deviceMap[t] == s'.update[t];
    } else {
      ScannerNeverStuck(s');
    }
  }

  // ---------------------------------------------------------------------------------------------
  // The length of a scan

  predicate Scanning(s: State) {
    s.handlers != [] && !s.handlers[0].TestDone? && !s.handlers[0].TestRescan?
  }

  /** Two steps for a target that has not changed, nine more for one that has. */
  function TargetSteps(s: State, t: nat): nat
    decreases MAX_TARGETID - t
  {
    if t >= MAX_TARGETID then 0
    else 2 + (if s.update[t] != s.deviceMap[t] then 9 else 0) + TargetSteps(s, t + 1)
  }

  function StepsLeft(s: State): int
    requires Scanning(s) ==> PcOk(s.handlers[0])
  {
    if !Scanning(s) then 0
    else
      match s.handlers[0]
      case Read(t) => TargetSteps(s, t)
      case Compare(t, now) => 1 + (if now != s.deviceMap[t] then 9 else 0) + TargetSteps(s, t + 1)
      case Scan(t, _, lun) => 9 - lun + TargetSteps(s, t + 1)
      case Save(t, _) => 1 + TargetSteps(s, t + 1)
      case _ => 0
  }

  lemma {:induction false} TargetStepsSame(s: State, s': State, t: nat)
    requires s'.update == s.update && forall u: nat | t <= u < MAX_TARGETID :: s'.deviceMap[u] == s.deviceMap[u]
    ensures TargetSteps(s', t) == TargetSteps(s, t)
    decreases MAX_TARGETID - t
  {
    if t < MAX_TARGETID {
      TargetStepsSame(s, s', t + 1);
    }
  }

  lemma ScanStepCounts(s: State)
    requires |s.handlers| == 1 && PcOk(s.handlers[0]) && Scanning(s)
    ensures PcOk(StepHandler(s, 0).handlers[0]) && StepsLeft(StepHandler(s, 0)) == StepsLeft(s) - 1
  {
    if s.handlers[0].Save? {
      SaveCounts(s);
    } else if s.handlers[0].Scan? {
      UnitCounts(s);
    } else if s.handlers[0].Compare? {
      CompareCounts(s);
    } else {
      ReadCounts(s);
    }
  }

  lemma ReadCounts(s: State)
    requires |s.handlers| == 1 && PcOk(s.handlers[0]) && s.handlers[0].Read?
    ensures PcOk(StepHandler(s, 0).handlers[0]) && StepsLeft(StepHandler(s, 0)) == StepsLeft(s) - 1
  {
    var t, s' := s.handlers[0].target, StepHandler(s, 0);
    TargetStepsSame(s, s', t + 1);
    assert s'.handlers[0] == Compare(t, s.update[t]) && s'.deviceMap == s.deviceMap;
    assert TargetSteps(s, t) == 2 + (if s.update[t] != s.deviceMap[t] then 9 else 0) + TargetSteps(s, t + 1);
  }

  lemma CompareCounts(s: State)
    requires |s.handlers| == 1 && PcOk(s.handlers[0]) && s.handlers[0].Compare?
    ensures PcOk(StepHandler(s, 0).handlers[0]) && StepsLeft(StepHandler(s, 0)) == StepsLeft(s) - 1
  {
    var t := s.handlers[0].target;
    TargetStepsSame(s, StepHandler(s, 0), t + 1);
    if t + 1 == MAX_TARGETID {
      assert TargetSteps(s, t + 1) == 0;
    }
  }

  lemma UnitCounts(s: State)
    requires |s.handlers| == 1 && PcOk(s.handlers[0]) && s.handlers[0].Scan?
    ensures PcOk(StepHandler(s, 0).handlers[0]) && StepsLeft(StepHandler(s, 0)) == StepsLeft(s) - 1
  {
    TargetStepsSame(s, StepHandler(s, 0), s.handlers[0].target + 1);
  }

  lemma SaveCounts(s: State)
    requires |s.handlers| == 1 && PcOk(s.handlers[0]) && s.handlers[0].Save?
    ensures PcOk(StepHandler(s, 0).handlers[0]) && StepsLeft(StepHandler(s, 0)) == StepsLeft(s) - 1
  {
    TargetStepsSame(s, StepHandler(s, 0), s.handlers[0].target + 1);
  }

  function Changed(s: State, t: nat): set<nat> {
    set u: nat | t <= u < MAX_TARGETID && s.update[u] != s.deviceMap[u]
  }

  lemma ChangedNext(s: State, t: nat)
    requires t < MAX_TARGETID
    ensures |Changed(s, t)| == |Changed(s, t + 1)| + if s.update[t] != s.deviceMap[t] then 1 else 0
  {
    if s.update[t] != s.deviceMap[t] {
      assert Changed(s, t) == Changed(s, t + 1) + {t};
    } else {
      assert Changed(s, t) == Changed(s, t + 1);
    }
  }

  lemma {:induction false} TargetStepsAre(s: State, t: nat)
    requires t <= MAX_TARGETID
    ensures TargetSteps(s, t) == 2 * (16 - t) + 9 * |Changed(s, t)|
    decreases MAX_TARGETID - t
  {
    if t < MAX_TARGETID {
      TargetStepsAre(s, t + 1);
      ChangedNext(s, t);
    } else {
      assert Changed(s, t) == {};
    }
  }

  function HandlerSteps(s: State, n: nat): State {
    if n == 0 then s else Step(HandlerSteps(s, n - 1), HandlerStep(0))
  }

  /** n steps into a scan of `total` steps. */
  ghost predicate ScanAt(s: State, total: int, n: int) {
    Inv(s) && StepsLeft(s) == total - n && (Scanning(s) <==> n < total)
  }

  lemma OneScanStep(s: State, next: State, total: int, n: int)
    requires ScanAt(s, total, n) && n < total && next == Step(s, HandlerStep(0))
    ensures ScanAt(next, total, n + 1)
  {
    HandlerKeeps(s);
    ScanStepCounts(s);
    StillScanning(next);
  }

  lemma ScanStarts(s: State)
    requires Inv(s) && s.handlers == [Read(0)]
    ensures ScanAt(s, 32 + 9 * |Changed(s, 0)|, 0)
  {
    TargetStepsAre(s, 0);
  }

  lemma {:induction false} ScanGoesOn(s: State, total: int, n: nat)
    requires ScanAt(s, total, 0) && n <= total
    ensures ScanAt(HandlerSteps(s, n), total, n)
  {
    if n > 0 {
      ScanGoesOn(s, total, n - 1);
      OneScanStep(HandlerSteps(s, n - 1), HandlerSteps(s, n), total, n - 1);
    }
  }

  /** A scan that no message disturbs takes exactly 32 steps, and 9 more for every target that has changed. */
  lemma ScanTakes(s: State, n: nat)
    requires Inv(s) && s.handlers == [Read(0)] && n <= 32 + 9 * |Changed(s, 0)|
    ensures var s' := HandlerSteps(s, n);
            && Inv(s') && (Scanning(s') <==> n < 32 + 9 * |Changed(s, 0)|)
            && (!Scanning(s') ==> s'.handlers == [TestDone])
  {
    var total := 32 + 9 * |Changed(s, 0)|;
    ScanStarts(s);
    forall k: nat | k <= n ensures ScanAt(HandlerSteps(s, k), total, k) {
      ScanGoesOn(s, total, k);
    }
    ScanEnds(s, n);
  }

  /** Scanning ends in the test for further requests. */
  lemma {:induction false} ScanEnds(s: State, n: nat)
    requires Inv(s) && s.handlers == [Read(0)]
    requires forall k: nat | k < n :: Inv(HandlerSteps(s, k)) && Scanning(HandlerSteps(s, k))
    ensures Scanning(HandlerSteps(s, n)) || HandlerSteps(s, n).handlers == [TestDone]
  {
    if n > 0 {
      assert Inv(HandlerSteps(s, n - 1)) && Scanning(HandlerSteps(s, n - 1));
      OutOfScan(HandlerSteps(s, n - 1), HandlerSteps(s, n));
    }
  }

  lemma OutOfScan(s: State, next: State)
    requires Inv(s) && Scanning(s) && next == Step(s, HandlerStep(0))
    ensures Scanning(next) || next.handlers == [TestDone]
  {
  }

  lemma StillScanning(s: State)
    requires Inv(s)
    ensures Scanning(s) <==> StepsLeft(s) > 0
  {
  }

  // ---------------------------------------------------------------------------------------------
  // A message that nothing interleaves with

  /** The loop of the interrupt handler, a body at a time: the write of a byte and its comparison. */
  function IrqPairs(s: State, t: nat): State {
    if t == 0 then s else Step(Step(IrqPairs(s, t - 1), IrqStep), IrqStep)
  }

  /** The whole handler: 16 bodies, and the notification if there is one. */
  function WholeMessage(s: State, m: DeviceMap): State {
    Step(IrqPairs(Step(s, MessageArrives(m)), MAX_TARGETID), IrqStep)
  }

  /** The loop body for target t. */
  lemma IrqPair(s: State, m: DeviceMap, t: nat, updated: bool)
    requires t < MAX_TARGETID && s.irq == Copy(m, t, updated)
    ensures var updated' := updated || m[t] != s.deviceMap[t];
            Step(Step(s, IrqStep), IrqStep) ==
            s.(update := s.update[t := m[t]],
               irq := if t + 1 < MAX_TARGETID then Copy(m, t + 1, updated') else Finish(updated'))
  {
  }

  lemma PrefixNext(m: DeviceMap, d: DeviceMap, t: nat)
    requires t < MAX_TARGETID
    ensures m[..t + 1] == d[..t + 1] <==> m[..t] == d[..t] && m[t] == d[t]
    ensures t + 1 == MAX_TARGETID ==> (m[..t + 1] == d[..t + 1] <==> m == d)
  {
    assert m[..t + 1] == m[..t] + [m[t]] && d[..t + 1] == d[..t] + [d[t]];
  }

  /** t bytes of the message are copied and compared; started in s, all else is as it was. */
  predicate CopiedTo(s: State, now: State, m: DeviceMap, t: nat) {
    && t <= MAX_TARGETID
    && now == s.(update := now.update,
                 irq := if t < MAX_TARGETID then Copy(m, t, m[..t] != s.deviceMap[..t])
                        else Finish(m != s.deviceMap))
    && now.update[..t] == m[..t]
  }

  lemma CopyOne(s: State, now: State, next: State, m: DeviceMap, t: nat)
    requires t < MAX_TARGETID && CopiedTo(s, now, m, t) && next == Step(Step(now, IrqStep), IrqStep)
    ensures CopiedTo(s, next, m, t + 1)
  {
    IrqPair(now, m, t, m[..t] != s.deviceMap[..t]);
    PrefixNext(m, s.deviceMap, t);
    PrefixNext(next.update, m, t);
    assert next.update[..t] == now.update[..t];
  }

  lemma {:induction false} CopyAll(s: State, m: DeviceMap, t: nat)
    requires s.irq == Copy(m, 0, false) && t <= MAX_TARGETID
    ensures CopiedTo(s, IrqPairs(s, t), m, t)
  {
    if t > 0 {
      CopyAll(s, m, t - 1);
      CopyOne(s, IrqPairs(s, t - 1), IrqPairs(s, t), m, t - 1);
    }
  }

  lemma CopyEnds(s: State, now: State, m: DeviceMap)
    requires CopiedTo(s, now, m, MAX_TARGETID)
    ensures Step(now, IrqStep) ==
            if m == s.deviceMap then s.(irq := NoMessage, update := m)
            else s.(irq := NoMessage, update := m, source := Notify(s.source), log := s.log + [Notified])
  {
    assert now.update == now.update[..MAX_TARGETID] && m == m[..MAX_TARGETID];
  }

  /** It is the interrupt handler's effect: the update replaced, a rescan asked for if it differs from the map. */
  lemma WholeMessageEffect(s: State, m: DeviceMap)
    requires s.irq == NoMessage
    ensures WholeMessage(s, m) ==
            if m == s.deviceMap then s.(update := m)
            else s.(update := m, source := Notify(s.source), log := s.log + [Notified])
  {
    var s0 := Step(s, MessageArrives(m));
    CopyAll(s0, m, MAX_TARGETID);
    CopyEnds(s0, IrqPairs(s0, MAX_TARGETID), m);
    assert s0.(irq := NoMessage) == s;
  }

  lemma {:induction false} PairsKeep(s: State, t: nat)
    requires Inv(s)
    ensures Inv(IrqPairs(s, t))
  {
    if t > 0 {
      PairsKeep(s, t - 1);
      StepKeeps(IrqPairs(s, t - 1), IrqStep);
      StepKeeps(Step(IrqPairs(s, t - 1), IrqStep), IrqStep);
    }
  }

  /** The scanner holds a snapshot that differs from the byte it has not saved yet. */
  predicate UnsavedSnapshot(s: State) {
    s.handlers != [] &&
    match s.handlers[0]
    case Compare(t, now) => t < MAX_TARGETID && now != s.deviceMap[t]
    case Scan(t, now, _) => t < MAX_TARGETID && now != s.deviceMap[t]
    case Save(t, now) => t < MAX_TARGETID && now != s.deviceMap[t]
    case _ => false
  }

  /**
   A message that nothing interleaves with gets its way unless it brings back the very map the driver
   still has while the scanner holds an unsaved snapshot and no rescan is pending.
   */
  lemma MessageOutcome(s: State, m: DeviceMap)
    requires Inv(s) && s.irq == NoMessage
    ensures var s' := WholeMessage(s, m);
            && Inv(s') && s'.irq == NoMessage && s'.update == m
            && (OnCourse(s') <==> !(m == s.deviceMap && UnsavedSnapshot(s) && !s.source.rescan))
  {
    WholeMessageEffect(s, m);
    StepKeeps(s, MessageArrives(m));
    PairsKeep(Step(s, MessageArrives(m)), MAX_TARGETID);
    StepKeeps(IrqPairs(Step(s, MessageArrives(m)), MAX_TARGETID), IrqStep);
    var s' := WholeMessage(s, m);
    if m == s.deviceMap && UnsavedSnapshot(s) && !s.source.rescan {
      var t := s.handlers[0].target;
      assert !Settled(s', t);
    }
  }

  /**
   In particular one handled while the handler is idle: the scanner then runs for at most 203 steps, and
   when it is done the map is the message's and the stack has exactly its units.
   */
  lemma IdleMessageConverges(before: seq<Event>, m: DeviceMap, es: seq<Event>)
    requires Quiet(Run(START, before)) && ScannerRun(WholeMessage(Run(START, before), m), es)
    ensures var s' := Run(WholeMessage(Run(START, before), m), es);
            && |es| <= 203
            && (!Quiet(s') ==> Enabled(s', TimerFires) || Enabled(s', HandlerStep(0)))
            && (Quiet(s') ==>
                  s'.deviceMap == m && s'.present == Units(m) && forall id :: id in s'.present <==> IsUnit(m, id))
  {
    UnitsAre(m);
    Reachable(before);
    WholeMessageEffect(Run(START, before), m);
    MessageOutcome(Run(START, before), m);
    Convergence(WholeMessage(Run(START, before), m), es);
  }

  /** For a map with one disk: the stack ends with that disk and no other target. */
  lemma OneDiskAppears(before: seq<Event>, target: nat, lun: nat, es: seq<Event>)
    requires target < 16 && lun < 8 && Quiet(Run(START, before))
    requires ScannerRun(WholeMessage(Run(START, before), EMPTY_MAP[target := LUN_MASKS[lun]]), es)
    ensures var s' := Run(WholeMessage(Run(START, before), EMPTY_MAP[target := LUN_MASKS[lun]]), es);
            Quiet(s') ==> s'.present == {8 * target + lun}
  {
    IdleMessageConverges(before, EMPTY_MAP[target := LUN_MASKS[lun]], es);
    OneDiskUnits(target, lun);
  }

  // ---------------------------------------------------------------------------------------------
  // A message interleaved with the scanner

  /** The interrupt is about to compare a byte that differs. */
  predicate DiffersAt(s: State, e: Event) {
    e == IrqStep && s.irq.Check? && IrqOk(s.irq) && s.update[s.irq.target] != s.deviceMap[s.irq.target]
  }

  /**
   It is about to compare a byte that equals the current one, while the scanner holds an unsaved snapshot
   of just that target which differs, and no rescan is pending.
   */
  predicate MissesAt(s: State, e: Event) {
    && e == IrqStep && s.irq.Check? && IrqOk(s.irq) && s.update[s.irq.target] == s.deviceMap[s.irq.target]
    && UnsavedSnapshot(s) && s.handlers[0].target == s.irq.target && !s.source.rescan
  }

  predicate Differed(s: State, es: seq<Event>) {
    es != [] && (Differed(s, es[..|es| - 1]) || DiffersAt(Run(s, es[..|es| - 1]), es[|es| - 1]))
  }

  predicate Missed(s: State, es: seq<Event>) {
    es != [] && (Missed(s, es[..|es| - 1]) || MissesAt(Run(s, es[..|es| - 1]), es[|es| - 1]))
  }

  /** How far the interrupt has come, and what it has found so far. */
  ghost predicate Progress(s: State, m: DeviceMap, differed: bool, missed: bool) {
    match s.irq
    case Copy(map16, t, updated) =>
      && t < MAX_TARGETID && map16 == m && updated == differed
      && Compared(s, m, t, differed, missed)
    case Check(map16, t, updated) =>
      && t < MAX_TARGETID && map16 == m && s.update[t] == m[t] && updated == differed
      && Compared(s, m, t, differed, missed)
    case Finish(updated) =>
      updated == differed && Compared(s, m, MAX_TARGETID, differed, missed)
    case NoMessage =>
      s.update == m && (OnCourse(s) <==> differed || !missed)
  }

  predicate SettledBelow(s: State, n: nat)
    requires n <= MAX_TARGETID
  {
    forall t: nat | t < n :: Settled(s, t)
  }

  ghost predicate Compared(s: State, m: DeviceMap, n: nat, differed: bool, missed: bool)
    requires n <= MAX_TARGETID
  {
    (forall t: nat | t < n :: s.update[t] == m[t]) && (!differed ==> (SettledBelow(s, n) <==> !missed))
  }

  lemma CopyProgress(s: State, m: DeviceMap, differed: bool, missed: bool)
    requires s.irq.Copy? && Progress(s, m, differed, missed)
    ensures Progress(StepIrq(s), m, differed, missed)
  {
    var t := s.irq.target;
    assert forall u: nat | u < t :: Settled(StepIrq(s), u) <==> Settled(s, u);
  }

  lemma CheckProgress(s: State, m: DeviceMap, differed: bool, missed: bool)
    requires s.irq.Check? && Progress(s, m, differed, missed)
    ensures Progress(StepIrq(s), m, differed || DiffersAt(s, IrqStep), missed || MissesAt(s, IrqStep))
  {
    var t := s.irq.target;
    assert forall u: nat | u < MAX_TARGETID :: Settled(StepIrq(s), u) <==> Settled(s, u);
    assert SettledBelow(s, t + 1) <==> SettledBelow(s, t) && Settled(s, t);
    if !DiffersAt(s, IrqStep) {
      UnsettledByte(s, t);
    }
  }

  /** A byte that compares equal is unsettled only because of an unsaved snapshot. */
  lemma UnsettledByte(s: State, t: nat)
    requires t < MAX_TARGETID && s.update[t] == s.deviceMap[t]
    ensures !Settled(s, t) <==> UnsavedSnapshot(s) && s.handlers[0].target == t && !s.source.rescan
  {
  }

  lemma FinishProgress(s: State, m: DeviceMap, differed: bool, missed: bool)
    requires s.irq.Finish? && Progress(s, m, differed, missed)
    ensures Progress(StepIrq(s), m, differed, missed)
  {
    assert s.update == m;
    assert !differed ==> forall u: nat | u < MAX_TARGETID :: Settled(StepIrq(s), u) <==> Settled(s, u);
  }

  lemma ScannerProgress(s: State, e: Event, m: DeviceMap, differed: bool, missed: bool)
    requires Inv(s) && ScannerEvent(e) && Enabled(s, e) && Progress(s, m, differed, missed)
    ensures Progress(Step(s, e), m, differed, missed)
  {
    forall t: nat | t < MAX_TARGETID ensures Settled(Step(s, e), t) <==> Settled(s, t) {
      ScannerStep(s, e, t);
    }
    ScannerStep(s, e, 0);
  }

  lemma {:induction false} MessageProgress(s: State, m: DeviceMap, es: seq<Event>)
    requires Inv(s) && s.irq == Copy(m, 0, false) && forall e <- es :: !e.MessageArrives?
    ensures Inv(Run(s, es)) && Progress(Run(s, es), m, Differed(s, es), Missed(s, es))
  {
    if es != [] {
      var prefix, e := es[..|es| - 1], es[|es| - 1];
      MessageProgress(s, m, prefix);
      var last := Run(s, prefix);
      StepKeeps(last, e);
      assert e in es;
      if Enabled(last, e) {
        if ScannerEvent(e) {
          ScannerProgress(last, e, m, Differed(s, prefix), Missed(s, prefix));
        } else {
          match last.irq {
            case Copy(_, _, _) => CopyProgress(last, m, Differed(s, prefix), Missed(s, prefix));
            case Check(_, _, _) => CheckProgress(last, m, Differed(s, prefix), Missed(s, prefix));
            case Finish(_) => FinishProgress(last, m, Differed(s, prefix), Missed(s, prefix));
          }
        }
      }
    }
  }

  /**
   A message handled in any interleaving with the scanner, and any number of scanner steps after it: it
   gets its way if and only if one of its bytes differed from the map when they were compared, so that a
   rescan was asked for, or no byte was compared equal while the scanner held an unsaved, different
   snapshot of its target with no rescan pending.
   */
  lemma InterleavedMessage(s: State, m: DeviceMap, es: seq<Event>)
    requires Inv(s) && s.irq == NoMessage && forall e <- es :: !e.MessageArrives?
    requires Run(Step(s, MessageArrives(m)), es).irq == NoMessage
    ensures var s1, s' := Step(s, MessageArrives(m)), Run(Step(s, MessageArrives(m)), es);
            && Inv(s') && s'.update == m
            && (OnCourse(s') <==> Differed(s1, es) || !Missed(s1, es))
            && (Quiet(s') ==> (s'.deviceMap == m <==> Differed(s1, es) || !Missed(s1, es)))
  {
    StepKeeps(s, MessageArrives(m));
    MessageProgress(Step(s, MessageArrives(m)), m, es);
    Convergence(Run(Step(s, MessageArrives(m)), es), []);
  }

  // ---------------------------------------------------------------------------------------------
  // A revert in the middle of a scan

  /**
   Whenever the scanner holds an unsaved snapshot that differs and no rescan is pending, a message that
   brings back the map the driver still has is not noticed: nothing is asked for, and whatever the scanner
   does next it ends with a map that is not the message's, and with that map's units, until some later
   message.
   */
  lemma RevertMidScanIsMissed(s: State, es: seq<Event>)
    requires Inv(s) && s.irq == NoMessage && UnsavedSnapshot(s) && !s.source.rescan
    requires ScannerRun(WholeMessage(s, s.deviceMap), es)
    ensures var s1 := WholeMessage(s, s.deviceMap);
            var s' := Run(s1, es);
            && s1.source == s.source && s1.log == s.log && s1.update == s.deviceMap
            && s'.update == s.deviceMap
            && (Quiet(s') ==> s'.deviceMap != s.deviceMap && s'.present == Units(s'.deviceMap))
  {
    var s1 := WholeMessage(s, s.deviceMap);
    WholeMessageEffect(s, s.deviceMap);
    MessageOutcome(s, s.deviceMap);
    ScannerRunKeeps(s1, es);
    Convergence(s1, es);
  }

  lemma RunNext(s: State, es: seq<Event>, e: Event)
    ensures Run(s, es + [e]) == Step(Run(s, es), e)
  {
    assert (es + [e])[..|es + [e]| - 1] == es;
  }

  /** The events of t loop bodies that nothing interleaves with, after others. */
  function Undisturbed(before: seq<Event>, m: DeviceMap, t: nat): seq<Event> {
    if t == 0 then before + [MessageArrives(m)] else Undisturbed(before, m, t - 1) + [IrqStep] + [IrqStep]
  }

  lemma {:induction false} UndisturbedIs(s: State, before: seq<Event>, m: DeviceMap, t: nat)
    ensures Run(s, Undisturbed(before, m, t)) == IrqPairs(Step(Run(s, before), MessageArrives(m)), t)
  {
    if t == 0 {
      RunNext(s, before, MessageArrives(m));
    } else {
      UndisturbedIs(s, before, m, t - 1);
      RunNext(s, Undisturbed(before, m, t - 1), IrqStep);
      RunNext(s, Undisturbed(before, m, t - 1) + [IrqStep], IrqStep);
    }
  }

  /** A message that nothing interleaves with is a run like any other. */
  lemma WholeMessageIsRun(s: State, before: seq<Event>, m: DeviceMap)
    ensures Run(s, Undisturbed(before, m, MAX_TARGETID) + [IrqStep]) == WholeMessage(Run(s, before), m)
  {
    UndisturbedIs(s, before, m, MAX_TARGETID);
    RunNext(s, Undisturbed(before, m, MAX_TARGETID), IrqStep);
  }

  const ONE_DISK: DeviceMap := EMPTY_MAP[0 := 1]

  function FirstDisk(): seq<Event> {
    Undisturbed([], ONE_DISK, MAX_TARGETID) + [IrqStep]
  }

  /** A disk appears, and the scanner starts and takes its snapshot of target 0. */
  function SnapshotTaken(): seq<Event> {
    FirstDisk() + [TimerFires] + [HandlerStep(0)] + [HandlerStep(0)] + [HandlerStep(0)]
  }

  /** Such a state is reached at the first disk that appears: if it goes away again just then, it stays. */
  lemma SnapshotReached()
    ensures var s := Run(START, SnapshotTaken());
            && Inv(s) && s.irq == NoMessage && UnsavedSnapshot(s) && !s.source.rescan && s.deviceMap == EMPTY_MAP
  {
    Reachable(SnapshotTaken());
    var es := FirstDisk();
    WholeMessageIsRun(START, [], ONE_DISK);
    WholeMessageEffect(START, ONE_DISK);
    assert ONE_DISK[0] == 1 && EMPTY_MAP[0] == 0;
    var s0 := START.(update := ONE_DISK, source := Source(true, true, true), log := [Notified]);
    assert Run(START, es) == s0;
    RunNext(START, es, TimerFires);
    RunNext(START, es + [TimerFires], HandlerStep(0));
    RunNext(START, es + [TimerFires] + [HandlerStep(0)], HandlerStep(0));
    RunNext(START, es + [TimerFires] + [HandlerStep(0)] + [HandlerStep(0)], HandlerStep(0));
    SnapshotSteps(s0);
  }

  lemma SnapshotSteps(s0: State)
    requires s0 == START.(update := ONE_DISK, source := Source(true, true, true), log := [Notified])
    ensures Step(Step(Step(Step(s0, TimerFires), HandlerStep(0)), HandlerStep(0)), HandlerStep(0)) ==
            s0.(source := Source(false, true, false), handlers := [Compare(0, 1)], log := [Notified, ScanStarted])
  {
    var s1 := s0.(source := Source(true, true, false), handlers := [TestDone]);
    assert Step(s0, TimerFires) == s1;
    var s2 := s1.(handlers := [TestRescan]);
    assert Step(s1, HandlerStep(0)) == s2;
    var s3 := s2.(source := Source(false, true, false), handlers := [Read(0)], log := [Notified, ScanStarted]);
    assert Step(s2, HandlerStep(0)) == s3;
  }
}
