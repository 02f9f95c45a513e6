/** Device maps, one bit per LUN and one byte per target, and their reconciliation with the SCSI stack. */
module DeviceMaps {
  import opened EventSource
  import opened Targets

  type DeviceMap = m: seq<bv8> | |m| == MAX_TARGETID witness [0, 0, 0, 0, 0, 0, 0, 0, 0, 0, 0, 0, 0, 0, 0, 0]

  const EMPTY_MAP: DeviceMap := [0, 0, 0, 0, 0, 0, 0, 0, 0, 0, 0, 0, 0, 0, 0, 0]

  predicate Bit(b: bv8, lun: nat)
    requires lun < MAX_TARGETLUN
  {
    b & (1 << lun) != 0
  }

  /** Which bit of a byte stands for which LUN. */
  lemma BitIs(b: bv8)
    ensures Bit(b, 0) <==> b & 0x01 == 0x01
    ensures Bit(b, 1) <==> b & 0x02 == 0x02
    ensures Bit(b, 2) <==> b & 0x04 == 0x04
    ensures Bit(b, 3) <==> b & 0x08 == 0x08
    ensures Bit(b, 4) <==> b & 0x10 == 0x10
    ensures Bit(b, 5) <==> b & 0x20 == 0x20
    ensures Bit(b, 6) <==> b & 0x40 == 0x40
    ensures Bit(b, 7) <==> b & 0x80 == 0x80
  {
  }

  /** LUN 0 is the lowest bit. */
  const LUN_MASKS: seq<bv8> := [0x01, 0x02, 0x04, 0x08, 0x10, 0x20, 0x40, 0x80]

  lemma BitIsMask(b: bv8, lun: nat)
    requires lun < 8
    ensures Bit(b, lun) <==> b & LUN_MASKS[lun] != 0
  {
    assert LUN_MASKS[0] == 0x01 && LUN_MASKS[1] == 0x02 && LUN_MASKS[2] == 0x04 && LUN_MASKS[3] == 0x08;
    assert LUN_MASKS[4] == 0x10 && LUN_MASKS[5] == 0x20 && LUN_MASKS[6] == 0x40 && LUN_MASKS[7] == 0x80;
    assert lun == 0 || lun == 1 || lun == 2 || lun == 3 || lun == 4 || lun == 5 || lun == 6 || lun == 7;
  }

  /** Whether SCSI target number id is a unit of the map: bit id%8 of byte id/8. */
  predicate IsUnit(m: DeviceMap, id: int) {
    0 <= id < 128 && m[id / 8] & LUN_MASKS[id % 8] != 0
  }

  /** The units a map stands for, flattened. */
  function Units(m: DeviceMap): set<int> {
    set target, lun | 0 <= target < MAX_TARGETID && 0 <= lun < MAX_TARGETLUN && Bit(m[target], lun) ::
      ScsiTarget(target, lun)
  }

  lemma UnitsAre(m: DeviceMap)
    ensures forall id :: id in Units(m) <==> IsUnit(m, id)
  {
    forall id ensures id in Units(m) <==> IsUnit(m, id) {
      if id in Units(m) {
        var t, l :| 0 <= t < MAX_TARGETID && 0 <= l < MAX_TARGETLUN && Bit(m[t], l) && id == ScsiTarget(t, l);
        ScsiTargetRoundTrip(t, l, id);
        BitIsMask(m[t], l);
      } else if 0 <= id < 128 {
        ScsiTargetRoundTrip(id / 8, id % 8, id);
        BitIsMask(m[id / 8], id % 8);
      }
    }
  }

  lemma UnitOfUpdated(m: DeviceMap, target: int, now: bv8, id: int)
    requires 0 <= target < MAX_TARGETID
    ensures IsUnit(m[target := now], id) <==>
            if 0 <= id < 128 && id / 8 == target then now & LUN_MASKS[id % 8] != 0 else IsUnit(m, id)
  {
  }

  /** A disk at one target and LUN is one bit of the map and one unit. */
  lemma OneDiskUnits(target: nat, lun: nat)
    requires target < 16 && lun < 8
    ensures Units(EMPTY_MAP[target := LUN_MASKS[lun]]) == {8 * target + lun}
  {
    var m: DeviceMap := EMPTY_MAP[target := LUN_MASKS[lun]];
    UnitsAre(m);
    forall id ensures IsUnit(m, id) <==> id == 8 * target + lun {
      UnitOfUpdated(EMPTY_MAP, target, LUN_MASKS[lun], id);
      NoUnit(id);
      if 0 <= id < 128 && id / 8 == target {
        OneMask(lun, id % 8);
      }
    }
  }

  lemma NoUnit(id: int)
    ensures !IsUnit(EMPTY_MAP, id)
  {
    if 0 <= id < 128 {
      assert EMPTY_MAP[id / 8] == 0;
    }
  }

  lemma OneMask(lun: nat, other: nat)
    requires lun < 8 && other < 8
    ensures LUN_MASKS[lun] & LUN_MASKS[other] != 0 <==> lun == other
  {
    assert lun == 0 || lun == 1 || lun == 2 || lun == 3 || lun == 4 || lun == 5 || lun == 6 || lun == 7;
    assert other == 0 || other == 1 || other == 2 || other == 3 || other == 4 || other == 5 || other == 6 || other == 7;
  }

  /**
   Unit (t, l) is in the stack as the map has it, except that the LUNs of `target` below `lun`, already
   passed by the scanner, are as in its snapshot `now`.
   */
  ghost predicate UnitInStep(present: set<int>, m: DeviceMap, target: int, lun: int, now: bv8, t: int, l: int)
    requires 0 <= t < MAX_TARGETID && 0 <= l < MAX_TARGETLUN
  {
    ScsiTarget(t, l) in present <==> Bit(if t == target && l < lun then now else m[t], l)
  }

  ghost predicate InStep(present: set<int>, m: DeviceMap, target: int, lun: int, now: bv8) {
    && (forall id <- present :: 0 <= id < MAX_TARGETID * MAX_TARGETLUN)
    && (forall t, l | 0 <= t < MAX_TARGETID && 0 <= l < MAX_TARGETLUN ::
          UnitInStep(present, m, target, lun, now, t, l))
  }

  predicate Appears(was: bv8, now: bv8, lun: nat)
    requires lun < MAX_TARGETLUN
  {
    !Bit(was, lun) && Bit(now, lun)
  }

  predicate Disappears(was: bv8, now: bv8, lun: nat)
    requires lun < MAX_TARGETLUN
  {
    Bit(was, lun) && !Bit(now, lun)
  }

  /** One LUN of the scan creates a target that is absent, destroys one that is present, or does nothing. */
  function ScanLun(present: set<int>, target: int, lun: nat, was: bv8, now: bv8): set<int>
    requires lun < MAX_TARGETLUN
  {
    if Appears(was, now, lun) then present + {ScsiTarget(target, lun)}
    else if Disappears(was, now, lun) then present - {ScsiTarget(target, lun)}
    else present
  }

  lemma ScanLunInStep(present: set<int>, m: DeviceMap, target: int, lun: nat, now: bv8)
    requires 0 <= target < MAX_TARGETID && lun < MAX_TARGETLUN && InStep(present, m, target, lun, now)
    ensures InStep(ScanLun(present, target, lun, m[target], now), m, target, lun + 1, now)
    ensures Appears(m[target], now, lun) ==> ScsiTarget(target, lun) !in present
    ensures Disappears(m[target], now, lun) ==> ScsiTarget(target, lun) in present
    ensures forall id :: id in ScanLun(present, target, lun, m[target], now) <==>
              if id == 8 * target + lun then now & LUN_MASKS[lun] != 0 else id in present
  {
    BitIsMask(now, lun);
    assert UnitInStep(present, m, target, lun, now, target, lun);
    var after, next := ScanLun(present, target, lun, m[target], now), lun + 1;
    forall t, l | 0 <= t < MAX_TARGETID && 0 <= l < MAX_TARGETLUN
      ensures UnitInStep(after, m, target, next, now, t, l)
    {
      assert UnitInStep(present, m, target, lun, now, t, l);
      ScsiTargetRoundTrip(t, l, ScsiTarget(target, lun));
    }
  }

  /** Once every LUN of a target is passed, saving the snapshot brings map and stack together. */
  lemma SaveInStep(present: set<int>, m: DeviceMap, target: int, now: bv8)
    requires 0 <= target < MAX_TARGETID && InStep(present, m, target, MAX_TARGETLUN, now)
    ensures InStep(present, m[target := now], target, 0, now)
  {
    var m' := m[target := now];
    forall t, l | 0 <= t < MAX_TARGETID && 0 <= l < MAX_TARGETLUN
      ensures UnitInStep(present, m', target, 0, now, t, l)
    {
      assert UnitInStep(present, m, target, MAX_TARGETLUN, now, t, l);
    }
  }

  /** At LUN 0 no unit of the target is passed yet, whichever target and snapshot that is. */
  lemma InStepAtZero(present: set<int>, m: DeviceMap, target: int, now: bv8, target': int, now': bv8)
    requires InStep(present, m, target, 0, now)
    ensures InStep(present, m, target', 0, now')
  {
    forall t, l | 0 <= t < MAX_TARGETID && 0 <= l < MAX_TARGETLUN
      ensures UnitInStep(present, m, target', 0, now', t, l)
    {
      assert UnitInStep(present, m, target, 0, now, t, l);
    }
  }

  /** Between targets the stack has exactly the units of the map. */
  lemma InStepIsUnits(present: set<int>, m: DeviceMap, target: int, now: bv8)
    requires InStep(present, m, target, 0, now)
    ensures present == Units(m)
  {
    forall id <- present ensures id in Units(m) {
      assert UnitInStep(present, m, target, 0, now, id / MAX_TARGETLUN, id % MAX_TARGETLUN);
      assert id == ScsiTarget(id / MAX_TARGETLUN, id % MAX_TARGETLUN);
    }
    forall t, l | 0 <= t < MAX_TARGETID && 0 <= l < MAX_TARGETLUN && Bit(m[t], l)
      ensures ScsiTarget(t, l) in present
    {
      assert UnitInStep(present, m, target, 0, now, t, l);
    }
  }

  /** A target brought into step changes its own units and no others. */
  lemma UnitsOfTarget(was: set<int>, present: set<int>, m: DeviceMap, target: int, now: bv8)
    requires 0 <= target < MAX_TARGETID && InStep(was, m, 0, 0, 0) && InStep(present, m[target := now], 0, 0, 0)
    ensures forall id :: id in present <==>
              if 0 <= id < 128 && id / 8 == target then now & LUN_MASKS[id % 8] != 0 else id in was
  {
    InStepIsUnits(was, m, 0, 0);
    InStepIsUnits(present, m[target := now], 0, 0);
    UnitsAre(m);
    UnitsAre(m[target := now]);
    forall id ensures id in present <==>
      if 0 <= id < 128 && id / 8 == target then now & LUN_MASKS[id % 8] != 0 else id in was
    {
      UnitOfUpdated(m, target, now, id);
      assert id in present <==> IsUnit(m[target := now], id);
    }
  }

  lemma EmptyInStep()
    ensures InStep({}, EMPTY_MAP, 0, 0, 0)
  {
    forall t, l | 0 <= t < MAX_TARGETID && 0 <= l < MAX_TARGETLUN ensures UnitInStep({}, EMPTY_MAP, 0, 0, 0, t, l) {
    }
  }

  // ---------------------------------------------------------------------------------------------

  const CONFIG_SIGNATURE := 0x87974060

  class DeviceScanner {
    const deviceMap: array<bv8>
    const deviceMapUpdate: array<bv8>
    const asyncEventSource: ArcMSREventSource

    /** SCSI targets created and not destroyed. */
    var present: set<int>

    ghost predicate Valid()
      reads this, asyncEventSource
    {
      && deviceMap.Length == deviceMapUpdate.Length == MAX_TARGETID && deviceMap != deviceMapUpdate
      && !asyncEventSource.OtherRequests()
    }

    /** Between targets: the stack has the units of the map. */
    ghost predicate AtRest()
      requires Valid()
      reads this, asyncEventSource, deviceMap
    {
      InStep(present, deviceMap[..], 0, 0, 0)
    }

    constructor ()
      ensures Valid() && fresh(deviceMap) && fresh(deviceMapUpdate) && fresh(asyncEventSource)
      ensures AtRest() && deviceMap[..] == deviceMapUpdate[..] == EMPTY_MAP
      ensures asyncEventSource.Abs() == Source(false, false, false)
    {
      deviceMap := new bv8[MAX_TARGETID](_ => 0);
      deviceMapUpdate := new bv8[MAX_TARGETID](_ => 0);
      asyncEventSource := new ArcMSREventSource();
      present := {};
      new;
      assert deviceMap[..] == EMPTY_MAP && deviceMapUpdate[..] == EMPTY_MAP;
      EmptyInStep();
    }

    /** The stack's side; a target is never created while present. */
    method CreateTargetForID(id: int)
      requires id !in present
      modifies this
      ensures present == old(present) + {id}
    {
      present := present + {id};
    }

    /** Nor destroyed while absent. */
    method DestroyTargetForID(id: int)
      requires id in present
      modifies this
      ensures present == old(present) - {id}
    {
      present := present - {id};
    }

    /** The inner loop of the rescan, and the saving of the mask scanned against. */
    method RescanTarget(target: int, newtarget: bv8)
      requires Valid() && 0 <= target < MAX_TARGETID && AtRest()
      modifies this, deviceMap
      ensures Valid() && AtRest()
      ensures deviceMap[..] == old(deviceMap[..])[target := newtarget]
      ensures forall id :: id in present <==>
                if 0 <= id < 128 && id / 8 == target then newtarget & LUN_MASKS[id % 8] != 0 else id in old(present)
    {
      ghost var m, was := deviceMap[..], present;
      InStepAtZero(present, m, 0, 0, target, newtarget);
      for lun := 0 to MAX_TARGETLUN
        invariant Valid() && deviceMap[..] == m
        invariant InStep(present, m, target, lun, newtarget)
      {
        ScanLunInStep(present, m, target, lun, newtarget);
        if !Bit(deviceMap[target], lun) && Bit(newtarget, lun) {
          CreateTargetForID(ScsiTarget(target, lun));
        }
        if Bit(deviceMap[target], lun) && !Bit(newtarget, lun) {
          DestroyTargetForID(ScsiTarget(target, lun));
        }
      }
      deviceMap[target] := newtarget;
      assert deviceMap[..] == m[target := newtarget];
      SaveInStep(present, m, target, newtarget);
      InStepAtZero(present, deviceMap[..], target, newtarget, 0, 0);
      UnitsOfTarget(was, present, m, target, newtarget);
    }

    /** Without interference the scan ends with the two maps equal and the stack in step with them. */
    method TargetRescan()
      requires Valid() && AtRest()
      modifies this, deviceMap
      ensures Valid() && AtRest()
      ensures deviceMap[..] == deviceMapUpdate[..]
      ensures present == Units(deviceMapUpdate[..]) && forall id :: id in present <==> IsUnit(deviceMapUpdate[..], id)
    {
      for target := 0 to MAX_TARGETID
        invariant Valid() && AtRest()
        invariant deviceMap[..target] == deviceMapUpdate[..target]
      {
        var newtarget := deviceMapUpdate[target];
        if newtarget != deviceMap[target] {
          RescanTarget(target, newtarget);
        }
      }
      assert deviceMap[..] == deviceMapUpdate[..];
      InStepIsUnits(present, deviceMap[..], 0, 0);
      UnitsAre(deviceMap[..]);
    }

    /** A rescan is requested exactly when the message's map differs from the current one. */
    method HandleMessageInterrupt(signature: int, map16: DeviceMap)
      requires Valid()
      modifies deviceMapUpdate, asyncEventSource
      ensures Valid()
      ensures deviceMapUpdate[..] == if signature == 0x87974060 then map16 else old(deviceMapUpdate[..])
      ensures asyncEventSource.Abs() ==
              if signature == 0x87974060 && map16 != deviceMap[..] then Notify(old(asyncEventSource.Abs()))
              else old(asyncEventSource.Abs())
    {
      if signature == CONFIG_SIGNATURE {
        var updated := false;
        for target := 0 to MAX_TARGETID
          invariant deviceMapUpdate[..target] == map16[..target]
          invariant updated <==> map16[..target] != deviceMap[..target]
          invariant deviceMap[..] == old(deviceMap[..])
          invariant Valid() && asyncEventSource.Abs() == old(asyncEventSource.Abs())
        {
          deviceMapUpdate[target] := map16[target];
          if deviceMapUpdate[target] != deviceMap[target] {
            updated := true;
          }
          assert map16[..target + 1] == map16[..target] + [map16[target]];
          assert deviceMap[..target + 1] == deviceMap[..target] + [deviceMap[target]];
        }
        assert map16[..MAX_TARGETID] == map16 && deviceMap[..MAX_TARGETID] == deviceMap[..];
        if updated {
          asyncEventSource.AddNotification(ESFLAG_RESCAN);
        }
      }
    }

    /** Without interference: one scan if one was requested, and then the handler is done. */
    method AsyncEventHandler()
      requires Valid() && AtRest()
      modifies this, deviceMap, asyncEventSource
      ensures Valid() && AtRest()
      ensures !asyncEventSource.Abs().rescan && !asyncEventSource.Abs().handlerRunning
      ensures deviceMap[..] == if old(asyncEventSource.Abs()).rescan then deviceMapUpdate[..] else old(deviceMap[..])
    {
      var done := asyncEventSource.HandlerDone();
      while !done
        invariant Valid() && AtRest()
        invariant done == !asyncEventSource.Abs().rescan
        invariant done ==> !asyncEventSource.Abs().handlerRunning
        invariant !old(asyncEventSource.Abs()).rescan ==> done && deviceMap[..] == old(deviceMap[..])
        invariant old(asyncEventSource.Abs()).rescan && done ==> deviceMap[..] == deviceMapUpdate[..]
        decreases !done
      {
        var rescan := asyncEventSource.TargetRescan();
        if rescan {
          TargetRescan();
        }
        done := asyncEventSource.HandlerDone();
      }
    }
  }
}
