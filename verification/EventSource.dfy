/** The coalescing event source of ArcMSRUtils.cpp. Each method is atomic under the gate. */
module EventSource {
  const ESFLAG_RESCAN: bv32 := 1

  /** The rescan request, whether the handler counts as running, and the one-shot timer that starts it. */
  datatype Source = Source(rescan: bool, handlerRunning: bool, armed: bool)

  /** A notification, for a rescan or for something else. */
  function AddRequest(s: Source, rescan: bool): Source {
    Source(s.rescan || rescan, true, s.armed || !s.handlerRunning)
  }

  function Notify(s: Source): Source {
    AddRequest(s, true)
  }

  /** Whether a mask asks for a rescan, or for anything else. */
  predicate WantsRescan(mask: bv32) {
    mask & ESFLAG_RESCAN != 0
  }

  predicate WantsOther(mask: bv32) {
    mask & !ESFLAG_RESCAN != 0
  }

  lemma RescanIsBitZero(mask: bv32)
    ensures WantsRescan(mask) <==> mask & 0x0000_0001 == 1
    ensures WantsOther(mask) <==> mask & 0xFFFF_FFFE != 0
  {
  }

  lemma OrHasBits(mask: bv32, more: bv32, bits: bv32)
    ensures (mask | more) & bits != 0 <==> mask & bits != 0 || more & bits != 0
  {
    assert (mask | more) & bits == (mask & bits) | (more & bits);
  }

  lemma OrRescan(mask: bv32, more: bv32)
    ensures WantsRescan(mask | more) <==> WantsRescan(mask) || WantsRescan(more)
  {
    OrHasBits(mask, more, ESFLAG_RESCAN);
  }

  lemma OrOther(mask: bv32, more: bv32)
    ensures WantsOther(mask | more) <==> WantsOther(mask) || WantsOther(more)
  {
    OrHasBits(mask, more, !ESFLAG_RESCAN);
  }

  method Combine(mask: bv32, more: bv32) returns (both: bv32)
    ensures WantsRescan(both) <==> WantsRescan(mask) || WantsRescan(more)
    ensures WantsOther(both) <==> WantsOther(mask) || WantsOther(more)
  {
    OrRescan(mask, more);
    OrOther(mask, more);
    both := mask | more;
  }

  class ArcMSREventSource {
    var actionMask: bv32
    var handlerRunning: bool
    var armed: bool

    /** A request other than a rescan. The driver makes none, and nothing would ever clear it. */
    predicate OtherRequests()
      reads this
    {
      WantsOther(actionMask)
    }

    function Abs(): Source
      reads this
    {
      Source(WantsRescan(actionMask), handlerRunning, armed)
    }

    constructor ()
      ensures Abs() == Source(false, false, false) && !OtherRequests()
    {
      actionMask, handlerRunning, armed := 0, false, false;
    }

    method AddNotification(mask: bv32)
      modifies this
      ensures Abs() == AddRequest(old(Abs()), WantsRescan(mask))
      ensures OtherRequests() <==> old(OtherRequests()) || WantsOther(mask)
    {
      actionMask := Combine(actionMask, mask);
      if !handlerRunning {
        handlerRunning := true;
        armed := true;
      }
    }

    method HandlerDone() returns (done: bool)
      modifies this
      ensures done == !(old(Abs()).rescan || old(OtherRequests()))
      ensures Abs() == if done then old(Abs()).(handlerRunning := false) else old(Abs())
      ensures OtherRequests() == old(OtherRequests())
    {
      if actionMask == 0 {
        handlerRunning := false;
        done := true;
      } else {
        done := false;
      }
    }

    method TargetRescan() returns (result: bool)
      modifies this
      ensures result == old(Abs()).rescan
      ensures Abs() == old(Abs()).(rescan := false) && OtherRequests() == old(OtherRequests())
    {
      result := actionMask & ESFLAG_RESCAN != 0;
      if result {
        actionMask := actionMask & !ESFLAG_RESCAN;
      }
    }
  }
}
