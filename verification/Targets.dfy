/** The flattening of target and LUN into one SCSI target number. */
module Targets {
  const MAX_TARGETID := 16
  const MAX_TARGETLUN := 8

  /** TARGETLUN2SCSITARGET; lun has three bits, so | is + */
  function ScsiTarget(target: int, lun: int): int {
    target * MAX_TARGETLUN + lun
  }

  /**
   Flattening loses nothing: SCSITARGET2TARGET and SCSITARGET2LUN undo it. The 16 targets of 8 LUNs are
   the numbers 0 to 127.
   */
  lemma ScsiTargetRoundTrip(target: int, lun: int, scsiTarget: int)
    requires 0 <= lun < 8
    ensures scsiTarget == ScsiTarget(target, lun) <==> scsiTarget / 8 == target && scsiTarget % 8 == lun
    ensures 0 <= target < MAX_TARGETID <==> 0 <= ScsiTarget(target, lun) < 128
    ensures MAX_TARGETID * MAX_TARGETLUN == 128
  {
  }
}
