/**
 The frames of the pool as what they are in memory, slots of sizeSRB bytes in one block: when SRBs of
 different tags leave each other alone, and what becomes of a task whose SRB is written over.
 */
module FrameMemory {
  import opened Arithmetic
  import opened Bytes
  import opened ScatterGather
  import opened SrbAddress
  import opened SrbProtocol
  import opened Targets

  // ---------------------------------------------------------------------------------------------
  // Addresses

  /** The SRB of t1 with k entries ends before the frame of t2. */
  predicate EndsBefore(p: Pool, k: nat, t1: int, t2: int)
    requires p.ValidTag(t1) && p.ValidTag(t2)
  {
    p.SrbPtr(t1).value + FrameEnd(k) <= p.SrbPtr(t2).value
  }

  /** SRBs of k entries stay out of each other's frames, and within the block. */
  ghost predicate Apart(p: Pool, k: nat) {
    && (forall t1, t2 | 0 <= t1 < t2 < p.maxSRB :: EndsBefore(p, k, t1, t2))
    && (forall t | p.ValidTag(t) ::
          p.ptr <= p.SrbPtr(t).value && p.SrbPtr(t).value + FrameEnd(k) <= p.ptr + p.maxSRB * p.sizeSRB)
  }

  /**
   Frames hold lists of k entries apart if and only if the size the adapter asked for covers them; for
   the longest list the driver builds that is 352 bytes.
   */
  lemma FramesApart(p: Pool, k: nat)
    requires p.Valid()
    ensures Apart(p, k) <==> 48 + 8 * k <= p.sizeSRB
    ensures Apart(p, 38) <==> p.HoldsFrames()
    ensures p.HoldsFrames() <==> p.sizeSRB >= 352
  {
    FramesApartFor(p, k);
    FramesApartFor(p, MAX_SG_ENTRIES);
  }

  lemma FramesApartFor(p: Pool, k: nat)
    requires p.Valid()
    ensures Apart(p, k) <==> FrameEnd(k) <= p.sizeSRB
  {
    var last := p.maxSRB - 1;
    assert last * p.sizeSRB + p.sizeSRB == p.maxSRB * p.sizeSRB;
    if FrameEnd(k) <= p.sizeSRB {
      forall t1, t2 | 0 <= t1 < t2 < p.maxSRB ensures EndsBefore(p, k, t1, t2) {
        MulBelow(t1, t2, p.sizeSRB);
      }
      forall t | p.ValidTag(t)
        ensures p.ptr <= p.SrbPtr(t).value && p.SrbPtr(t).value + FrameEnd(k) <= p.ptr + p.maxSRB * p.sizeSRB
      {
        MulBelow(t, p.maxSRB, p.sizeSRB);
      }
    } else {
      assert p.ValidTag(last) && p.SrbPtr(last).value + FrameEnd(k) > p.ptr + p.maxSRB * p.sizeSRB;
    }
  }

  // ---------------------------------------------------------------------------------------------
  // Bytes

  /** The block after bytes are written at an offset. */
  function Store(block: seq<byte>, at: nat, bytes: seq<byte>): (b: seq<byte>)
    requires at + |bytes| <= |block|
    ensures |b| == |block|
  {
    block[..at] + bytes + block[at + |bytes|..]
  }

  lemma StoredAt(block: seq<byte>, at: nat, bytes: seq<byte>, i: nat)
    requires at + |bytes| <= |block| && i < |block|
    ensures Store(block, at, bytes)[i] == if at <= i < at + |bytes| then bytes[i - at] else block[i]
  {
  }

  ghost predicate IsBlock(p: Pool, block: seq<byte>) {
    p.Valid() && |block| == p.maxSRB * p.sizeSRB
  }

  /** The frame of a tag. */
  function Slot(p: Pool, block: seq<byte>, tag: int): seq<byte>
    requires 0 <= tag * p.sizeSRB && tag * p.sizeSRB + p.sizeSRB <= |block| && p.sizeSRB > 0
  {
    block[tag * p.sizeSRB..tag * p.sizeSRB + p.sizeSRB]
  }

  lemma SlotInBlock(p: Pool, block: seq<byte>, tag: int)
    requires IsBlock(p, block) && p.ValidTag(tag)
    ensures 0 <= tag * p.sizeSRB && tag * p.sizeSRB + p.sizeSRB <= |block|
  {
    MulBelow(tag, p.maxSRB, p.sizeSRB);
  }

  /** An SRB in memory: what is ahead of the list, and the list. */
  function EntryBytes(entries: seq<SgEntry>): (b: seq<byte>)
    ensures |b| == 8 * |entries|
  {
    if entries == [] then []
    else EntryBytes(entries[..|entries| - 1])
         + EncodeWord(entries[|entries| - 1].length) + EncodeWord(entries[|entries| - 1].address)
  }

  function SrbBytes(head: seq<byte>, entries: seq<SgEntry>): (b: seq<byte>)
    requires |head| == SG_OFFSET
    ensures |b| == FrameEnd(|entries|)
  {
    head + EntryBytes(entries)
  }

  /**
   Writing an SRB that its frame covers puts it there whole and changes no byte of any other frame, so
   that the frames may be taken for objects of their own.
   */
  lemma OtherFramesKept(p: Pool, block: seq<byte>, tag: int, srb: seq<byte>, other: int)
    requires IsBlock(p, block) && p.ValidTag(tag) && p.ValidTag(other) && |srb| <= p.sizeSRB
    ensures 0 <= tag * p.sizeSRB && tag * p.sizeSRB + p.sizeSRB <= |block|
    ensures 0 <= other * p.sizeSRB && other * p.sizeSRB + p.sizeSRB <= |block|
    ensures var after := Store(block, tag * p.sizeSRB, srb);
            Slot(p, after, other) ==
            if other == tag then srb + Slot(p, block, tag)[|srb|..] else Slot(p, block, other)
  {
    SlotInBlock(p, block, tag);
    SlotInBlock(p, block, other);
    if tag < other {
      MulBelow(tag, other, p.sizeSRB);
    } else if other < tag {
      MulBelow(other, tag, p.sizeSRB);
    }
    KeptApart(block, tag * p.sizeSRB, srb, other * p.sizeSRB, p.sizeSRB);
  }

  lemma KeptApart(block: seq<byte>, at: nat, bytes: seq<byte>, from: nat, n: nat)
    requires |bytes| <= n && at + n <= |block| && from + n <= |block|
    requires at == from || at + n <= from || from + n <= at
    ensures var after := Store(block, at, bytes);
            after[from..from + n] ==
            if at == from then bytes + block[from..from + n][|bytes|..] else block[from..from + n]
  {
    var after := Store(block, at, bytes);
    var expected := if at == from then bytes + block[from..from + n][|bytes|..] else block[from..from + n];
    forall i | 0 <= i < n ensures after[from..from + n][i] == expected[i] {
      StoredAt(block, at, bytes, from + i);
    }
  }

  // ---------------------------------------------------------------------------------------------
  // Frames that are too small

  lemma {:induction false} EntryAt(entries: seq<SgEntry>, j: nat)
    requires j < |entries|
    ensures EntryBytes(entries)[8 * j..8 * j + 4] == EncodeWord(entries[j].length)
  {
    var n := |entries| - 1;
    if j < n {
      EntryAt(entries[..n], j);
      assert EntryBytes(entries)[8 * j..8 * j + 4] == EntryBytes(entries[..n])[8 * j..8 * j + 4];
    }
  }

  /** Bytes 1 and 2 of a frame name the target and the LUN. */
  function TargetByte(p: Pool, block: seq<byte>, tag: int): byte
    requires 0 <= tag * p.sizeSRB && tag * p.sizeSRB + p.sizeSRB <= |block| && p.sizeSRB > 2
  {
    Slot(p, block, tag)[1]
  }

  function LunByte(p: Pool, block: seq<byte>, tag: int): byte
    requires 0 <= tag * p.sizeSRB && tag * p.sizeSRB + p.sizeSRB <= |block| && p.sizeSRB > 2
  {
    Slot(p, block, tag)[2]
  }

  /**
   In a frame of 64 bytes or more the list entry that begins where the frame ends lands on the head of the
   next one: its length replaces that SRB's bus, target, LUN and function.
   */
  lemma SmallFrameOverwritesNext(p: Pool, block: seq<byte>, tag: int, head: seq<byte>, entries: seq<SgEntry>)
    requires IsBlock(p, block) && p.ValidTag(tag) && p.ValidTag(tag + 1)
    requires |head| == SG_OFFSET && 64 <= p.sizeSRB < FrameEnd(|entries|)
    requires tag * p.sizeSRB + FrameEnd(|entries|) <= |block|
    ensures 0 <= tag * p.sizeSRB
    ensures 0 <= (tag + 1) * p.sizeSRB && (tag + 1) * p.sizeSRB + p.sizeSRB <= |block|
    ensures var after, j := Store(block, tag * p.sizeSRB, SrbBytes(head, entries)), (p.sizeSRB - SG_OFFSET) / 8;
            && j < |entries|
            && TargetByte(p, after, tag + 1) as int == entries[j].length / 256 % 256
            && LunByte(p, after, tag + 1) as int == entries[j].length / 65536 % 256
  {
    var at, j := tag * p.sizeSRB, (p.sizeSRB - SG_OFFSET) / 8;
    SlotInBlock(p, block, tag);
    SlotInBlock(p, block, tag + 1);
    NextSlot(p, tag);
    NextFrameBytes(block, at, head, entries, j);
  }

  lemma NextSlot(p: Pool, tag: int)
    requires p.Valid() && 64 <= p.sizeSRB
    ensures (tag + 1) * p.sizeSRB == tag * p.sizeSRB + p.sizeSRB
    ensures FrameEnd((p.sizeSRB - SG_OFFSET) / 8) == p.sizeSRB
  {
  }

  lemma NextFrameBytes(block: seq<byte>, at: nat, head: seq<byte>, entries: seq<SgEntry>, j: nat)
    requires |head| == SG_OFFSET && j < |entries| && at + FrameEnd(|entries|) <= |block|
    requires at + 2 * FrameEnd(j) <= |block|
    ensures var after, next := Store(block, at, SrbBytes(head, entries)), at + FrameEnd(j);
            var slot := after[next..next + FrameEnd(j)];
            && slot[1] as int == entries[j].length / 256 % 256
            && slot[2] as int == entries[j].length / 65536 % 256
  {
    var srb, n := SrbBytes(head, entries), FrameEnd(j);
    var w := EncodeWord(entries[j].length);
    EntryAt(entries, j);
    assert srb[n..n + 4] == EntryBytes(entries)[8 * j..8 * j + 4] == w;
    assert srb[n + 1] == srb[n..n + 4][1] == w[1] && srb[n + 2] == srb[n..n + 4][2] == w[2];
    StoredAt(block, at, srb, at + n + 1);
    StoredAt(block, at, srb, at + n + 2);
  }

  /** A pool that meets every check the driver makes and whose frames are too small. */
  const SMALL_FRAMES := Pool(0, 4096, 256, 2)

  /** There, a write of 27 segments under tag 0 puts bits 8 to 15 of the last one's length in tag 1's target. */
  lemma SmallFramesHappen(block: seq<byte>, head: seq<byte>, entries: seq<SgEntry>)
    requires |block| == 512 && |head| == SG_OFFSET && |entries| == 27
    ensures SMALL_FRAMES.Valid() && SMALL_FRAMES.phys + 512 < TWO_TO_THE_32 && !SMALL_FRAMES.HoldsFrames()
    ensures Store(block, 0, SrbBytes(head, entries))[257] as int == entries[26].length / 256 % 256
  {
    SmallFrameOverwritesNext(SMALL_FRAMES, block, 0, head, entries);
  }

  /**
   The consequence for a task in flight whose frame has been written over: its reply completes it if and
   only if the frame still names its target and LUN. Otherwise the reply only frees the tag, and the task
   stays on the stack's list until it times out.
   */
  lemma OverwrittenFrame(p: Pool, s: State, frame: Frame)
    requires Usable(p) && Inv(p, s) && Enabled(p, s, HandleReply)
    requires var poster := LastPost(s.log, p.ReplyTag(s.replies[0])); poster.Some? && poster.value in s.stack
    ensures var tag := p.ReplyTag(s.replies[0]);
            var t := LastPost(s.log, tag).value;
            var s' := Handle(p, s.(frames := s.frames[tag := frame]));
            && s'.returning == [tag]
            && if ScsiTarget(frame.target, frame.lun) == s.stack[t].scsiTarget
               then s'.log == s.log + [Completed(t, tag)] && s'.stack == s.stack - {t}
               else s'.log == s.log && s'.stack == s.stack
  {
    PosterFound(p, s);
    var tag := p.ReplyTag(s.replies[0]);
    var t := LastPost(s.log, tag).value;
    OnlyPosterMatches(p, s, Flight(p, s), tag, t, ScsiTarget(frame.target, frame.lun));
  }

  /** Whatever target is looked up, a frame in flight identifies no task but the one posted under it. */
  lemma OnlyPosterMatches(p: Pool, s: State, flight: multiset<int>, tag: int, t: nat, scsiTarget: int)
    requires p.Valid() && AllOutstanding(p, s, flight) && p.ValidTag(tag) && t in s.stack
    requires t in s.startedAs && s.startedAs[t] == tag && tag !in s.building
    ensures Matching(s.stack, scsiTarget, p.SrbPtr(tag).value) ==
            if scsiTarget == s.stack[t].scsiTarget then {t} else {}
  {
    assert Outstanding(p, s, flight, t);
    forall u <- Matching(s.stack, scsiTarget, p.SrbPtr(tag).value) ensures u == t {
      assert Outstanding(p, s, flight, u);
      TagsDistinct(p, s.startedAs[u], tag, false, false);
    }
  }
}
