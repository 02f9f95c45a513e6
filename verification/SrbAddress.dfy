/** SRB tags, their physical addresses, and the words posted to and read back from the adapter. */
module SrbAddress {
  import opened Arithmetic
  import opened Bytes

  const MAX_OUTSTANDING_SRB := 256
  const TWO_TO_THE_31 := 0x8000_0000
  const TWO_TO_THE_27 := 0x0800_0000

  /** The bits of a reply word that are all ones when the outbound queue is empty. */
  const QUEUE_EMPTY: word := 0xFFFF_FFFF

  datatype Option<T> = None | Some(value: T)

  // The SRB: 48 bytes ahead of its segment list, and room for 38 entries of 8 bytes
  const SG_OFFSET := 48
  const MAX_SG_ENTRIES := 38

  /** Where a list of k entries ends, from the start of the SRB. */
  function FrameEnd(k: nat): nat {
    SG_OFFSET + 8 * k
  }

  datatype Pool = Pool(phys: int, ptr: int, sizeSRB: int, maxSRB: int) {
    /** 32-byte aligned frames in a pool that the int arithmetic and the 32-bit bus can reach. */
    ghost predicate Valid() {
      && 1 <= maxSRB <= 256
      && 0 < sizeSRB && sizeSRB % 32 == 0
      && 0 <= phys && phys % 32 == 0 && 0 < ptr
      && maxSRB * sizeSRB < TWO_TO_THE_31
      && phys + maxSRB * sizeSRB <= TWO_TO_THE_32
    }

    /** Every SRB fits in the frame the adapter asked for; the driver does not check that. */
    predicate HoldsFrames() {
      FrameEnd(MAX_SG_ENTRIES) <= sizeSRB
    }

    predicate ValidTag(tag: int) {
      0 <= tag < maxSRB
    }

    /** getSRBPtr: the address of the frame, or NULL. */
    function SrbPtr(tag: int): Option<int> {
      if ValidTag(tag) then Some(ptr + tag * sizeSRB) else None
    }

    /** getSRBPhys, in 32 bits. */
    function SrbPhys(tag: int): word {
      (phys + tag * sizeSRB) % TWO_TO_THE_32
    }

    /** getSRBTag; the end of the pool is computed in 32 bits and let through. */
    function SrbTag(address: word): int
      requires sizeSRB > 0
    {
      if address < phys || address > (phys + maxSRB * sizeSRB) % TWO_TO_THE_32 then -1
      else (address - phys) / sizeSRB
    }

    /** The post word: the address in bits 0-26 and, in bit 31, whether the frame is a large one. */
    function PostWord(tag: int, large: bool): (w: word) {
      (SrbPhys(tag) / 32 + if large then TWO_TO_THE_31 else 0) % TWO_TO_THE_32
    }

    /** The tag the reply handler derives from a reply word. */
    function ReplyTag(response: word): int
      requires sizeSRB > 0
    {
      SrbTag(response * 32 % TWO_TO_THE_32)
    }
  }

  /** The adapter echoes the address bits of a post word under its own flags, bits 27-31. */
  function ReplyWord(post: word, flags: int): word
    requires 0 <= flags < 32
  {
    post % TWO_TO_THE_27 + flags * TWO_TO_THE_27
  }

  // ---------------------------------------------------------------------------------------------
  // Arithmetic

  /** An aligned address inside the 32-bit space, and the 32-bit form of its end. */
  lemma InSpace(base: int, offset: int, end: int)
    requires base % 32 == 0 && offset % 32 == 0 && 0 <= base && 0 <= offset < end && base + end <= TWO_TO_THE_32
    ensures (base + offset) % TWO_TO_THE_32 == base + offset && (base + offset) % 32 == 0
    ensures (base + end) % TWO_TO_THE_32 == if base + end < TWO_TO_THE_32 then base + end else 0
  {
  }

  lemma ShiftAndFlag(a: word, large: bool)
    requires a % 32 == 0
    ensures var w := (a / 32 + if large then TWO_TO_THE_31 else 0) % TWO_TO_THE_32;
            w % 0x0800_0000 * 32 == a && w / 0x0800_0000 == (if large then 0x10 else 0) && (w >= 0x8000_0000 <==> large)
  {
    assert a / 32 < TWO_TO_THE_27;
  }

  lemma ShiftBack(w: word, flags: int, a: word)
    requires w % TWO_TO_THE_27 * 32 == a && 0 <= flags < 32
    ensures ReplyWord(w, flags) * 32 % TWO_TO_THE_32 == a
  {
    assert ReplyWord(w, flags) * 32 == a + flags * TWO_TO_THE_32;
  }

  // ---------------------------------------------------------------------------------------------

  lemma FrameAddress(p: Pool, tag: int)
    requires p.Valid() && p.ValidTag(tag)
    ensures 0 <= tag * p.sizeSRB && tag * p.sizeSRB + p.sizeSRB <= p.maxSRB * p.sizeSRB
    ensures p.SrbPhys(tag) == p.phys + tag * p.sizeSRB && p.SrbPhys(tag) % 32 == 0
    ensures (p.phys + p.maxSRB * p.sizeSRB) % TWO_TO_THE_32 ==
            if p.phys + p.maxSRB * p.sizeSRB < TWO_TO_THE_32 then p.phys + p.maxSRB * p.sizeSRB else 0
    ensures tag * p.sizeSRB / p.sizeSRB == tag
  {
    MulBelow(tag, p.maxSRB, p.sizeSRB);
    MulAligned(tag, p.sizeSRB);
    DivBetween(tag * p.sizeSRB, p.sizeSRB, tag);
    InSpace(p.phys, tag * p.sizeSRB, p.maxSRB * p.sizeSRB);
  }

  /**
   The driver's pointer to a frame and the address the adapter is given for it are the same offset into the
   pool: tag 0 is at its start, the others follow without a gap, and the last one ends where the pool ends.
   */
  lemma PointersAndAddresses(p: Pool, tag: int)
    requires p.Valid()
    ensures p.SrbPtr(tag) == None <==> tag < 0 || tag >= p.maxSRB
    ensures p.ValidTag(tag) ==> p.SrbPtr(tag).value - p.ptr == p.SrbPhys(tag) - p.phys
    ensures p.SrbPtr(0) == Some(p.ptr) && p.SrbPhys(0) == p.phys
    ensures p.ValidTag(tag) && p.ValidTag(tag + 1) ==> p.SrbPtr(tag + 1).value == p.SrbPtr(tag).value + p.sizeSRB
    ensures p.SrbPtr(p.maxSRB - 1).value + p.sizeSRB == p.ptr + p.maxSRB * p.sizeSRB
  {
    if p.ValidTag(tag) {
      FrameAddress(p, tag);
    }
    FrameAddress(p, 0);
    assert (tag + 1) * p.sizeSRB == tag * p.sizeSRB + p.sizeSRB;
    assert (p.maxSRB - 1) * p.sizeSRB + p.sizeSRB == p.maxSRB * p.sizeSRB;
  }

  /** What a post word carries: the frame's address, and bit 31; the other flag bits are clear. */
  lemma PostWordCarries(p: Pool, tag: int, large: bool)
    requires p.Valid() && p.ValidTag(tag)
    ensures var w := p.PostWord(tag, large);
            && w % 0x0800_0000 * 32 == p.SrbPhys(tag)
            && w / 0x0800_0000 == (if large then 0x10 else 0)
            && (w >= 0x8000_0000 <==> large)
  {
    FrameAddress(p, tag);
    ShiftAndFlag(p.SrbPhys(tag), large);
  }

  /**
   The reply to a posted SRB, under any post flag and any reply flags, leads back to its tag, if and
   only if the end of the pool is itself a 32-bit address: for a pool that ends at 4GB, the range
   check of getSRBTag turns every reply away.
   */
  lemma TagRoundTrip(p: Pool, tag: int, large: bool, flags: int)
    requires p.Valid() && p.ValidTag(tag) && 0 <= flags < 32
    ensures p.ReplyTag(ReplyWord(p.PostWord(tag, large), flags)) ==
            if p.phys + p.maxSRB * p.sizeSRB < TWO_TO_THE_32 then tag else -1
  {
    FrameAddress(p, tag);
    PostWordCarries(p, tag, large);
    ShiftBack(p.PostWord(tag, large), flags, p.SrbPhys(tag));
  }

  /** Distinct tags never share a post word, nor a frame address. */
  lemma TagsDistinct(p: Pool, t1: int, t2: int, l1: bool, l2: bool)
    requires p.Valid() && p.ValidTag(t1) && p.ValidTag(t2)
    ensures p.PostWord(t1, l1) == p.PostWord(t2, l2) <==> t1 == t2 && l1 == l2
    ensures p.SrbPtr(t1) == p.SrbPtr(t2) <==> t1 == t2
  {
    FrameAddress(p, t1);
    FrameAddress(p, t2);
    PostWordCarries(p, t1, l1);
    PostWordCarries(p, t2, l2);
  }

  /**
   An arbitrary reply word passes getSRBTag and then getSRBPtr exactly when its address lies in the pool
   and the pool ends below 4GB; the frame is then the one the address falls in. The end address passes the
   first check as tag maxSRB and is stopped by the second.
   */
  lemma ArbitraryReply(p: Pool, response: word)
    requires p.Valid()
    ensures var address, tag := response * 32 % TWO_TO_THE_32, p.ReplyTag(response);
            var end := p.phys + p.maxSRB * p.sizeSRB;
            && (tag >= 0 && p.SrbPtr(tag).Some? <==> p.phys <= address < end && end < TWO_TO_THE_32)
            && (p.ValidTag(tag) ==> p.phys + tag * p.sizeSRB <= address < p.phys + tag * p.sizeSRB + p.sizeSRB)
            && (address == end ==> tag == p.maxSRB && p.SrbPtr(tag) == None)
            && (end == TWO_TO_THE_32 ==> tag == -1)
  {
    var x := response * 32 % TWO_TO_THE_32 - p.phys;
    MulBelow(0, p.maxSRB, p.sizeSRB);
    if 0 <= x <= p.maxSRB * p.sizeSRB {
      SlotOf(x, p.sizeSRB, p.maxSRB);
    }
  }

  /** ARCMSR_SRBREPLY_FLAG_ERROR, bit 28 of a reply. */
  predicate HasError(response: word) {
    response / (2 * TWO_TO_THE_27) % 2 == 1
  }

  /** The driver sees an error exactly when the adapter flagged one, whatever the address bits. */
  lemma ErrorFlagCarries(post: word, flags: int)
    requires 0 <= flags < 32
    ensures HasError(ReplyWord(post, flags)) <==> flags / 2 % 2 == 1
    ensures HasError(post) <==> post / 0x1000_0000 % 2 == 1
  {
    assert ReplyWord(post, flags) / TWO_TO_THE_27 == flags;
    assert ReplyWord(post, flags) / (2 * TWO_TO_THE_27) == flags / 2;
  }

  /** With bit 31 clear, as the adapter sets it, no reply is mistaken for an empty queue. */
  lemma ReplyIsNotSentinel(post: word, flags: int)
    requires 0 <= flags < 16
    ensures ReplyWord(post, flags) < 0x8000_0000 && ReplyWord(post, flags) != 0xFFFF_FFFF
    ensures QUEUE_EMPTY == 0xFFFF_FFFF
  {
  }
}
