/** The free list of SRB tags, kept as 32-bit words in the byte ring. */
module SrbTags {
  import opened Bytes
  import opened ByteQueue
  import opened RingBuffers
  import opened SrbAddress

  /** Tags go in at the end; with maxSRB of them queued a further one is turned away. */
  function AfterReturn(free: seq<word>, maxSRB: int, tag: word): seq<word> {
    if |free| < maxSRB then free + [tag] else free
  }

  /** 0, 1, ..., n-1 */
  function FirstTags(n: nat): (tags: seq<word>)
    requires n <= MAX_OUTSTANDING_SRB
    ensures |tags| == n
  {
    seq(n, i requires 0 <= i < n => i)
  }

  lemma FirstTagsNext(n: nat)
    requires n < MAX_OUTSTANDING_SRB
    ensures FirstTags(n + 1) == FirstTags(n) + [n]
  {
  }

  /**
   A ring of 4*maxSRB+1 bytes holding whole words: a word fits, without an exact fill, if and only if
   fewer than maxSRB are queued; otherwise it is refused.
   */
  lemma WordInsert(free: seq<word>, maxSRB: nat, tag: word)
    ensures Accepts(EncodeWords(free), 4 * maxSRB + 1, EncodeWord(tag)) <==> |free| < maxSRB
    ensures !ExactFill(EncodeWords(free), 4 * maxSRB + 1, EncodeWord(tag))
    ensures AfterInsert(EncodeWords(free), 4 * maxSRB + 1, EncodeWord(tag)) ==
            EncodeWords(AfterReturn(free, maxSRB, tag))
  {
    EncodeWordsAppend(free, tag);
  }

  /** Taking four bytes takes the oldest word, or nothing: never part of a word. */
  lemma WordRemove(free: seq<word>)
    ensures var q := EncodeWords(free);
            if free == [] then q == [] && AfterRemove(q, 4) == []
            else |q| >= 4 && DecodeWord(q[..4]) == free[0] && AfterRemove(q, 4) == EncodeWords(free[1..])
  {
    if free != [] {
      var q := EncodeWords(free);
      assert q == EncodeWord(free[0]) + EncodeWords(free[1..]);
      assert q[..4] == EncodeWord(free[0]);
      assert AfterRemove(q, 4) == EncodeWords(free[1..]);
      DecodeEncodeWord(free[0]);
    }
  }

  class TagPool {
    const maxSRB: int
    const freeSRB: RingBuffer

    /** The tags whose words the ring holds, oldest first. */
    ghost var free: seq<word>

    ghost predicate Valid()
      reads this, freeSRB, freeSRB.data
    {
      && 1 <= maxSRB <= MAX_OUTSTANDING_SRB
      && freeSRB.Valid() && freeSRB.size == 4 * maxSRB + 1
      && |free| <= maxSRB
      && freeSRB.Contents() == EncodeWords(free)
    }

    ghost function Repr(): set<object> {
      {this, freeSRB, freeSRB.data}
    }

    constructor (maxSRB: int)
      requires 1 <= maxSRB <= MAX_OUTSTANDING_SRB
      ensures Valid() && fresh(Repr())
      ensures this.maxSRB == maxSRB && free == []
    {
      this.maxSRB := maxSRB;
      freeSRB := new RingBuffer(maxSRB * 4);
      free := [];
    }

    /** The loop that queues every tag at start-up; it never meets a full ring. */
    method FillFreeList() returns (ok: bool)
      requires Valid() && free == []
      modifies Repr()
      ensures Valid() && ok && free == FirstTags(maxSRB)
      ensures |free| == maxSRB && forall i | 0 <= i < maxSRB :: free[i] == i
    {
      for i := 0 to maxSRB
        invariant Valid() && free == FirstTags(i)
      {
        var inserted := freeSRB.InsertWord(i);
        WordInsert(free, maxSRB, i);
        free := AfterReturn(free, maxSRB, i);
        FirstTagsNext(i);
        if !inserted {
          return false;
        }
      }
      ok := true;
    }

    /** -1 exactly when no tag is free, otherwise the tag that has been free longest. */
    method GetTag() returns (tag: int)
      requires Valid()
      modifies Repr()
      ensures Valid()
      ensures tag == if old(free) == [] then -1 else old(free)[0]
      ensures free == if old(free) == [] then [] else old(free)[1..]
    {
      WordRemove(free);
      var status, word := freeSRB.RemoveWord();
      if status == 1 {
        tag := word;
      } else {
        tag := -1;
      }
      free := if free == [] then [] else free[1..];
    }

    /** Callers never pass a negative tag. The result of the insert is not looked at. */
    method ReturnTag(tag: int)
      requires Valid() && 0 <= tag < TWO_TO_THE_32
      modifies Repr()
      ensures Valid() && free == AfterReturn(old(free), maxSRB, tag)
    {
      WordInsert(free, maxSRB, tag);
      var _ := freeSRB.InsertWord(tag);
      free := AfterReturn(free, maxSRB, tag);
    }
  }
}
