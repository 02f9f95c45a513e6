/** The SCSI request block and the list of physical segments built in it. */
module ScatterGather {
  import opened Bytes
  import opened SrbAddress

  const SG_LENGTH_LIMIT := 0x100_0000   // ~ARCMSR_SG_FLAGMASK + 1
  const SMALL_FRAME := 256

  datatype Segment = Segment(location: word, length: word)

  datatype SgEntry = SgEntry(length: word, address: word)

  /** segment.length & ~ARCMSR_SG_FLAGMASK */
  function Entry(s: Segment): SgEntry {
    SgEntry(s.length % SG_LENGTH_LIMIT, s.location)
  }

  function Entries(segments: seq<Segment>): (es: seq<SgEntry>)
    ensures |es| == |segments|
  {
    seq(|segments|, i requires 0 <= i < |segments| => Entry(segments[i]))
  }

  /** Each entry has its segment's address, and its length unless that needs more than 24 bits. */
  predicate Describes(entries: seq<SgEntry>, segments: seq<Segment>) {
    && |segments| <= |entries|
    && forall i | 0 <= i < |segments| ::
         && entries[i].address == segments[i].location && entries[i].length == segments[i].length % 0x100_0000
         && (entries[i].length == segments[i].length <==> segments[i].length < 0x100_0000)
  }

  lemma EntriesDescribe(segments: seq<Segment>, rest: seq<SgEntry>)
    ensures Describes(Entries(segments) + rest, segments)
  {
  }

  /** The end of a list of k entries lies beyond the small frame. */
  predicate NeedsLargeFrame(k: nat) {
    FrameEnd(k) > SMALL_FRAME
  }

  function TotalLength(segments: seq<Segment>): nat {
    if segments == [] then 0 else segments[0].length + TotalLength(segments[1..])
  }

  function TotalListed(entries: seq<SgEntry>): nat {
    if entries == [] then 0 else entries[0].length + TotalListed(entries[1..])
  }

  /** The list conserves the transfer length exactly when every segment fits in 24 bits. */
  lemma {:induction false} LengthConserved(segments: seq<Segment>)
    ensures TotalListed(Entries(segments)) <= TotalLength(segments)
    ensures TotalListed(Entries(segments)) == TotalLength(segments) <==>
            forall s <- segments :: s.length < 0x100_0000
  {
    if segments != [] {
      assert Entries(segments)[1..] == Entries(segments[1..]);
      assert segments == [segments[0]] + segments[1..];
      LengthConserved(segments[1..]);
      var length := segments[0].length;
      assert length % SG_LENGTH_LIMIT <= length;
      assert length % SG_LENGTH_LIMIT == length <==> length < SG_LENGTH_LIMIT;
    }
  }

  /** The list area once the first k segments are in it. */
  function Listed(segments: seq<Segment>, was: seq<SgEntry>, k: nat): seq<SgEntry>
    requires k <= |segments| <= |was|
  {
    Entries(segments[..k]) + was[k..]
  }

  lemma ListedNext(segments: seq<Segment>, was: seq<SgEntry>, k: nat)
    requires k < |segments| <= |was|
    ensures Listed(segments, was, k)[k := Entry(segments[k])] == Listed(segments, was, k + 1)
  {
    assert Entries(segments[..k + 1]) == Entries(segments[..k]) + [Entry(segments[k])];
  }

  /** The fields ahead of the segment list that nothing else touches; context is not used. */
  datatype Header = Header(bus: int, functionCode: int, cdbLength: int, cdb: seq<byte>, context: word)

  /** What the adapter writes back into an SRB. */
  datatype Report = Report(deviceStatus: int, senseData: seq<byte>)

  class Srb {
    var header: Header
    var report: Report
    var target: int
    var lun: int
    var sgCount: int
    var largeFrame: bool    // ARCMSR_SRB_FLAG_SGL_BSIZE
    var write: bool         // ARCMSR_SRB_FLAG_WRITE
    const sg: array<SgEntry>

    ghost predicate Valid()
      reads this
    {
      sg.Length == MAX_SG_ENTRIES && 0 <= sgCount < 256
    }

    constructor ()
      ensures Valid() && fresh(sg)
    {
      sg := new SgEntry[MAX_SG_ENTRIES](_ => SgEntry(0, 0));
      header, report := Header(0, 0, 0, [], 0), Report(0, []);
      target, lun, sgCount := 0, 0, 0;
      largeFrame, write := false, false;
    }

    /** Everything ahead of the segment list; the flags are those of the command alone. */
    method Prepare(header: Header, target: int, lun: int, write: bool)
      requires Valid()
      modifies this
      ensures Valid() && this.header == header && this.target == target && this.lun == lun
      ensures this.write == write && !largeFrame
      ensures unchanged(`report, `sgCount)
    {
      this.header, this.target, this.lun := header, target, lun;
      this.largeFrame, this.write := false, write;
    }

    /** Only the first segment resets sgCount. */
    method OutputSegment(segment: Segment, index: int)
      requires Valid() && 0 <= index < MAX_SG_ENTRIES
      modifies this`sgCount, this`largeFrame, sg
      ensures Valid()
      ensures sgCount == if index == 0 then 1 else (old(sgCount) + 1) % 256
      ensures sg[..] == old(sg[..])[index := sg[index]]
      ensures sg[index] == SgEntry(segment.length % 0x100_0000, segment.location)
      ensures largeFrame == (old(largeFrame) || 48 + 8 * sgCount > 256)
    {
      if index == 0 {
        sgCount := 0;
      }
      sg[index] := Entry(segment);
      sgCount := (sgCount + 1) % 256;
      if FrameEnd(sgCount) > SMALL_FRAME {
        largeFrame := true;
      }
    }

    /**
     The memory cursor hands over the segments in order. With none at all, as for a command without
     data, sgCount keeps what the previous user of the frame left there.
     */
    method GenPhysicalSegments(segments: seq<Segment>)
      requires Valid() && |segments| <= 38
      modifies this`sgCount, this`largeFrame, sg
      ensures Valid()
      ensures sgCount == if segments == [] then old(sgCount) else |segments|
      ensures sg[..] == Entries(segments) + old(sg[..])[|segments|..]
      ensures Describes(sg[..], segments)
      ensures largeFrame == (old(largeFrame) || 48 + 8 * |segments| > 256)
    {
      ghost var was := sg[..];
      for k := 0 to |segments|
        invariant Valid()
        invariant sgCount == if k == 0 then old(sgCount) else k
        invariant sg[..] == Listed(segments, was, k)
        invariant largeFrame == (old(largeFrame) || NeedsLargeFrame(k))
      {
        OutputSegment(segments[k], k);
        ListedNext(segments, was, k);
      }
      assert segments[..|segments|] == segments;
      EntriesDescribe(segments, was[|segments|..]);
    }

    /** The SRB of a command: everything ahead of the list, then the list. */
    method Build(header: Header, target: int, lun: int, write: bool, segments: seq<Segment>)
      requires Valid() && |segments| <= 38
      modifies this, sg
      ensures Valid() && this.header == header && this.target == target && this.lun == lun && this.write == write
      ensures unchanged(`report)
      ensures sgCount == if segments == [] then old(sgCount) else |segments|
      ensures sg[..] == Entries(segments) + old(sg[..])[|segments|..] && Describes(sg[..], segments)
      ensures largeFrame == (48 + 8 * |segments| > 256)
    {
      Prepare(header, target, lun, write);
      GenPhysicalSegments(segments);
    }
  }
}
