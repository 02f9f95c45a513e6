/** The byte ring of ArcMSRUtils.cpp, updated in place. */
module RingBuffers {
  import opened Bytes
  import opened ByteQueue

  /** x written over d at position `at`. */
  function Splice(d: seq<byte>, at: int, x: seq<byte>): (s: seq<byte>)
    requires 0 <= at && at + |x| <= |d|
    ensures |s| == |d|
  {
    d[..at] + x + d[at + |x|..]
  }

  lemma SpliceAll(d: seq<byte>, x: seq<byte>)
    requires |x| <= |d|
    ensures |x| == |d| ==> Splice(d, 0, x) == x
  {
  }

  lemma SpliceTwice(d: seq<byte>, at: int, x: seq<byte>, y: seq<byte>)
    requires 0 <= at && at + |x| + |y| <= |d|
    ensures Splice(Splice(d, at, x), at + |x|, y) == Splice(d, at, x + y)
  {
  }

  /** The oldest n bytes and then the next m make one removal of up to len bytes. */
  lemma TwoReads(d: seq<byte>, at: int, q: seq<byte>, n: nat, m: nat, len: nat)
    requires 0 <= at && at + len <= |d| && n <= len
    requires n + m == |Taken(q, len)|
    ensures Splice(Splice(d, at, q[..n]), at + n, q[n..][..m]) == Splice(d, at, Taken(q, len))
    ensures q[n..][m..] == AfterRemove(q, len)
  {
    SpliceTwice(d, at, q[..n], q[n..][..m]);
    assert q[n..][..m] == q[n..n + m] && q[n..][m..] == q[n + m..];
    assert q[..n] + q[n..n + m] == q[..n + m];
    assert q[..n + m] == Taken(q, len) && q[n + m..] == AfterRemove(q, len);
  }

  /** An accepted insert in two parts, of which the first does not fill the ring. */
  lemma InsertInTwo(q: seq<byte>, size: int, x: seq<byte>, n: nat)
    requires n < |x| && Accepts(q, size, x)
    ensures AfterInsert(AfterInsert(q, size, x[..n]), size, x[n..]) == AfterInsert(q, size, x)
  {
    assert (q + x[..n]) + x[n..] == q + x;
  }

  /** memcpy, and the copies into and out of a memory descriptor. */
  method Copy(dst: array<byte>, at: int, src: array<byte>, from: int, n: int)
    requires dst != src
    requires 0 <= n && 0 <= at && at + n <= dst.Length && 0 <= from && from + n <= src.Length
    modifies dst
    ensures dst[..] == Splice(old(dst[..]), at, src[from..from + n])
  {
    forall i | 0 <= i < n {
      dst[at + i] := src[from + i];
    }
  }

  /** The bytes from tail round to head. */
  function Window(d: seq<byte>, head: int, tail: int): (q: seq<byte>)
    requires 0 <= head < |d| && 0 <= tail < |d|
    ensures |q| == if head >= tail then head - tail else head + |d| - tail
  {
    if head >= tail then d[tail..head] else d[tail..] + d[..head]
  }

  /** Positions 0 and |d| are the same place. */
  function Wrap(i: int, size: int): int {
    if i == size then 0 else i
  }

  /** Writing x at head, within the array and short of filling it, appends x. */
  lemma WriteAppends(d: seq<byte>, head: int, tail: int, x: seq<byte>)
    requires 0 <= head < |d| && 0 <= tail < |d|
    requires head + |x| <= |d| && |Window(d, head, tail)| + |x| < |d|
    ensures Window(Splice(d, head, x), Wrap(head + |x|, |d|), tail) == Window(d, head, tail) + x
  {
    var h := head + |x|;
    var d' := Splice(d, head, x);
    assert d'[head..h] == x;
    if head >= tail {
      assert d'[tail..head] == d[tail..head];
      assert d'[tail..h] == d'[tail..head] + d'[head..h];
      if h == |d| {
        assert d'[tail..] + d'[..0] == d'[tail..h];
      }
    } else {
      assert d'[tail..] == d[tail..];
      assert d'[..head] == d[..head];
      assert d'[..h] == d'[..head] + d'[head..h];
      assert d[tail..] + (d[..head] + x) == (d[tail..] + d[..head]) + x;
    }
  }

  /** Reading n bytes at tail, within the array, takes the oldest n. */
  lemma ReadTakes(d: seq<byte>, head: int, tail: int, n: int)
    requires 0 <= head < |d| && 0 <= tail < |d|
    requires 0 <= n <= |Window(d, head, tail)| && tail + n <= |d|
    ensures d[tail..tail + n] == Window(d, head, tail)[..n]
    ensures Window(d, head, Wrap(tail + n, |d|)) == Window(d, head, tail)[n..]
  {
    var q, q' := Window(d, head, tail), Window(d, head, Wrap(tail + n, |d|));
    assert |q'| == |q| - n;
    forall i | 0 <= i < n ensures q[i] == d[tail + i] {
    }
    forall i | 0 <= i < |q'| ensures q'[i] == q[n + i] {
    }
  }

  lemma WrappedDifference(head: int, tail: int, size: int)
    requires 0 <= head < size && 0 <= tail < size
    ensures ((head + size) - tail) % size == if head >= tail then head - tail else head + size - tail
  {
    if head >= tail {
      ModAdd(head - tail, size);
    }
  }

  lemma ModAdd(x: int, n: int)
    requires 0 <= x < n
    ensures (x + n) % n == x
  {
    var q, r := (x + n) / n, (x + n) % n;
    assert n * (q - 1) == x - r;
    assert -n < n * (q - 1) < n;
  }

  class RingBuffer {
    const size: int
    const data: array<byte>
    var head: int
    var tail: int

    ghost predicate Valid()
      reads this
    {
      size == data.Length && 0 <= head < size && 0 <= tail < size
    }

    /** The queued bytes, oldest first. */
    ghost function Contents(): (q: seq<byte>)
      requires Valid()
      reads this, data
      ensures |q| < size
    {
      Window(data[..], head, tail)
    }

    constructor (desiredSize: int)
      requires desiredSize >= 0
      ensures Valid() && fresh(data)
      ensures size == desiredSize + 1 && Contents() == []
    {
      size := desiredSize + 1;
      data := new byte[desiredSize + 1];
      head := 0;
      tail := 0;
    }

    method Clear()
      requires Valid()
      modifies this
      ensures Valid() && Contents() == []
    {
      head := 0;
      tail := 0;
    }

    /** Reports one slot more than the ring can hold without reading as empty. */
    function Avail(): (room: int)
      requires Valid()
      reads this, data
      ensures room == size - |Contents()|
    {
      WrappedDifference(head, tail, size);
      size - (((head + size) - tail) % size)
    }

    /** One run of bytes copied at head, which never points to the end afterwards. */
    method WriteAtHead(indata: array<byte>, from: int, n: int)
      requires Valid() && indata != data
      requires 0 <= from && 0 <= n && from + n <= indata.Length
      requires head + n <= size && |Contents()| + n <= size
      modifies this`head, data
      ensures Valid() && head == Wrap(old(head) + n, size)
      ensures Contents() == AfterInsert(old(Contents()), size, indata[from..from + n])
    {
      if |Contents()| + n < size {
        WriteAppends(data[..], head, tail, indata[from..from + n]);
      }
      Copy(data, head, indata, from, n);
      head := head + n;
      if head == size {
        head := 0;
      }
    }

    /** One run of bytes copied from tail, which never points to the end afterwards. */
    method ReadAtTail(outdata: array<byte>, at: int, n: int)
      requires Valid() && outdata != data
      requires 0 <= at && 0 <= n && at + n <= outdata.Length && tail + n <= size && n <= |Contents()|
      modifies this`tail, outdata
      ensures Valid() && tail == Wrap(old(tail) + n, size)
      ensures Contents() == old(Contents())[n..]
      ensures outdata[..] == Splice(old(outdata[..]), at, old(Contents())[..n])
    {
      ReadTakes(data[..], head, tail, n);
      Copy(outdata, at, data, tail, n);
      tail := tail + n;
      if tail == size {
        tail := 0;
      }
    }

    /** Insert the first `len` bytes at a raw pointer. */
    method Insert(indata: array<byte>, len: int) returns (ok: bool)
      requires Valid() && indata != data
      requires 0 <= len <= indata.Length
      modifies this`head, data
      ensures Valid()
      ensures ok == Accepts(old(Contents()), size, indata[..len])
      ensures Contents() == AfterInsert(old(Contents()), size, indata[..len])
    {
      if len > Avail() {
        return false;
      }
      ghost var q, x := Contents(), indata[..len];
      var frag := if size - head > len then len else size - head;
      assert indata[0..frag] == x[..frag] && indata[frag..len] == x[frag..];
      WriteAtHead(indata, 0, frag);
      if len > frag {
        InsertInTwo(q, size, x, frag);
        WriteAtHead(indata, frag, len - frag);
      } else {
        assert x[..frag] == x;
      }
      return true;
    }

    /** Insert the whole of a memory descriptor. */
    method InsertDescriptor(md: array<byte>) returns (ok: bool)
      requires Valid() && md != data
      modifies this`head, data
      ensures Valid()
      ensures ok == Accepts(old(Contents()), size, md[..])
      ensures Contents() == AfterInsert(old(Contents()), size, md[..])
    {
      assert md[..md.Length] == md[..];
      ok := Insert(md, md.Length);
    }

    /** Remove up to `len` bytes to a raw pointer; `at` is the pointer's offset in its buffer. */
    method Remove(outdata: array<byte>, at: int, len: int) returns (count: int)
      requires Valid() && outdata != data
      requires 0 <= at && 0 <= len && at + len <= outdata.Length
      modifies this`tail, outdata
      ensures Valid()
      ensures count == |Taken(old(Contents()), len)|
      ensures Contents() == AfterRemove(old(Contents()), len)
      ensures outdata[..] == Splice(old(outdata[..]), at, Taken(old(Contents()), len))
    {
      ghost var q, was := Contents(), outdata[..];
      if head >= tail {
        count := if head - tail > len then len else head - tail;
        ReadAtTail(outdata, at, count);
        assert Taken(q, len) == q[..count] && AfterRemove(q, len) == q[count..];
      } else {
        count := RemoveAcrossEnd(outdata, at, len);
      }
    }

    /** The queued bytes go on past the end of the array. */
    method RemoveAcrossEnd(outdata: array<byte>, at: int, len: int) returns (count: int)
      requires Valid() && outdata != data && head < tail
      requires 0 <= at && 0 <= len && at + len <= outdata.Length
      modifies this`tail, outdata
      ensures Valid()
      ensures count == |Taken(old(Contents()), len)|
      ensures Contents() == AfterRemove(old(Contents()), len)
      ensures outdata[..] == Splice(old(outdata[..]), at, Taken(old(Contents()), len))
    {
      ghost var q, was := Contents(), outdata[..];
      var frag := if size - tail > len then len else size - tail;
      ReadAtTail(outdata, at, frag);
      var frag2 := 0;
      if len > frag {
        frag2 := if head > len - frag then len - frag else head;
        ReadAtTail(outdata, at + frag, frag2);
        TwoReads(was, at, q, frag, frag2, len);
      } else {
        assert Taken(q, len) == q[..frag] && AfterRemove(q, len) == q[frag..];
      }
      count := frag + frag2;
    }

    /** Remove to a memory descriptor, from byte `offset` of it to its end. */
    method RemoveDescriptor(md: array<byte>, offset: int) returns (count: int)
      requires Valid() && md != data
      requires 0 <= offset <= md.Length
      modifies this`tail, md
      ensures Valid()
      ensures count == |Taken(old(Contents()), md.Length - offset)|
      ensures Contents() == AfterRemove(old(Contents()), md.Length - offset)
      ensures md[..] == Splice(old(md[..]), offset, Taken(old(Contents()), md.Length - offset))
    {
      count := Remove(md, offset, md.Length - offset);
    }

    method InsertWord(one: word) returns (ok: bool)
      requires Valid()
      modifies this`head, data
      ensures Valid()
      ensures ok == Accepts(old(Contents()), size, EncodeWord(one))
      ensures Contents() == AfterInsert(old(Contents()), size, EncodeWord(one))
    {
      var image := EncodeWord(one);
      var buffer := new byte[4](i requires 0 <= i < 4 => image[i]);
      assert buffer[..4] == image;
      ok := Insert(buffer, 4);
    }

    /** 1 with a whole word, or -1; then up to three bytes have still been taken off the ring. */
    method RemoveWord() returns (status: int, one: word)
      requires Valid()
      modifies this`tail
      ensures Valid()
      ensures status == if |old(Contents())| >= 4 then 1 else -1
      ensures status == 1 ==> one == DecodeWord(old(Contents())[..4])
      ensures Contents() == AfterRemove(old(Contents()), 4)
    {
      var buffer := new byte[4](_ => 0);
      ghost var q, was := Contents(), buffer[..];
      var count := Remove(buffer, 0, 4);
      SpliceAll(was, Taken(q, 4));
      one := DecodeWord(buffer[..]);
      status := if count == 4 then 1 else -1;
    }
  }
}
