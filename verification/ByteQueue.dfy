/**
 The meaning of the ring buffer as a queue of bytes, boundary case included, and what a whole run
 of operations conserves.
 */
module ByteQueue {
  import opened Bytes

  /** The space check of an insert: |q| bytes are queued in a ring of `size` slots. */
  predicate Accepts(q: seq<byte>, size: int, x: seq<byte>) {
    |q| + |x| <= size
  }

  /** The insert is accepted but leaves head == tail, which reads as an empty ring. */
  predicate ExactFill(q: seq<byte>, size: int, x: seq<byte>) {
    |q| + |x| == size
  }

  function AfterInsert(q: seq<byte>, size: int, x: seq<byte>): seq<byte> {
    if |q| + |x| < size then q + x
    else if ExactFill(q, size, x) then []
    else q
  }

  function Taken(q: seq<byte>, n: nat): seq<byte> {
    if n < |q| then q[..n] else q
  }

  function AfterRemove(q: seq<byte>, n: nat): seq<byte> {
    if n < |q| then q[n..] else []
  }

  lemma TakenThenRest(q: seq<byte>, n: nat)
    ensures Taken(q, n) + AfterRemove(q, n) == q
    ensures |Taken(q, n)| == if n < |q| then n else |q|
  {
  }

  // ---------------------------------------------------------------------------------------------
  // Whole runs

  datatype Op = Insert(bytes: seq<byte>) | Remove(count: nat) | Clear

  /** The queue, with everything accepted and everything removed since the run began. */
  datatype Ledger = Ledger(queue: seq<byte>, accepted: seq<byte>, removed: seq<byte>)

  function Apply(l: Ledger, size: int, op: Op): Ledger {
    match op
    case Insert(x) =>
      if Accepts(l.queue, size, x)
      then l.(queue := AfterInsert(l.queue, size, x), accepted := l.accepted + x)
      else l
    case Remove(n) =>
      l.(queue := AfterRemove(l.queue, n), removed := l.removed + Taken(l.queue, n))
    case Clear =>
      l.(queue := [])
  }

  function Run(size: int, ops: seq<Op>): Ledger {
    if ops == [] then Ledger([], [], [])
    else Apply(Run(size, ops[..|ops| - 1]), size, ops[|ops| - 1])
  }

  /** The operation discards queued bytes. Both cases can be seen before the call. */
  predicate Loses(q: seq<byte>, size: int, op: Op) {
    match op
    case Insert(x) => ExactFill(q, size, x)
    case Remove(_) => false
    case Clear => q != []
  }

  predicate LossFree(size: int, ops: seq<Op>) {
    ops == [] ||
    var prefix, op := ops[..|ops| - 1], ops[|ops| - 1];
    LossFree(size, prefix) && !Loses(Run(size, prefix).queue, size, op)
  }

  /**
   A run of a ring of any size, over any operations, hands out exactly the accepted bytes in order
   (the rest still being queued) if and only if no insert filled the ring exactly and no clear met a
   non-empty ring. The queue never holds more than size - 1 bytes.
   */
  lemma {:induction false} Conservation(size: int, ops: seq<Op>)
    requires size > 0
    ensures var l := Run(size, ops);
            && |l.queue| < size
            && |l.removed| + |l.queue| <= |l.accepted|
            && (l.removed + l.queue == l.accepted <==> LossFree(size, ops))
  {
    if ops == [] {
    } else {
      var prefix, op := ops[..|ops| - 1], ops[|ops| - 1];
      Conservation(size, prefix);
      ApplyConserves(Run(size, prefix), size, op);
    }
  }

  lemma ApplyConserves(l: Ledger, size: int, op: Op)
    requires |l.queue| < size
    requires |l.removed| + |l.queue| <= |l.accepted|
    ensures var l' := Apply(l, size, op);
            && |l'.queue| < size
            && |l'.removed| + |l'.queue| <= |l'.accepted|
            && (l'.removed + l'.queue == l'.accepted <==>
                l.removed + l.queue == l.accepted && !Loses(l.queue, size, op))
  {
    match op {
      case Insert(x) =>
        assert l.removed + (l.queue + x) == (l.removed + l.queue) + x;
        if l.removed + l.queue != l.accepted && |l.removed + l.queue| == |l.accepted| {
          var k :| 0 <= k < |l.accepted| && (l.removed + l.queue)[k] != l.accepted[k];
          assert ((l.removed + l.queue) + x)[k] != (l.accepted + x)[k];
        }
      case Remove(n) =>
        TakenThenRest(l.queue, n);
        assert (l.removed + Taken(l.queue, n)) + AfterRemove(l.queue, n) == l.removed + l.queue;
      case Clear =>
        if l.queue != [] {
          assert |l.removed + []| < |l.accepted|;
        }
    }
  }
}
