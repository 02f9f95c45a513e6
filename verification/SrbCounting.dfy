/**
 How many tags the tasks of the SCSI stack hold. The stack is told maxSRB, and ProcessParallelTask counts
 on never running out of tags while the stack keeps to that number.
 */
module SrbCounting {
  import opened Bytes
  import opened SrbAddress
  import opened SrbTags
  import opened SrbProtocol
  import opened SrbTheorems

  /** The tags, built or in flight, whose task has left the stack. */
  ghost function Abandoned(p: Pool, s: State): set<int>
    requires p.sizeSRB > 0 && p.maxSRB >= 0
  {
    set tag | tag in TagSet(p.maxSRB) && IsAbandoned(s, Flight(p, s), tag)
  }

  ghost predicate IsAbandoned(s: State, flight: multiset<int>, tag: int) {
    if tag in s.building then s.building[tag].task !in s.stack
    else tag in flight && LastPost(s.log, tag).Some? && LastPost(s.log, tag).value !in s.stack
  }

  /** The tags of the tasks on the stack's list. */
  ghost function StackTags(s: State): set<int>
    requires s.stack.Keys <= s.startedAs.Keys
  {
    Image(s.stack.Keys, s.startedAs)
  }

  ghost predicate Injective(xs: set<int>, f: map<int, int>) {
    xs <= f.Keys && forall x <- xs, y <- xs | f[x] == f[y] :: x == y
  }

  function Image(xs: set<int>, f: map<int, int>): set<int>
    requires xs <= f.Keys
  {
    set x | x in xs :: f[x]
  }

  lemma {:induction false} ImageSize(xs: set<int>, f: map<int, int>)
    requires Injective(xs, f)
    ensures |Image(xs, f)| == |xs|
  {
    if xs == {} {
      assert Image(xs, f) == {};
    } else {
      assert exists x :: x in xs by {
        assert (forall x :: x !in xs) ==> xs == {};
      }
      var x :| x in xs;
      ImageSize(xs - {x}, f);
      assert Image(xs, f) == Image(xs - {x}, f) + {f[x]};
    }
  }

  lemma NoDuplicates(f: seq<int>)
    requires forall x <- f :: multiset(f)[x] == 1
    ensures |Elements(f)| == |f|
  {
    var elements := Elements(f);
    forall x ensures multiset(f)[x] == multiset(elements)[x] {
      assert x in f <==> x in multiset(f);
    }
    assert multiset(f) == multiset(elements);
    assert |multiset(f)| == |f| && |multiset(elements)| == |elements|;
  }

  /** The task on the stack's list that was started under a tag is the one holding it. */
  lemma StackTag(p: Pool, s: State, tag: int)
    requires p.sizeSRB > 0 && Inv(p, s)
    ensures s.stack.Keys <= s.startedAs.Keys
    ensures tag in StackTags(s) <==>
            if tag in s.building then s.building[tag].task in s.stack
            else tag in Flight(p, s) && LastPost(s.log, tag).Some? && LastPost(s.log, tag).value in s.stack
  {
    var flight := Flight(p, s);
    forall t <- s.stack ensures Outstanding(p, s, flight, t) {
    }
    if tag in s.building {
      assert HeldBy(s, tag, s.building[tag].task);
    } else if tag in flight {
      assert HeldBy(s, tag, LastPost(s.log, tag).value);
    }
  }

  function Elements(f: seq<int>): set<int> {
    set x | x in f
  }

  /** A tag is in exactly one of four sets, and nothing but tags is in any. */
  ghost predicate Shared(n: nat, a: set<int>, b: set<int>, c: set<int>, d: set<int>, x: int) {
    (if x in a then 1 else 0) + (if x in b then 1 else 0) + (if x in c then 1 else 0) + (if x in d then 1 else 0)
      == if 0 <= x < n then 1 else 0
  }

  /** Each tag is free, a listed task's, abandoned, or returning; only one of these. */
  lemma Classified(p: Pool, s: State, tag: int)
    requires p.Valid() && Inv(p, s)
    ensures s.stack.Keys <= s.startedAs.Keys
    ensures Shared(p.maxSRB, Elements(s.free), StackTags(s), Abandoned(p, s), Elements(s.returning), tag)
  {
    StackTag(p, s, tag);
    OnePlace(p, s, Flight(p, s), tag);
    assert tag in Elements(s.free) <==> tag in multiset(s.free);
    assert tag in Elements(s.returning) <==> tag in multiset(s.returning);
    if tag in Flight(p, s) {
      assert LastPost(s.log, tag).Some?;
    }
  }

  lemma {:induction false} FourParts(n: nat, a: set<int>, b: set<int>, c: set<int>, d: set<int>)
    requires forall x :: Shared(n, a, b, c, d, x)
    ensures |a| + |b| + |c| + |d| == n
  {
    forall x
      ensures x in a + b + c + d <==> x in TagSet(n)
      ensures (x in a ==> x !in b) && (x in a + b ==> x !in c) && (x in a + b + c ==> x !in d)
    {
      assert Shared(n, a, b, c, d, x);
    }
    assert a + b + c + d == TagSet(n);
    assert a !! b && (a + b) !! c && (a + b + c) !! d;
    assert |a + b| == |a| + |b| && |a + b + c| == |a + b| + |c|;
  }

  /**
   In every state of the protocol the tags are shared out without rest: the free ones, one for each task
   on the stack's list, the abandoned ones, and the one on its way back.
   */
  lemma TagsShared(p: Pool, s: State)
    requires p.Valid() && Inv(p, s)
    ensures |s.free| + |s.stack| + |Abandoned(p, s)| + |s.returning| == p.maxSRB
  {
    StackSize(p, s);
    ListSizes(p, s);
    forall tag ensures Shared(p.maxSRB, Elements(s.free), StackTags(s), Abandoned(p, s), Elements(s.returning), tag) {
      Classified(p, s, tag);
    }
    FourParts(p.maxSRB, Elements(s.free), StackTags(s), Abandoned(p, s), Elements(s.returning));
  }

  lemma ListSizes(p: Pool, s: State)
    requires p.sizeSRB > 0 && Partition(p, s, Flight(p, s))
    ensures |Elements(s.free)| == |s.free| && |Elements(s.returning)| == |s.returning|
  {
    forall x: int <- s.free ensures multiset(s.free)[x] == 1 {
      assert x in multiset(s.free);
      OnePlace(p, s, Flight(p, s), x);
    }
    NoDuplicates(s.free);
    if s.returning != [] {
      assert s.returning == [s.returning[0]];
      assert Elements(s.returning) == {s.returning[0]};
    }
  }

  lemma StackSize(p: Pool, s: State)
    requires p.sizeSRB > 0 && Inv(p, s)
    ensures s.stack.Keys <= s.startedAs.Keys && |StackTags(s)| == |s.stack|
  {
    OneTaskEach(p, s, Flight(p, s));
    ImageSize(s.stack.Keys, s.startedAs);
  }

  /** No two outstanding tasks have the same tag. */
  lemma OneTaskEach(p: Pool, s: State, flight: multiset<int>)
    requires AllOutstanding(p, s, flight)
    ensures Injective(s.stack.Keys, s.startedAs)
  {
    forall t <- s.stack ensures Outstanding(p, s, flight, t) {
    }
  }

  // ---------------------------------------------------------------------------------------------
  // When a request finds no tag

  /** The tasks the stack has given up on. */
  function GivenUp(log: seq<Entry>): set<nat> {
    set e | e in log && e.TimedOut? :: e.task
  }

  /** The task that holds a tag. */
  function Holder(s: State, tag: int): nat {
    if tag in s.building then s.building[tag].task
    else if LastPost(s.log, tag).Some? then LastPost(s.log, tag).value
    else 0
  }

  lemma AbandonedHolder(p: Pool, s: State, tag: int)
    requires p.sizeSRB > 0 && Inv(p, s) && IsAbandoned(s, Flight(p, s), tag)
    ensures var t := Holder(s, tag);
            TimedOut(t) in s.log && t in s.startedAs && s.startedAs[t] == tag
  {
    if tag in s.building {
      assert HeldBy(s, tag, s.building[tag].task);
    } else {
      assert HeldBy(s, tag, LastPost(s.log, tag).value);
    }
  }

  /** Each abandoned tag is kept by a task of its own that timed out. */
  lemma AbandonedSize(p: Pool, s: State)
    requires p.Valid() && Inv(p, s)
    ensures |Abandoned(p, s)| <= |GivenUp(s.log)|
  {
    var abandoned := Abandoned(p, s);
    forall tag <- abandoned
      ensures TimedOut(Holder(s, tag)) in s.log && Holder(s, tag) in s.startedAs && s.startedAs[Holder(s, tag)] == tag
    {
      AbandonedHolder(p, s, tag);
    }
    HoldersSize(s, abandoned);
  }

  lemma HoldersSize(s: State, tags: set<int>)
    requires forall tag <- tags ::
               var t := Holder(s, tag);
               TimedOut(t) in s.log && t in s.startedAs && s.startedAs[t] == tag
    ensures |tags| <= |GivenUp(s.log)|
  {
    var holders := map tag | tag in tags :: Holder(s, tag) as int;
    ImageSize(tags, holders);
    forall t <- Image(tags, holders) ensures t in GivenUp(s.log) {
      var tag :| tag in tags && holders[tag] == t;
      assert TimedOut(t) in s.log;
    }
    SubsetSize(Image(tags, holders), GivenUp(s.log));
  }

  lemma SubsetSize(a: set<int>, b: set<int>)
    requires a <= b
    ensures |a| <= |b|
  {
    assert b == a + (b - a);
  }

  /**
   In every run: a request finds no tag exactly when the tasks on the stack's list, the tags that
   timed-out tasks have abandoned, and the tag of a reply just handled are maxSRB together. So a stack
   that keeps to maxSRB tasks, counting those it gave up on, is turned away only in the moment between
   the completion of a task and the return of its tag.
   */
  lemma RequestOverrun(p: Pool, es: seq<Event>, task: nat, scsiTarget: int, large: bool)
    requires Usable(p) && Enabled(p, Run(p, es), Submit(task, scsiTarget, large))
    ensures var s, s' := Run(p, es), Run(p, es + [Submit(task, scsiTarget, large)]);
            && s'.log == s.log + (if |s.stack| + |Abandoned(p, s)| + |s.returning| == p.maxSRB
                                  then [Rejected(task)] else [])
            && (s'.log == s.log <==> task in s'.stack)
            && |Abandoned(p, s)| <= |GivenUp(s.log)| && |s.returning| <= 1
            && (|s.stack| + |GivenUp(s.log)| < p.maxSRB && s.returning == [] ==> task in s'.stack)
  {
    Reachable(p, es);
    RunNext(p, es, Submit(task, scsiTarget, large));
    var s := Run(p, es);
    TagsShared(p, s);
    AbandonedSize(p, s);
    NotYetListed(p, s, Flight(p, s), task);
  }

  lemma NotYetListed(p: Pool, s: State, flight: multiset<int>, task: nat)
    requires AllOutstanding(p, s, flight) && task !in s.startedAs
    ensures task !in s.stack
  {
    assert task in s.stack ==> Outstanding(p, s, flight, task);
  }

  lemma RunNext(p: Pool, es: seq<Event>, e: Event)
    requires p.sizeSRB > 0 && 0 <= p.maxSRB <= MAX_OUTSTANDING_SRB
    ensures Run(p, es + [e]) == Step(p, Run(p, es), e)
  {
    assert (es + [e])[..|es + [e]| - 1] == es;
  }

  // ---------------------------------------------------------------------------------------------
  // "Should never happen"

  /** Tasks 0 to n-1 submitted and posted; with giveUp, each of them then times out. */
  function Submissions(n: nat, giveUp: bool): seq<Event> {
    if n == 0 then []
    else
      var k := n - 1;
      var posted := Submissions(k, giveUp) + [Submit(k, 0, false)] + [Identify(k)] + [Post(k)];
      if giveUp then posted + [Timeout(k)] else posted
  }

  ghost predicate Submitted(p: Pool, s: State, n: nat, giveUp: bool)
    requires n <= p.maxSRB <= MAX_OUTSTANDING_SRB
  {
    && s.free == FirstTags(p.maxSRB)[n..] && s.building == map[] && s.returning == [] && s.replies == []
    && |s.inAdapter| == n
    && (forall t <- s.startedAs :: t < n) && (forall t <- s.stack :: t < n)
    && (forall e <- s.log :: e.Posted? || (giveUp && e.TimedOut?))
    && |s.stack| == if giveUp then 0 else n
  }

  /** Start, identification and post of the oldest free tag, nothing else being built. */
  function SubmitAndPost(p: Pool, s: State, task: nat, tag: word): State
    requires s.free != []
  {
    PostSrb(p, SetIdentifier(p, Start(s, tag, task, 0, false), tag), tag)
  }

  lemma SubmitAndPostIs(p: Pool, s: State, task: nat, tag: word)
    requires s.free != [] && s.building == map[]
    ensures var t := SubmitAndPost(p, s, task, tag);
            t == s.(free := s.free[1..], frames := t.frames, stack := t.stack, inAdapter := t.inAdapter,
                    startedAs := s.startedAs[task := tag], log := s.log + [Posted(task, tag)])
            && t.stack == s.stack[task := Task(0, p.SrbPtr(tag))]
            && |t.inAdapter| == |s.inAdapter| + 1
  {
    var b := Build(task, false, true);
    assert s.building[tag := Build(task, false, false)][tag := b] - {tag} == map[];
  }

  lemma OneSubmission(p: Pool, s: State, n: nat, giveUp: bool)
    requires Usable(p) && n < p.maxSRB && Submitted(p, s, n, giveUp)
    ensures var t := SubmitAndPost(p, s, n, n);
            && Submitted(p, if giveUp then TimeOut(t, n) else t, n + 1, giveUp)
            && Step(p, Step(p, Step(p, s, Submit(n, 0, false)), Identify(n)), Post(n)) == t
            && Step(p, t, Timeout(n)) == TimeOut(t, n)
  {
    assert s.free[0] == n;
    SubmitAndPostIs(p, s, n, n);
    SubmissionSteps(p, s, n);
    if giveUp {
      SubmittedAndGivenUp(p, s, n, SubmitAndPost(p, s, n, n));
    } else {
      SubmittedOne(p, s, n, SubmitAndPost(p, s, n, n));
    }
  }

  /** The state after one more task is posted. */
  ghost predicate OneMore(p: Pool, s: State, n: nat, t: State)
    requires n < TWO_TO_THE_32
  {
    && s.free != []
    && t == s.(free := s.free[1..], frames := t.frames, stack := t.stack, inAdapter := t.inAdapter,
               startedAs := s.startedAs[n := n], log := s.log + [Posted(n, n)])
    && t.stack == s.stack[n := Task(0, p.SrbPtr(n))]
    && |t.inAdapter| == |s.inAdapter| + 1
  }

  lemma SubmittedOne(p: Pool, s: State, n: nat, t: State)
    requires n < p.maxSRB <= MAX_OUTSTANDING_SRB && Submitted(p, s, n, false) && OneMore(p, s, n, t)
    ensures Submitted(p, t, n + 1, false)
  {
    assert s.free[1..] == FirstTags(p.maxSRB)[n + 1..];
    assert n !in s.stack && |t.stack| == |s.stack| + 1;
  }

  lemma SubmittedAndGivenUp(p: Pool, s: State, n: nat, t: State)
    requires n < p.maxSRB <= MAX_OUTSTANDING_SRB && Submitted(p, s, n, true) && OneMore(p, s, n, t)
    ensures Submitted(p, TimeOut(t, n), n + 1, true)
  {
    assert s.free[1..] == FirstTags(p.maxSRB)[n + 1..];
    assert n !in s.stack && TimeOut(t, n).stack == s.stack;
  }

  lemma SubmissionSteps(p: Pool, s: State, n: word)
    requires p.sizeSRB > 0 && s.free != [] && s.free[0] == n && Enabled(p, s, Submit(n, 0, false))
    ensures Step(p, Step(p, Step(p, s, Submit(n, 0, false)), Identify(n)), Post(n)) == SubmitAndPost(p, s, n, n)
  {
  }

  lemma {:induction false} SubmissionsAre(p: Pool, n: nat, giveUp: bool)
    requires Usable(p) && n <= p.maxSRB
    ensures Submitted(p, Run(p, Submissions(n, giveUp)), n, giveUp)
  {
    if n == 0 {
      assert FirstTags(p.maxSRB)[0..] == FirstTags(p.maxSRB);
    } else {
      var k := n - 1;
      SubmissionsAre(p, k, giveUp);
      OneSubmission(p, Run(p, Submissions(k, giveUp)), k, giveUp);
      RunNext(p, Submissions(k, giveUp), Submit(k, 0, false));
      RunNext(p, Submissions(k, giveUp) + [Submit(k, 0, false)], Identify(k));
      RunNext(p, Submissions(k, giveUp) + [Submit(k, 0, false)] + [Identify(k)], Post(k));
      RunNext(p, Submissions(k, giveUp) + [Submit(k, 0, false)] + [Identify(k)] + [Post(k)], Timeout(k));
    }
  }

  /**
   The request overrun that ProcessParallelTask calls impossible. Whatever maxSRB is, after that many tasks
   have timed out in the adapter the stack has nothing outstanding, and still there is no tag.
   */
  lemma OverrunAfterTimeouts(p: Pool)
    requires Usable(p)
    ensures var es := Submissions(p.maxSRB, true);
            var s, s' := Run(p, es), Run(p, es + [Submit(p.maxSRB, 0, false)]);
            s.stack == map[] && s.returning == [] && s'.log == s.log + [Rejected(p.maxSRB)]
  {
    var es := Submissions(p.maxSRB, true);
    SubmissionsAre(p, p.maxSRB, true);
    RunNext(p, es, Submit(p.maxSRB, 0, false));
    var s := Run(p, es);
    assert Rejected(p.maxSRB) !in s.log && p.maxSRB !in s.startedAs;
  }

  /**
   Nor does it take a timeout: a request that comes in after the completion of a task and before the return
   of its tag finds none, although the stack has only maxSRB-1 tasks outstanding.
   */
  lemma OverrunAfterCompletion(p: Pool)
    requires Usable(p)
    ensures var es := Submissions(p.maxSRB, false) + [AdapterReplies(0, 0)] + [HandleReply];
            var s, s' := Run(p, es), Run(p, es + [Submit(p.maxSRB, 0, false)]);
            && |s.stack| == p.maxSRB - 1 && GivenUp(s.log) == {}
            && s'.log == s.log + [Rejected(p.maxSRB)]
  {
    var es := Submissions(p.maxSRB, false);
    SubmissionsAre(p, p.maxSRB, false);
    RunNext(p, es, AdapterReplies(0, 0));
    var es1 := es + [AdapterReplies(0, 0)];
    assert Run(p, es1) == Reply(Run(p, es), 0, 0);
    FirstCompletion(p, es1);
    var s := Run(p, es1 + [HandleReply]);
    RunNext(p, es1 + [HandleReply], Submit(p.maxSRB, 0, false));
    assert Rejected(p.maxSRB) !in s.log && p.maxSRB !in s.startedAs;
  }

  lemma FirstCompletion(p: Pool, es: seq<Event>)
    requires Usable(p) && Enabled(p, Run(p, es), HandleReply)
    requires forall e <- Run(p, es).log :: e.Posted?
    ensures var s, s' := Run(p, es), Run(p, es + [HandleReply]);
            && |s'.stack| == |s.stack| - 1 && s'.free == s.free && s'.startedAs == s.startedAs
            && (forall e <- s'.log :: e.Posted? || e.Completed?)
  {
    RunNext(p, es, HandleReply);
    Reachable(p, es);
    NothingGivenUp(p, Run(p, es));
  }

  lemma NothingGivenUp(p: Pool, s: State)
    requires p.Valid() && Inv(p, s) && Enabled(p, s, HandleReply) && forall e <- s.log :: e.Posted?
    ensures |Handle(p, s).stack| == |s.stack| - 1
    ensures Handle(p, s).free == s.free && Handle(p, s).startedAs == s.startedAs
    ensures forall e <- Handle(p, s).log :: e.Posted? || e.Completed?
  {
    PosterFound(p, s);
    HandleShape(p, s);
    var t := LastPost(s.log, p.ReplyTag(s.replies[0])).value;
    assert TimedOut(t) !in s.log;
    assert Handle(p, s).stack == s.stack - {t};
  }
}
