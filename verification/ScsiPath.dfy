/** Submission and completion of SCSI tasks, ArcMSRSCSI.cpp, on the tag ring and the frames of the pool. */
module ScsiPath {
  import opened Bytes
  import opened SrbAddress
  import opened SrbTags
  import opened SrbProtocol
  import opened Targets
  import opened ScatterGather

  datatype Request = Request(
    id: nat,
    scsiTarget: int,
    write: bool,
    cdb: seq<byte>,
    cdbLength: int,
    segments: seq<Segment>)

  /** SCSI status bytes, and two conditions that have none. */
  datatype TaskStatus = ScsiStatus(value: int) | DeviceNotPresent | DeliveryFailure

  datatype ServiceResponse = TaskComplete | DeliveryOrTargetFailure

  /** What the stack is told about a task. */
  datatype Outcome = Outcome(
    status: TaskStatus,
    response: ServiceResponse,
    autosense: Option<seq<byte>>,
    realized: Option<int>)   // the transfer count, if it is set at all

  datatype Completion = Completion(task: nat, outcome: Outcome)

  const GOOD := ScsiStatus(0)
  const DEV_CHECK_CONDITION := 0x02
  const DEV_SELECT_TIMEOUT := 0xF0
  const DEV_ABORTED := 0xF1
  const DEV_INIT_FAIL := 0xF2

  /** What outcomes are made of: the reports in the SRBs, and the transfer length the stack asked for per task. */
  datatype Records = Records(reports: seq<Report>, requested: nat -> int)

  /** The driver's part of a protocol state and what it shares with adapter and SCSI stack. */
  datatype View = View(
    free: seq<word>,
    frames: seq<Frame>,
    records: Records,
    stack: map<nat, Task>,
    replies: seq<word>,
    completed: seq<Completion>)

  /** The outcome depends on the SRB only if the reply is flagged as an error. */
  function OutcomeOf(response: word, report: Report, requested: int): Outcome {
    var status := report.deviceStatus;
    if !HasError(response) then Outcome(GOOD, TaskComplete, None, Some(requested))
    else if status == DEV_SELECT_TIMEOUT then Outcome(DeviceNotPresent, DeliveryOrTargetFailure, None, None)
    else if status in {DEV_ABORTED, DEV_INIT_FAIL} then Outcome(DeliveryFailure, DeliveryOrTargetFailure, None, None)
    else Outcome(ScsiStatus(status), TaskComplete,
                 if status == DEV_CHECK_CONDITION then Some(report.senseData) else None, None)
  }

  /**
   What the stack learns from the reply to a posted SRB, in terms of the adapter's error flag and report: the
   whole transfer is confirmed exactly without an error; sense data comes exactly with a check condition;
   the task counts as delivered unless the adapter reports one of its three failures, and then its SCSI
   status is the device's. An error flagged without a device status still reads as good.
   */
  lemma OutcomeMeans(post: word, flags: int, report: Report, requested: int)
    requires 0 <= flags < 32
    ensures var o, error := OutcomeOf(ReplyWord(post, flags), report, requested), flags / 2 % 2 == 1;
            var status := report.deviceStatus;
            && (o.realized.Some? <==> !error) && (o.realized.Some? ==> o.realized.value == requested)
            && (o.autosense.Some? <==> error && status == 0x02)
            && (o.autosense.Some? ==> o.autosense.value == report.senseData)
            && (o.response == TaskComplete <==> o.status.ScsiStatus?)
            && (o.response == DeliveryOrTargetFailure <==>
                  error && status in {0xF0, 0xF1, 0xF2})
            && (o.status == DeviceNotPresent <==> error && status == 0xF0)
            && (error && o.status.ScsiStatus? ==> o.status.value == status)
            && (o.status == ScsiStatus(0) <==> !error || status == 0)
  {
    ErrorFlagCarries(post, flags);
  }

  /** Of two flagged replies the stack can tell the device statuses apart, but for the two device failures. */
  lemma OutcomesTellApart(response: word, one: Report, other: Report, requested: int)
    requires HasError(response)
    ensures OutcomeOf(response, one, requested).status == OutcomeOf(response, other, requested).status <==>
            || one.deviceStatus == other.deviceStatus
            || {one.deviceStatus, other.deviceStatus} == {0xF1, 0xF2}
  {
    if one.deviceStatus in {DEV_ABORTED, DEV_INIT_FAIL} && one.deviceStatus != other.deviceStatus {
      assert other.deviceStatus in {DEV_ABORTED, DEV_INIT_FAIL} ==>
          {one.deviceStatus, other.deviceStatus} == {DEV_ABORTED, DEV_INIT_FAIL};
    }
    assert one.deviceStatus in {one.deviceStatus, other.deviceStatus};
    assert other.deviceStatus in {one.deviceStatus, other.deviceStatus};
  }

  /** No two outstanding tasks of one target carry the same identifier. */
  predicate UniqueIdentifiers(stack: map<nat, Task>) {
    forall t <- stack, u <- stack | stack[t] == stack[u] && stack[t].identifier.Some? :: t == u
  }

  /** A task accepted for the oldest free tag. */
  function SubmitOne(p: Pool, v: View, r: Request): View
    requires v.free != [] && p.ValidTag(v.free[0]) && |v.frames| == p.maxSRB
  {
    var tag := v.free[0];
    v.(free := v.free[1..],
       frames := v.frames[tag := Frame(r.scsiTarget / MAX_TARGETLUN, r.scsiTarget % MAX_TARGETLUN)],
       stack := v.stack[r.id := Task(r.scsiTarget, p.SrbPtr(tag))])
  }

  /** One round of the reply loop, tag returned. */
  ghost function HandleOne(p: Pool, v: View): View
    requires p.Valid() && v.replies != [] && |v.frames| == |v.records.reports| == p.maxSRB
  {
    var tag, rest := p.ReplyTag(v.replies[0]), v.(replies := v.replies[1..]);
    if !p.ValidTag(tag) then rest
    else
      var frame := v.frames[tag];
      var found := FindTask(v.stack, ScsiTarget(frame.target, frame.lun), p.SrbPtr(tag).value);
      var freed := rest.(free := AfterReturn(v.free, p.maxSRB, tag));
      if found.None? then freed
      else
        var outcome := OutcomeOf(v.replies[0], v.records.reports[tag], v.records.requested(found.value));
        freed.(stack := v.stack - {found.value}, completed := v.completed + [Completion(found.value, outcome)])
  }

  /** The loop stops at the end of the queue or at the word that means it. */
  ghost function Drain(p: Pool, v: View): View
    requires p.Valid() && |v.frames| == |v.records.reports| == p.maxSRB
    decreases |v.replies|
  {
    if v.replies == [] then v
    else if v.replies[0] == QUEUE_EMPTY then v.(replies := v.replies[1..])
    else Drain(p, HandleOne(p, v))
  }

  /** What is left of the loop once it has read `response` from the queue port. */
  ghost function Resume(p: Pool, v: View, response: word): View
    requires p.Valid() && |v.frames| == |v.records.reports| == p.maxSRB
  {
    if response == QUEUE_EMPTY then v else Drain(p, HandleOne(p, v.(replies := [response] + v.replies)))
  }

  lemma DrainReads(p: Pool, v: View)
    requires p.Valid() && |v.frames| == |v.records.reports| == p.maxSRB
    ensures Drain(p, v) == if v.replies == [] then v
                           else Resume(p, v.(replies := v.replies[1..]), v.replies[0])
  {
    if v.replies != [] {
      assert v.(replies := [v.replies[0]] + v.replies[1..]) == v;
    }
  }

  /** A reply that names no frame changes nothing and stops nothing: the ones behind it are handled as ever. */
  lemma BadReplyIsSkipped(p: Pool, v: View, response: word)
    requires p.Valid() && |v.frames| == |v.records.reports| == p.maxSRB
    requires response != 0xFFFF_FFFF && !p.ValidTag(p.ReplyTag(response))
    ensures Drain(p, v.(replies := [response] + v.replies)) == Drain(p, v)
  {
    assert ([response] + v.replies)[1..] == v.replies;
    assert v.(replies := v.replies) == v;
  }

  /** v shows what the driver has of protocol state s. */
  ghost predicate Shows(p: Pool, v: View, s: State) {
    && |v.frames| == |v.records.reports| == p.maxSRB
    && v.free == s.free && v.stack == s.stack && v.replies == s.replies
    && (forall tag <- s.frames :: p.ValidTag(tag) ==> v.frames[tag] == s.frames[tag])
  }

  /** What a round tells the stack: the outcome of the task last posted under the tag, if it is still listed. */
  function Answer(p: Pool, s: State, records: Records, reply: word): seq<Completion>
    requires p.sizeSRB > 0 && |records.reports| == p.maxSRB
  {
    var tag := p.ReplyTag(reply);
    var poster := LastPost(s.log, tag);
    if p.ValidTag(tag) && poster.Some? && poster.value in s.stack
    then [Completion(poster.value, OutcomeOf(reply, records.reports[tag], records.requested(poster.value)))]
    else []
  }

  /** The two events of a round. */
  ghost function Round(p: Pool, s: State): State
    requires p.sizeSRB > 0
  {
    Step(p, Step(p, s, HandleReply), ReturnTag)
  }

  /** A round of the loop is the protocol's handling of the reply followed by the return of its tag. */
  lemma RoundIsProtocol(p: Pool, v: View, s: State)
    requires Usable(p) && Inv(p, s) && Shows(p, v, s) && Enabled(p, s, HandleReply)
    ensures Handle(p, s).returning != [] && Shows(p, HandleOne(p, v), Return(p, Handle(p, s)))
    ensures HandleOne(p, v).completed == v.completed + Answer(p, s, v.records, s.replies[0])
    ensures HandleOne(p, v).records == v.records && HandleOne(p, v).frames == v.frames
  {
    PosterFound(p, s);
    var tag := p.ReplyTag(s.replies[0]);
    assert tag in s.frames && v.frames[tag] == s.frames[tag];
    assert FindTask(v.stack, ScsiTarget(v.frames[tag].target, v.frames[tag].lun), p.SrbPtr(tag).value)
        == TaskOfReply(p, s, s.replies[0]);
    assert Handle(p, s).returning == [tag] && Handle(p, s).free == s.free;
    assert Return(p, Handle(p, s)).free == AfterReturn(s.free, p.maxSRB, tag);
  }

  // ---------------------------------------------------------------------------------------------
  // The whole loop

  /** Replies handled and their tags returned until the queue is empty. */
  ghost function HandleAll(p: Pool, s: State): State
    requires p.sizeSRB > 0
    decreases |s.replies|
  {
    if Enabled(p, s, HandleReply) then HandleAll(p, Round(p, s)) else s
  }

  /** What the stack is told, reply by reply, judged by the state in which the loop starts. */
  function Answers(p: Pool, s: State, records: Records, replies: seq<word>): seq<Completion>
    requires p.sizeSRB > 0 && |records.reports| == p.maxSRB
  {
    if replies == [] then []
    else Answer(p, s, records, replies[0]) + Answers(p, s, records, replies[1..])
  }

  function TasksOf(answers: seq<Completion>): set<nat> {
    set c | c in answers :: c.task
  }

  lemma RoundIs(p: Pool, s: State)
    requires p.sizeSRB > 0 && Enabled(p, s, HandleReply) && p.ValidTag(p.ReplyTag(s.replies[0]))
    ensures Handle(p, s).returning == [p.ReplyTag(s.replies[0])] && Handle(p, s).free == s.free
    ensures Round(p, s) == Return(p, Handle(p, s))
  {
    HandleShape(p, s);
  }

  /** A round on protocol states. */
  lemma RoundKeeps(p: Pool, s: State)
    requires Usable(p) && Inv(p, s) && Enabled(p, s, HandleReply)
    ensures var tag := p.ReplyTag(s.replies[0]);
            && p.ValidTag(tag) && Handle(p, s).returning == [tag]
            && Round(p, s) == Return(p, Handle(p, s)) && Round(p, s).free == s.free + [tag]
            && Inv(p, Round(p, s))
  {
    HeadReply(p, s);
    RoundIs(p, s);
    HandleKeeps(p, s);
    ReturnKeeps(p, Handle(p, s));
  }

  /** A round on what the driver has of them, spelled out. */
  lemma RoundOfView(p: Pool, v: View, s: State)
    requires Usable(p) && Inv(p, s) && Shows(p, v, s) && Enabled(p, s, HandleReply)
    ensures var tag := p.ReplyTag(s.replies[0]);
            && p.ValidTag(tag)
            && HandleOne(p, v) == Answered(p, v, [tag], Answer(p, s, v.records, s.replies[0]), 1)
  {
    RoundKeeps(p, s);
    RoundIsProtocol(p, v, s);
    PosterGone(p, s, v.records);
    ShownRound(p, v, HandleOne(p, v), s, Handle(p, s), p.ReplyTag(s.replies[0]));
  }

  lemma RoundShown(p: Pool, v: View, s: State)
    requires Usable(p) && Inv(p, s) && Shows(p, v, s) && Enabled(p, s, HandleReply)
    ensures Shows(p, HandleOne(p, v), Round(p, s))
  {
    RoundKeeps(p, s);
    RoundIsProtocol(p, v, s);
  }

  lemma PosterGone(p: Pool, s: State, records: Records)
    requires Usable(p) && Inv(p, s) && Enabled(p, s, HandleReply) && |records.reports| == p.maxSRB
    ensures Handle(p, s).stack == s.stack - TasksOf(Answer(p, s, records, s.replies[0]))
  {
    PosterFound(p, s);
    PosterLeaves(p, s, records, p.ReplyTag(s.replies[0]));
  }

  lemma PosterLeaves(p: Pool, s: State, records: Records, tag: int)
    requires p.Valid() && s.replies != [] && |records.reports| == p.maxSRB
    requires tag == p.ReplyTag(s.replies[0]) && p.ValidTag(tag) && LastPost(s.log, tag).Some?
    requires var t := LastPost(s.log, tag).value;
             TaskOfReply(p, s, s.replies[0]) == if t in s.stack then Some(t) else None
    ensures Handle(p, s).stack == s.stack - TasksOf(Answer(p, s, records, s.replies[0]))
  {
    var t := LastPost(s.log, tag).value;
    if t in s.stack {
      assert TasksOf(Answer(p, s, records, s.replies[0])) == {t};
    } else {
      assert TasksOf([]) == {};
      assert s.stack - {} == s.stack;
    }
  }

  lemma ShownRound(p: Pool, v: View, v1: View, s: State, h: State, tag: word)
    requires p.sizeSRB > 0 && |v.records.reports| == p.maxSRB && s.replies != [] && v.replies == s.replies
    requires h.returning != [] && h.replies == s.replies[1..]
    requires Shows(p, v1, Return(p, h)) && Return(p, h).free == s.free + [tag]
    requires v.free == s.free && v.stack == s.stack && v1.frames == v.frames && v1.records == v.records
    requires v1.completed == v.completed + Answer(p, s, v.records, s.replies[0])
    requires h.stack == s.stack - TasksOf(Answer(p, s, v.records, s.replies[0]))
    ensures v1 == Answered(p, v, [tag], Answer(p, s, v.records, s.replies[0]), 1)
  {
  }

  /** The effect of n replies with these tags and answers. */
  function Answered(p: Pool, v: View, tags: seq<word>, answers: seq<Completion>, n: nat): View
    requires n <= |v.replies|
  {
    v.(free := v.free + tags, stack := v.stack - TasksOf(answers), replies := v.replies[n..],
       completed := v.completed + answers)
  }

  ghost predicate SameAnswers(p: Pool, s: State, t: State, records: Records, replies: seq<word>)
    requires p.sizeSRB > 0 && |records.reports| == p.maxSRB
  {
    forall w <- replies :: Answer(p, t, records, w) == Answer(p, s, records, w)
  }

  /** A round leaves the tasks of the other replies alone. */
  lemma LaterAnswers(p: Pool, s: State, records: Records)
    requires Usable(p) && Inv(p, s) && Enabled(p, s, HandleReply) && |records.reports| == p.maxSRB
    ensures SameAnswers(p, s, Round(p, s), records, s.replies[1..])
  {
    RoundKeeps(p, s);
    PosterFound(p, s);
    forall w <- s.replies[1..] ensures Answer(p, Round(p, s), records, w) == Answer(p, s, records, w) {
      OtherTag(p, s, w);
      LaterAnswer(p, s, Round(p, s), Flight(p, s), records, p.ReplyTag(s.replies[0]), w);
    }
  }

  lemma LaterAnswer(p: Pool, s: State, t: State, flight: multiset<int>, records: Records, tag: int, w: word)
    requires p.sizeSRB > 0 && |records.reports| == p.maxSRB && Holders(p, s, flight)
    requires tag in flight && p.ReplyTag(w) in flight && p.ReplyTag(w) != tag
    requires LastPost(s.log, tag).Some?
    requires var task := LastPost(s.log, tag).value;
             if task in s.stack then t.stack == s.stack - {task} && t.log == s.log + [Completed(task, tag)]
             else t.stack == s.stack && t.log == s.log
    ensures Answer(p, t, records, w) == Answer(p, s, records, w)
  {
    var task := LastPost(s.log, tag).value;
    AppendLog(s.log, Completed(task, tag));
    assert HeldBy(s, tag, task) && HeldBy(s, p.ReplyTag(w), LastPost(s.log, p.ReplyTag(w)).value);
  }

  lemma OtherTag(p: Pool, s: State, w: word)
    requires p.sizeSRB > 0 && Partition(p, s, Flight(p, s)) && s.replies != [] && w in s.replies[1..]
    ensures p.ReplyTag(w) in Flight(p, s) && p.ReplyTag(w) != p.ReplyTag(s.replies[0])
  {
    var rest := s.replies[1..];
    HeadReply(p, s);
    TagsOfHead(p, s.replies);
    var i :| 0 <= i < |rest| && rest[i] == w;
    assert TagsOf(p, rest)[i] == p.ReplyTag(w);
    assert p.ReplyTag(w) in multiset(TagsOf(p, rest));
  }

  lemma {:induction false} AnswersSame(p: Pool, s: State, t: State, records: Records, replies: seq<word>)
    requires p.sizeSRB > 0 && |records.reports| == p.maxSRB && SameAnswers(p, s, t, records, replies)
    ensures Answers(p, t, records, replies) == Answers(p, s, records, replies)
  {
    if replies != [] {
      assert replies[0] in replies;
      assert forall w <- replies[1..] :: w in replies;
      AnswersSame(p, s, t, records, replies[1..]);
    }
  }

  predicate AllValid(p: Pool, tags: seq<int>) {
    forall i | 0 <= i < |tags| :: p.ValidTag(tags[i])
  }

  /** Every queued reply is handled: its tag is free again, its task told of and gone from the stack's list. */
  ghost predicate AllAnswered(p: Pool, v: View, s: State, after: View)
    requires p.sizeSRB > 0 && |v.records.reports| == p.maxSRB <= MAX_OUTSTANDING_SRB
  {
    && AllValid(p, TagsOf(p, s.replies)) && v.replies == s.replies
    && after == Answered(p, v, TagsOf(p, s.replies), Answers(p, s, v.records, s.replies), |v.replies|)
  }

  lemma OneMoreAnswered(p: Pool, v: View, s: State, v1: View, s1: State, after: View)
    requires p.sizeSRB > 0 && |v.records.reports| == p.maxSRB <= MAX_OUTSTANDING_SRB && v.replies == s.replies != []
    requires p.ValidTag(p.ReplyTag(s.replies[0]))
    requires v1 == Answered(p, v, [p.ReplyTag(s.replies[0])], Answer(p, s, v.records, s.replies[0]), 1)
    requires s1.replies == s.replies[1..] && SameAnswers(p, s, s1, v.records, s1.replies)
    requires AllAnswered(p, v1, s1, after)
    ensures AllAnswered(p, v, s, after)
  {
    var tags, rest := TagsOf(p, s.replies), TagsOf(p, s1.replies);
    var a, b := Answer(p, s, v.records, s.replies[0]), Answers(p, s, v.records, s1.replies);
    assert tags == [tags[0]] + rest;
    AnswersSame(p, s, s1, v.records, s1.replies);
    assert AllValid(p, tags);
    assert (v.free + [tags[0]]) + rest == v.free + tags;
    assert (v.completed + a) + b == v.completed + (a + b);
    assert TasksOf(a + b) == TasksOf(a) + TasksOf(b);
    assert v.stack - TasksOf(a) - TasksOf(b) == v.stack - TasksOf(a + b);
  }

  lemma NoneAnswered(p: Pool, v: View, s: State)
    requires p.sizeSRB > 0 && |v.records.reports| == p.maxSRB <= MAX_OUTSTANDING_SRB && v.replies == s.replies == []
    ensures AllAnswered(p, v, s, v)
  {
    assert TagsOf(p, s.replies) == [];
    assert Answered(p, v, [], [], 0) == v;
  }

  /**
   One interrupt answers every queued reply, in order, each by the task that was last posted under its
   tag; the replies that follow are not affected by the ones before. No reply is taken for the end of the
   queue, and the outcome is the protocol's.
   */
  lemma {:induction false} DrainIsProtocol(p: Pool, v: View, s: State)
    requires Usable(p) && Inv(p, s) && Shows(p, v, s) && s.returning == []
    ensures AllAnswered(p, v, s, Drain(p, v))
    ensures Shows(p, Drain(p, v), HandleAll(p, s)) && HandleAll(p, s).replies == []
    decreases |s.replies|
  {
    if s.replies == [] {
      NoneAnswered(p, v, s);
    } else {
      var v1, s1 := HandleOne(p, v), Round(p, s);
      RoundKeeps(p, s);
      RoundOfView(p, v, s);
      RoundShown(p, v, s);
      LaterAnswers(p, s, v.records);
      DrainIsProtocol(p, v1, s1);
      OneMoreAnswered(p, v, s, v1, s1, Drain(p, v1));
      assert s.replies[0] in s.replies;
      assert Drain(p, v) == Drain(p, v1) && HandleAll(p, s) == HandleAll(p, s1);
    }
  }

  /**
   An accepted submission is the protocol's start, identification and post under that tag, for a task
   the stack has listed without an identifier.
   */
  lemma SubmissionIsProtocol(p: Pool, v: View, s: State, r: Request)
    requires Usable(p) && Inv(p, s) && Shows(p, v, s) && s.free != []
    requires r.scsiTarget >= 0 && r.id !in s.startedAs
    ensures var tag, large := s.free[0], NeedsLargeFrame(|r.segments|);
            var s1 := Start(s, tag, r.id, r.scsiTarget, large);
            && p.ValidTag(tag)
            && var s3 := PostSrb(p, SetIdentifier(p, s1, tag), tag);
            && Shows(p, SubmitOne(p, v.(stack := s1.stack), r), s3)
            && s3.inAdapter == s.inAdapter + [p.PostWord(tag, large)]
  {
    StartPartition(p, s, Flight(p, s), r.id, r.scsiTarget, NeedsLargeFrame(|r.segments|));
  }

  /** The stack has just listed a task that the protocol, in state s, has not heard of. */
  ghost predicate NewlyListed(p: Pool, v: View, s: State, r: Request) {
    && r.id !in s.startedAs && Rejected(r.id) !in s.log
    && 0 <= r.scsiTarget < MAX_TARGETID * MAX_TARGETLUN
    && Shows(p, v.(stack := s.stack), s) && v.stack == s.stack[r.id := Task(r.scsiTarget, None)]
  }

  /** Its submission, and if there is a tag its identification and post. */
  ghost function AfterSubmission(p: Pool, s: State, r: Request): State
    requires p.sizeSRB > 0
  {
    var s1 := Step(p, s, Submit(r.id, r.scsiTarget, NeedsLargeFrame(|r.segments|)));
    if s.free == [] then s1 else Step(p, Step(p, s1, Identify(s.free[0])), Post(s.free[0]))
  }

  /** What a call of ProcessParallelTask leaves: if it is rejected the stack takes the task off its list again. */
  ghost predicate ShowsSubmission(p: Pool, v: View, s: State, r: Request, after: View, posted: seq<word>)
    requires p.sizeSRB > 0
  {
    var s' := AfterSubmission(p, s, r);
    && s'.inAdapter == s.inAdapter + posted
    && if s.free == []
       then s'.log == s.log + [Rejected(r.id)] && after == v && Shows(p, v.(stack := s.stack), s')
       else |posted| == 1 && s'.log == s.log + [Posted(r.id, s.free[0])] && Shows(p, after, s')
  }

  /** Whatever state of the protocol the driver is called in, this is the submission of the protocol. */
  lemma CallIsSubmission(p: Pool, v: View, r: Request, after: View, posted: seq<word>)
    requires p.Valid() && |v.frames| == p.maxSRB
    requires if v.free == [] then after == v && posted == []
             else p.ValidTag(v.free[0]) && after == SubmitOne(p, v, r) &&
                  posted == [p.PostWord(v.free[0], NeedsLargeFrame(|r.segments|))]
    ensures forall s | Usable(p) && Inv(p, s) && NewlyListed(p, v, s, r) :: ShowsSubmission(p, v, s, r, after, posted)
  {
    forall s | Usable(p) && Inv(p, s) && NewlyListed(p, v, s, r) ensures ShowsSubmission(p, v, s, r, after, posted) {
      if s.free != [] {
        AcceptedIsProtocol(p, v, s, r);
      }
    }
  }

  lemma AcceptedIsProtocol(p: Pool, v: View, s: State, r: Request)
    requires Usable(p) && Inv(p, s) && NewlyListed(p, v, s, r) && s.free != []
    ensures p.ValidTag(s.free[0])
    ensures ShowsSubmission(p, v, s, r, SubmitOne(p, v, r), [p.PostWord(s.free[0], NeedsLargeFrame(|r.segments|))])
  {
    var tag, large := s.free[0], NeedsLargeFrame(|r.segments|);
    SubmissionIsProtocol(p, v.(stack := s.stack), s, r);
    assert v == v.(stack := s.stack).(stack := v.stack);
    SubmissionSteps(p, s, r.id, r.scsiTarget, large);
  }

  lemma SubmissionSteps(p: Pool, s: State, task: nat, scsiTarget: int, large: bool)
    requires p.sizeSRB > 0 && s.free != [] && Enabled(p, s, Submit(task, scsiTarget, large))
    ensures var tag := s.free[0];
            Step(p, Step(p, Step(p, s, Submit(task, scsiTarget, large)), Identify(tag)), Post(tag)) ==
            PostSrb(p, SetIdentifier(p, Start(s, tag, task, scsiTarget, large), tag), tag)
  {
  }

  /** In every state of the protocol the driver may be called: no listed task has the identifier of a free frame. */
  lemma SubmissionIsSound(p: Pool, v: View, s: State, r: Request)
    requires Usable(p) && Inv(p, s) && NewlyListed(p, v, s, r)
    ensures UniqueIdentifiers(v.stack)
    ensures forall t <- v.stack, tag <- v.free :: v.stack[t].identifier != p.SrbPtr(tag)
  {
    StackIsSound(p, s);
    assert forall tag <- v.free :: p.ValidTag(tag);
  }

  /**
   What the driver relies on when it looks up or starts a task holds in every state of the protocol:
   identifiers tell tasks apart, and the frame of a free tag identifies no task.
   */
  lemma StackIsSound(p: Pool, s: State)
    requires Usable(p) && Inv(p, s)
    ensures UniqueIdentifiers(s.stack)
    ensures forall t <- s.stack, tag <- s.free :: p.ValidTag(tag) && s.stack[t].identifier != p.SrbPtr(tag)
  {
    var flight := Flight(p, s);
    forall t <- s.stack, u <- s.stack | s.stack[t] == s.stack[u] && s.stack[t].identifier.Some? ensures t == u {
      assert Outstanding(p, s, flight, t) && Outstanding(p, s, flight, u);
      TagsDistinct(p, s.startedAs[t], s.startedAs[u], false, false);
    }
    forall t <- s.stack, tag <- s.free ensures p.ValidTag(tag) && s.stack[t].identifier != p.SrbPtr(tag) {
      OnePlace(p, s, flight, tag);
      assert Outstanding(p, s, flight, t);
      TagsDistinct(p, s.startedAs[t], tag, false, false);
    }
  }

  /** The frames of the pool, all apart. */
  method NewFrames(n: nat) returns (frames: seq<Srb>)
    ensures |frames| == n
    ensures forall k | 0 <= k < n :: frames[k].Valid() && fresh(frames[k]) && fresh(frames[k].sg)
    ensures forall j, k | 0 <= j < k < n :: frames[j] != frames[k] && frames[j].sg != frames[k].sg
  {
    frames := [];
    for i := 0 to n
      invariant |frames| == i
      invariant forall k | 0 <= k < i :: frames[k].Valid() && fresh(frames[k]) && fresh(frames[k].sg)
      invariant forall j, k | 0 <= j < k < i :: frames[j] != frames[k] && frames[j].sg != frames[k].sg
    {
      var srb := new Srb();
      frames := frames + [srb];
    }
  }

  /** The SRB of a tag as the request wants it, but for the count of an empty list. */
  ghost predicate Filled(p: Pool, tag: int, r: Request, srb: Srb)
    requires p.ValidTag(tag)
    reads srb, srb.sg
  {
    && srb.target == r.scsiTarget / 8 && srb.lun == r.scsiTarget % 8
    && srb.write == r.write && srb.largeFrame == (48 + 8 * |r.segments| > 256)
    && srb.header == Header(0, 1, r.cdbLength, r.cdb, p.SrbPtr(tag).value % 0x1_0000_0000)
    && Describes(srb.sg[..], r.segments)
  }

  class ScsiController {
    const p: Pool
    const tags: TagPool
    const srbs: seq<Srb>
    var stack: map<nat, Task>         // the superclass's outstanding tasks
    var inboundQueue: seq<word>       // words written to the inbound queue port
    var outboundQueue: seq<word>      // replies waiting at the outbound queue port
    var completed: seq<Completion>    // handed to CompleteParallelTask
    const requested: nat -> int       // GetRequestedDataTransferCount of each task

    ghost predicate Valid()
      reads this, tags, tags.freeSRB, tags.freeSRB.data, srbs
    {
      && p.Valid() && p.HoldsFrames() && tags.Valid() && tags.maxSRB == p.maxSRB == |srbs|
      && this !in tags.Repr()
      && (forall i | 0 <= i < |srbs| ::
            srbs[i].Valid() && (srbs[i] as object) !in tags.Repr() + {this} && (srbs[i].sg as object) !in tags.Repr())
      && (forall i, j | 0 <= i < j < |srbs| :: srbs[i] != srbs[j] && srbs[i].sg != srbs[j].sg)
      && (forall tag <- tags.free :: p.ValidTag(tag))
      && UniqueIdentifiers(stack)
    }

    ghost function Frames(): seq<Frame>
      reads srbs
    {
      seq(|srbs|, i requires 0 <= i < |srbs| reads srbs => Frame(srbs[i].target, srbs[i].lun))
    }

    ghost function Reports(): seq<Report>
      reads srbs
    {
      seq(|srbs|, i requires 0 <= i < |srbs| reads srbs => srbs[i].report)
    }

    ghost function Abs(): View
      requires Valid()
      reads this, tags, tags.freeSRB, tags.freeSRB.data, srbs
    {
      View(tags.free, Frames(), Records(Reports(), requested), stack, outboundQueue, completed)
    }

    /** The part of InitializeController that sets up the SRB pool and its free list. */
    constructor (p: Pool, requested: nat -> int)
      requires p.Valid() && p.HoldsFrames()
      ensures Valid() && this.p == p && this.requested == requested
      ensures Abs().free == FirstTags(p.maxSRB) && stack == map[]
      ensures inboundQueue == outboundQueue == [] && completed == []
    {
      var pool := new TagPool(p.maxSRB);
      var _ := pool.FillFreeList();
      var frames := NewFrames(p.maxSRB);
      this.p, this.requested, tags, srbs := p, requested, pool, frames;
      stack, inboundQueue, outboundQueue, completed := map[], [], [], [];
    }

    /** The head of the queue, or all ones when it is empty. */
    method GetOutboundQueueport() returns (response: word)
      requires Valid()
      modifies this`outboundQueue
      ensures Valid()
      ensures response == if old(outboundQueue) == [] then QUEUE_EMPTY else old(outboundQueue)[0]
      ensures Abs() == old(Abs()).(replies := if old(outboundQueue) == [] then [] else old(outboundQueue)[1..])
      ensures Drain(p, old(Abs())) == Resume(p, Abs(), response)
    {
      DrainReads(p, Abs());
      if outboundQueue == [] {
        response := QUEUE_EMPTY;
      } else {
        response := outboundQueue[0];
        outboundQueue := outboundQueue[1..];
      }
    }

    method FindTaskForControllerIdentifier(scsiTarget: int, identifier: int) returns (task: Option<nat>)
      requires UniqueIdentifiers(stack)
      ensures task == FindTask(stack, scsiTarget, identifier)
    {
      var matching := Matching(stack, scsiTarget, identifier);
      if matching == {} {
        task := None;
      } else {
        var t :| t in matching;
        task := Some(t);
      }
    }

    /** The body of the reply loop. */
    method HandleResponse(response: word)
      requires Valid()
      modifies this, tags.Repr()
      ensures Valid()
      ensures Abs() == HandleOne(p, old(Abs()).(replies := [response] + old(outboundQueue)))
      ensures inboundQueue == old(inboundQueue) && outboundQueue == old(outboundQueue)
      ensures tags.free == if p.ValidTag(p.ReplyTag(response))
                           then AfterReturn(old(tags.free), p.maxSRB, p.ReplyTag(response))
                           else old(tags.free)
      ensures if completed == old(completed) then stack == old(stack)
              else
                var tag, n := p.ReplyTag(response), |old(completed)|;
                && p.ValidTag(tag) && |completed| == n + 1
                && var c := completed[n];
                && completed == old(completed) + [c]
                && c.task in old(stack) && stack == old(stack) - {c.task}
                && old(stack)[c.task] == Task(8 * srbs[tag].target + srbs[tag].lun, p.SrbPtr(tag))
                && c.outcome == OutcomeOf(response, srbs[tag].report, requested(c.task))
    {
      assert ([response] + outboundQueue)[1..] == outboundQueue;
      var tag := p.ReplyTag(response);
      if tag < 0 {
        return;
      }
      var srb := p.SrbPtr(tag);
      if srb == None {
        return;
      }
      assert Frames()[tag] == Frame(srbs[tag].target, srbs[tag].lun) && Reports()[tag] == srbs[tag].report;
      var task := FindTaskForControllerIdentifier(ScsiTarget(srbs[tag].target, srbs[tag].lun), srb.value);
      if task.Some? {
        FinishTask(task.value, srbs[tag], response);
      }
      ReturnTagInvoke(tag);
    }

    /** returnTag through the gate. */
    method ReturnTagInvoke(tag: int)
      requires Valid() && p.ValidTag(tag)
      modifies tags.Repr()
      ensures Valid() && Abs() == old(Abs()).(free := AfterReturn(old(tags.free), p.maxSRB, tag))
    {
      tags.ReturnTag(tag);
      assert Frames() == old(Frames()) && Reports() == old(Reports());
    }

    /** CompleteParallelTask: the task leaves the stack's list. */
    method FinishTask(task: nat, srb: Srb, response: word)
      requires Valid()
      modifies `stack, `completed
      ensures Valid()
      ensures Abs() == old(Abs()).(
                stack := old(stack) - {task},
                completed := old(completed) + [Completion(task, OutcomeOf(response, srb.report, requested(task)))])
    {
      var outcome := Conclude(srb, response, requested(task));
      stack := stack - {task};
      completed := completed + [Completion(task, outcome)];
    }

    /** The status switch: what a reply and the SRB it names say of the task. */
    method Conclude(srb: Srb, response: word, length: int) returns (outcome: Outcome)
      ensures outcome == OutcomeOf(response, srb.report, length)
    {
      var status, serviceResponse, sense, realized := GOOD, TaskComplete, None, None;
      if HasError(response) {
        if srb.report.deviceStatus == DEV_CHECK_CONDITION {
          status := ScsiStatus(srb.report.deviceStatus);
          sense := Some(srb.report.senseData);
        } else if srb.report.deviceStatus == DEV_SELECT_TIMEOUT {
          status, serviceResponse := DeviceNotPresent, DeliveryOrTargetFailure;
        } else if srb.report.deviceStatus == DEV_ABORTED || srb.report.deviceStatus == DEV_INIT_FAIL {
          status, serviceResponse := DeliveryFailure, DeliveryOrTargetFailure;
        } else {
          status := ScsiStatus(srb.report.deviceStatus);
        }
      } else {
        realized := Some(length);
      }
      outcome := Outcome(status, serviceResponse, sense, realized);
    }

    /**
     From any state of the protocol: every queued reply is answered, and the queue is left empty. In
     general, with words in the queue that no SRB of ours led to, the loop reads up to the first all-ones.
     */
    method HandlePostQueueInterrupt()
      requires Valid()
      modifies this, tags.Repr()
      ensures Valid() && Abs() == Drain(p, old(Abs()))
      ensures forall s | Usable(p) && Inv(p, s) && s.returning == [] && Shows(p, old(Abs()), s) ::
                AllAnswered(p, old(Abs()), s, Abs()) && Shows(p, Abs(), HandleAll(p, s)) && outboundQueue == []
      ensures inboundQueue == old(inboundQueue)
    {
      ghost var v := Abs();
      forall s | Usable(p) && Inv(p, s) && s.returning == [] && Shows(p, v, s)
        ensures AllAnswered(p, v, s, Drain(p, v)) && Shows(p, Drain(p, v), HandleAll(p, s)) && Drain(p, v).replies == []
      {
        DrainIsProtocol(p, v, s);
      }
      var response := GetOutboundQueueport();
      while response != QUEUE_EMPTY
        invariant Valid() && inboundQueue == old(inboundQueue)
        invariant Drain(p, old(Abs())) == Resume(p, Abs(), response)
        decreases |outboundQueue| + if response == QUEUE_EMPTY then 0 else 1
      {
        HandleResponse(response);
        response := GetOutboundQueueport();
      }
    }

    /**
     A task of the SCSI stack that has no identifier yet. Targets are those the driver reports to the
     stack, 0 to 127.
     */
    method ProcessParallelTask(r: Request) returns (accepted: bool)
      requires Valid()
      requires r.id in stack && stack[r.id] == Task(r.scsiTarget, None)
      requires 0 <= r.scsiTarget < MAX_TARGETID * MAX_TARGETLUN && |r.segments| <= 38
      requires forall t <- stack, tag <- tags.free :: stack[t].identifier != p.SrbPtr(tag)
      modifies this, tags.Repr(), srbs, set s <- srbs :: s.sg
      ensures Valid()
      ensures accepted <==> old(tags.free) != []
      ensures !accepted ==> Abs() == old(Abs()) && inboundQueue == old(inboundQueue)
      ensures accepted ==>
                var tag := old(tags.free)[0];
                && p.ValidTag(tag)
                && Abs() == SubmitOne(p, old(Abs()), r)
                && inboundQueue == old(inboundQueue) + [p.PostWord(tag, NeedsLargeFrame(|r.segments|))]
                && srbs[tag].sg[..] == Entries(r.segments) + old(srbs[tags.free[0]].sg[|r.segments|..])
                && srbs[tag].largeFrame == (48 + 8 * |r.segments| > 256)
                && (forall i | 0 <= i < |r.segments| ::
                      && srbs[tag].sg[i].address == r.segments[i].location
                      && (srbs[tag].sg[i].length == r.segments[i].length <==> r.segments[i].length < 0x100_0000))
                && srbs[tag].sgCount == (if r.segments == [] then old(srbs[tags.free[0]].sgCount) else |r.segments|)
                && srbs[tag].target == r.scsiTarget / 8 && srbs[tag].lun == r.scsiTarget % 8
                && srbs[tag].write == r.write
                && srbs[tag].header.bus == 0 && srbs[tag].header.functionCode == 1
                && srbs[tag].header.cdbLength == r.cdbLength && srbs[tag].header.cdb == r.cdb
                && srbs[tag].header.context == p.SrbPtr(tag).value % 0x1_0000_0000
                && stack == old(stack)[r.id := Task(r.scsiTarget, p.SrbPtr(tag))]
      ensures forall i | 0 <= i < |srbs| && !(accepted && i == old(tags.free)[0]) :: unchanged(srbs[i], srbs[i].sg)
      ensures forall s | Usable(p) && Inv(p, s) && NewlyListed(p, old(Abs()), s, r) ::
                ShowsSubmission(p, old(Abs()), s, r, Abs(), inboundQueue[|old(inboundQueue)|..])
    {
      ghost var v, queue := Abs(), inboundQueue;
      assert tags.free != [] ==> tags.free[0] in tags.free;
      var tag := tags.GetTag();
      if tag == -1 {
        assert Abs() == v && inboundQueue[|queue|..] == [];
        CallIsSubmission(p, v, r, v, []);
        return false;
      }
      Dispatch(tag, r);
      accepted := true;
      assert inboundQueue[|queue|..] == [p.PostWord(tag, NeedsLargeFrame(|r.segments|))];
      CallIsSubmission(p, v, r, Abs(), inboundQueue[|queue|..]);
    }

    /** Build, identify and post, under a tag that has left the free list. */
    method Dispatch(tag: int, r: Request)
      requires Valid() && p.ValidTag(tag)
      requires 0 <= r.scsiTarget < MAX_TARGETID * MAX_TARGETLUN && |r.segments| <= 38
      requires forall t <- stack :: stack[t].identifier != p.SrbPtr(tag)
      modifies this, srbs[tag], srbs[tag].sg
      ensures Valid()
      ensures Abs() == old(Abs()).(
                frames := old(Frames())[tag := Frame(r.scsiTarget / MAX_TARGETLUN, r.scsiTarget % MAX_TARGETLUN)],
                stack := old(stack)[r.id := Task(r.scsiTarget, p.SrbPtr(tag))])
      ensures inboundQueue == old(inboundQueue) + [p.PostWord(tag, NeedsLargeFrame(|r.segments|))]
      ensures srbs[tag].sg[..] == Entries(r.segments) + old(srbs[tag].sg[|r.segments|..])
      ensures srbs[tag].sgCount == if r.segments == [] then old(srbs[tag].sgCount) else |r.segments|
      ensures Filled(p, tag, r, srbs[tag])
    {
      var large := FillFrame(tag, r);
      stack := stack[r.id := Task(r.scsiTarget, p.SrbPtr(tag))];
      inboundQueue := inboundQueue + [p.PostWord(tag, large)];
    }

    /** Build the SRB of a tag; whether it became a large one. */
    method FillFrame(tag: int, r: Request) returns (large: bool)
      requires Valid() && p.ValidTag(tag)
      requires 0 <= r.scsiTarget < MAX_TARGETID * MAX_TARGETLUN && |r.segments| <= 38
      modifies srbs[tag], srbs[tag].sg
      ensures Valid()
      ensures Frames() == old(Frames())[tag := Frame(r.scsiTarget / MAX_TARGETLUN, r.scsiTarget % MAX_TARGETLUN)]
      ensures Reports() == old(Reports())
      ensures srbs[tag].sg[..] == Entries(r.segments) + old(srbs[tag].sg[|r.segments|..])
      ensures srbs[tag].sgCount == if r.segments == [] then old(srbs[tag].sgCount) else |r.segments|
      ensures Filled(p, tag, r, srbs[tag])
      ensures large == NeedsLargeFrame(|r.segments|)
    {
      var srb := srbs[tag];
      var context: word := p.SrbPtr(tag).value % TWO_TO_THE_32;
      srb.Build(Header(0, 1, r.cdbLength, r.cdb, context),
                r.scsiTarget / MAX_TARGETLUN, r.scsiTarget % MAX_TARGETLUN, r.write, r.segments);
      large := srb.largeFrame;
      assert forall i | 0 <= i < |srbs| && i != tag :: srbs[i] != srb && srbs[i].sg != srb.sg && unchanged(srbs[i]);
    }
  }
}
