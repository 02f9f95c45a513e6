/**
 SCSI tasks, tags, the adapter and timeouts, interleaved in any order: who holds each tag, and which
 task a reply completes.
 */
module SrbProtocol {
  import opened Bytes
  import opened SrbAddress
  import opened SrbTags
  import opened Targets

  /** Between getTag and postSRB in ProcessParallelTask; `identified` once the identifier is set. */
  datatype Build = Build(task: nat, large: bool, identified: bool)

  /** A task on the SCSI stack's list of outstanding tasks, with the identifier the driver gave it. */
  datatype Task = Task(scsiTarget: int, identifier: Option<int>)

  datatype Frame = Frame(target: int, lun: int)

  datatype Entry =
    | Posted(task: nat, tag: int)
    | Completed(task: nat, tag: int)
    | TimedOut(task: nat)
    | Rejected(task: nat)

  datatype State = State(
    free: seq<word>,             // tags in freeSRB
    building: map<int, Build>,   // by tag
    frames: map<int, Frame>,     // what the SRB of each tag used so far says
    stack: map<nat, Task>,       // outstanding tasks
    inAdapter: seq<word>,        // post words the adapter has not replied to
    replies: seq<word>,          // reply words in the outbound queue
    returning: seq<int>,         // a tag whose reply is handled but which is not yet back in freeSRB
    startedAs: map<nat, int>,    // history: the tag each task was given
    log: seq<Entry>)             // history

  datatype Event =
    | Submit(task: nat, scsiTarget: int, large: bool)
    | Identify(tag: int)
    | Post(tag: int)
    | Timeout(task: nat)
    | AdapterReplies(i: nat, flags: int)
    | HandleReply
    | ReturnTag

  function Initial(p: Pool): State
    requires 0 <= p.maxSRB <= MAX_OUTSTANDING_SRB
  {
    State(FirstTags(p.maxSRB), map[], map[], map[], [], [], [], map[], [])
  }

  /** Tasks on the stack's list for a target that carry an identifier. */
  function Matching(stack: map<nat, Task>, scsiTarget: int, identifier: int): set<nat> {
    set t | t in stack && stack[t] == Task(scsiTarget, Some(identifier))
  }

  /** FindTaskForControllerIdentifier */
  ghost function FindTask(stack: map<nat, Task>, scsiTarget: int, identifier: int): (r: Option<nat>)
    ensures r.None? <==> Matching(stack, scsiTarget, identifier) == {}
    ensures r.Some? ==> r.value in Matching(stack, scsiTarget, identifier)
  {
    if Matching(stack, scsiTarget, identifier) == {} then None
    else var t :| t in Matching(stack, scsiTarget, identifier); Some(t)
  }

  /** The reply handler's lookup; None also for a reply that names no SRB of ours. */
  ghost function TaskOfReply(p: Pool, s: State, response: word): Option<nat>
    requires p.sizeSRB > 0
  {
    var tag := p.ReplyTag(response);
    match p.SrbPtr(tag)
    case None => None
    case Some(srb) =>
      if tag !in s.frames then None
      else FindTask(s.stack, ScsiTarget(s.frames[tag].target, s.frames[tag].lun), srb)
  }

  predicate Enabled(p: Pool, s: State, e: Event) {
    match e
    case Submit(task, scsiTarget, _) =>
      task !in s.startedAs && Rejected(task) !in s.log && 0 <= scsiTarget < MAX_TARGETID * MAX_TARGETLUN
    case Identify(tag) => tag in s.building && !s.building[tag].identified
    case Post(tag) => tag in s.building && s.building[tag].identified
    case Timeout(task) => task in s.stack
    case AdapterReplies(i, flags) => i < |s.inAdapter| && 0 <= flags < 16
    case HandleReply => s.replies != [] && s.returning == []
    case ReturnTag => s.returning != []
  }

  /** ProcessParallelTask up to SetControllerTaskIdentifier; `tag` is what getTag vended. */
  function Start(s: State, tag: word, task: nat, scsiTarget: int, large: bool): State
    requires s.free != []
  {
    s.(free := s.free[1..],
       building := s.building[tag := Build(task, large, false)],
       frames := s.frames[tag := Frame(scsiTarget / MAX_TARGETLUN, scsiTarget % MAX_TARGETLUN)],
       stack := s.stack[task := Task(scsiTarget, None)],
       startedAs := s.startedAs[task := tag])
  }

  /** A task that has timed out already is no longer there to be given an identifier. */
  function SetIdentifier(p: Pool, s: State, tag: int): State
    requires tag in s.building
  {
    var b := s.building[tag];
    s.(building := s.building[tag := b.(identified := true)],
       stack := if b.task in s.stack
                then s.stack[b.task := s.stack[b.task].(identifier := p.SrbPtr(tag))]
                else s.stack)
  }

  function PostSrb(p: Pool, s: State, tag: int): State
    requires tag in s.building
  {
    var b := s.building[tag];
    s.(building := s.building - {tag},
       inAdapter := s.inAdapter + [p.PostWord(tag, b.large)],
       log := s.log + [Posted(b.task, tag)])
  }

  function TimeOut(s: State, task: nat): State {
    s.(stack := s.stack - {task}, log := s.log + [TimedOut(task)])
  }

  /** The adapter replies in whatever order it likes. */
  function Reply(s: State, i: nat, flags: int): State
    requires i < |s.inAdapter| && 0 <= flags < 32
  {
    s.(inAdapter := s.inAdapter[..i] + s.inAdapter[i + 1..],
       replies := s.replies + [ReplyWord(s.inAdapter[i], flags)])
  }

  /** One round of the loop in handlePostQueueInterrupt, up to returnTag. */
  ghost function Handle(p: Pool, s: State): State
    requires p.sizeSRB > 0 && s.replies != []
  {
    var tag, found := p.ReplyTag(s.replies[0]), TaskOfReply(p, s, s.replies[0]);
    var s' := s.(replies := s.replies[1..]);
    if p.SrbPtr(tag).None? then s'
    else if found.None? then s'.(returning := [tag])
    else s'.(returning := [tag], stack := s.stack - {found.value}, log := s.log + [Completed(found.value, tag)])
  }

  function Return(p: Pool, s: State): State
    requires s.returning != []
  {
    var tag := s.returning[0];
    s.(returning := [],
       free := if 0 <= tag < TWO_TO_THE_32 then AfterReturn(s.free, p.maxSRB, tag) else s.free)
  }

  ghost function Step(p: Pool, s: State, e: Event): State
    requires p.sizeSRB > 0
  {
    if !Enabled(p, s, e) then s else
    match e
    case Submit(task, scsiTarget, large) =>
      if s.free == [] then s.(log := s.log + [Rejected(task)])
      else Start(s, s.free[0], task, scsiTarget, large)
    case Identify(tag) => SetIdentifier(p, s, tag)
    case Post(tag) => PostSrb(p, s, tag)
    case Timeout(task) => TimeOut(s, task)
    case AdapterReplies(i, flags) => Reply(s, i, flags)
    case HandleReply => Handle(p, s)
    case ReturnTag => Return(p, s)
  }

  ghost function Run(p: Pool, es: seq<Event>): State
    requires p.sizeSRB > 0 && 0 <= p.maxSRB <= MAX_OUTSTANDING_SRB
  {
    if es == [] then Initial(p) else Step(p, Run(p, es[..|es| - 1]), es[|es| - 1])
  }

  // ---------------------------------------------------------------------------------------------
  // Where a tag is

  /** The tags that words lead back to; post words and reply words lead back alike. */
  function TagsOf(p: Pool, words: seq<word>): seq<int>
    requires p.sizeSRB > 0
  {
    seq(|words|, i requires 0 <= i < |words| => p.ReplyTag(words[i]))
  }

  /** The tags posted and not yet replied to, and those of replies not yet handled. */
  function Flight(p: Pool, s: State): multiset<int>
    requires p.sizeSRB > 0
  {
    multiset(TagsOf(p, s.inAdapter)) + multiset(TagsOf(p, s.replies))
  }

  /** In how many places a tag is. */
  function Places(s: State, flight: multiset<int>, tag: int): nat {
    multiset(s.free)[tag] + (if tag in s.building then 1 else 0) + flight[tag] + multiset(s.returning)[tag]
  }

  /** The task whose SRB was most recently posted under a tag. */
  function LastPost(log: seq<Entry>, tag: int): Option<nat> {
    if log == [] then None
    else
      var e := log[|log| - 1];
      if e.Posted? && e.tag == tag then Some(e.task) else LastPost(log[..|log| - 1], tag)
  }

  predicate Ends(e: Entry, task: nat) {
    !e.Posted? && e.task == task
  }

  predicate Ended(log: seq<Entry>, task: nat) {
    exists i :: 0 <= i < |log| && Ends(log[i], task)
  }

  /** What must have happened before an entry: replies complete the last poster, and a task ends once. */
  predicate EntryOk(before: seq<Entry>, e: Entry) {
    && (e.Completed? ==> LastPost(before, e.tag) == Some(e.task))
    && (!e.Posted? ==> !Ended(before, e.task))
  }

  predicate LogOk(log: seq<Entry>) {
    log == [] || (LogOk(log[..|log| - 1]) && EntryOk(log[..|log| - 1], log[|log| - 1]))
  }

  // ---------------------------------------------------------------------------------------------
  // Invariants

  /** Every tag is in exactly one place, and nothing else is anywhere. */
  ghost predicate Partition(p: Pool, s: State, flight: multiset<int>) {
    && (forall tag :: Places(s, flight, tag) == if p.ValidTag(tag) then 1 else 0)
    && |s.returning| <= 1
  }

  /** t was started under `tag`, and is still outstanding unless it timed out. */
  ghost predicate HeldBy(s: State, tag: int, t: nat) {
    t in s.startedAs && s.startedAs[t] == tag && (t in s.stack || TimedOut(t) in s.log)
  }

  /** Who a used tag belongs to. */
  ghost predicate Holders(p: Pool, s: State, flight: multiset<int>) {
    && (forall tag <- s.building :: HeldBy(s, tag, s.building[tag].task))
    && (forall tag <- flight :: LastPost(s.log, tag).Some? && HeldBy(s, tag, LastPost(s.log, tag).value))
    && (forall tag | p.ValidTag(tag) && tag !in s.frames :: tag in s.free)
  }

  /** The tag of an outstanding task, and the identifier by which a reply will find it. */
  ghost predicate Outstanding(p: Pool, s: State, flight: multiset<int>, t: nat)
    requires t in s.stack
  {
    && t in s.startedAs && !Ended(s.log, t)
    && var tag := s.startedAs[t];
    && p.ValidTag(tag) && tag in s.frames
    && ScsiTarget(s.frames[tag].target, s.frames[tag].lun) == s.stack[t].scsiTarget
    && if tag in s.building
       then s.building[tag].task == t &&
            s.stack[t].identifier == if s.building[tag].identified then p.SrbPtr(tag) else None
       else tag in flight && LastPost(s.log, tag) == Some(t) && s.stack[t].identifier == p.SrbPtr(tag)
  }

  ghost predicate AllOutstanding(p: Pool, s: State, flight: multiset<int>) {
    forall t <- s.stack :: Outstanding(p, s, flight, t)
  }

  ghost predicate History(s: State) {
    && (forall t :: Ended(s.log, t) ==> t in s.startedAs || Rejected(t) in s.log)
    && LogOk(s.log)
  }

  ghost predicate Owned(p: Pool, s: State, flight: multiset<int>) {
    Holders(p, s, flight) && AllOutstanding(p, s, flight) && History(s)
  }

  /** The adapter holds nothing but what was posted to it, and no reply reads as an empty queue. */
  ghost predicate Words(p: Pool, s: State) {
    && (forall w <- s.inAdapter :: exists tag, large :: p.ValidTag(tag) && w == p.PostWord(tag, large))
    && QUEUE_EMPTY !in s.replies
  }

  ghost predicate Inv(p: Pool, s: State)
    requires p.sizeSRB > 0
  {
    Words(p, s) && Partition(p, s, Flight(p, s)) && Owned(p, s, Flight(p, s))
  }

  /** The pool is usable: every reply leads back to its tag, and no SRB reaches into the next frame. */
  ghost predicate Usable(p: Pool) {
    p.Valid() && p.HoldsFrames() && p.phys + p.maxSRB * p.sizeSRB < TWO_TO_THE_32
  }

  // ---------------------------------------------------------------------------------------------
  // What is in flight

  lemma TagsOfAppend(p: Pool, words: seq<word>, w: word)
    requires p.sizeSRB > 0
    ensures TagsOf(p, words + [w]) == TagsOf(p, words) + [p.ReplyTag(w)]
  {
  }

  lemma TagsOfRemove(p: Pool, words: seq<word>, i: nat)
    requires p.sizeSRB > 0 && i < |words|
    ensures multiset(TagsOf(p, words)) ==
            multiset(TagsOf(p, words[..i] + words[i + 1..])) + multiset{p.ReplyTag(words[i])}
  {
    var tags := TagsOf(p, words);
    assert TagsOf(p, words[..i] + words[i + 1..]) == tags[..i] + tags[i + 1..];
    assert tags == tags[..i] + [tags[i]] + tags[i + 1..];
  }

  /** A post word is itself a reply word, its own bit 31 being the flags. */
  lemma PostLeadsBack(p: Pool, tag: int, large: bool)
    requires Usable(p) && p.ValidTag(tag)
    ensures p.ReplyTag(p.PostWord(tag, large)) == tag
  {
    PostWordCarries(p, tag, large);
    var w := p.PostWord(tag, large);
    assert w == ReplyWord(w, if large then 16 else 0);
    TagRoundTrip(p, tag, large, if large then 16 else 0);
  }

  lemma PostFlight(p: Pool, s: State, tag: int)
    requires Usable(p) && Words(p, s) && tag in s.building && p.ValidTag(tag)
    ensures Words(p, PostSrb(p, s, tag)) && Flight(p, PostSrb(p, s, tag)) == Flight(p, s) + multiset{tag}
  {
    var large := s.building[tag].large;
    PostLeadsBack(p, tag, large);
    TagsOfAppend(p, s.inAdapter, p.PostWord(tag, large));
    assert forall w <- PostSrb(p, s, tag).inAdapter :: w in s.inAdapter || w == p.PostWord(tag, large);
  }

  lemma ReplyFlight(p: Pool, s: State, i: nat, flags: int)
    requires Usable(p) && Words(p, s) && i < |s.inAdapter| && 0 <= flags < 16
    ensures Words(p, Reply(s, i, flags)) && Flight(p, Reply(s, i, flags)) == Flight(p, s)
  {
    var t, post := Reply(s, i, flags), s.inAdapter[i];
    assert post in s.inAdapter;
    var tag, large :| p.ValidTag(tag) && post == p.PostWord(tag, large);
    PostLeadsBack(p, tag, large);
    TagRoundTrip(p, tag, large, flags);
    TagsOfRemove(p, s.inAdapter, i);
    TagsOfAppend(p, s.replies, ReplyWord(post, flags));
    ReplyIsNotSentinel(post, flags);
    assert forall w <- t.inAdapter :: w in s.inAdapter;
  }

  lemma TagsOfHead(p: Pool, words: seq<word>)
    requires p.sizeSRB > 0 && words != []
    ensures multiset(TagsOf(p, words)) == multiset(TagsOf(p, words[1..])) + multiset{p.ReplyTag(words[0])}
  {
    assert TagsOf(p, words) == [p.ReplyTag(words[0])] + TagsOf(p, words[1..]);
  }

  lemma HandleFlight(p: Pool, s: State, t: State)
    requires p.sizeSRB > 0 && s.replies != [] && t.inAdapter == s.inAdapter && t.replies == s.replies[1..]
    ensures Flight(p, s) == Flight(p, t) + multiset{p.ReplyTag(s.replies[0])}
  {
    TagsOfHead(p, s.replies);
  }

  // ---------------------------------------------------------------------------------------------
  // The partition

  function TagSet(n: nat): (tags: set<int>)
    ensures |tags| == n && forall x :: x in tags <==> 0 <= x < n
  {
    if n == 0 then {} else TagSet(n - 1) + {n - 1}
  }

  lemma Pigeonhole(f: seq<int>, room: set<int>)
    requires multiset(f) <= multiset(room)
    ensures |f| <= |room|
  {
    assert multiset(room) == multiset(f) + (multiset(room) - multiset(f));
    assert |multiset(f)| == |f| && |multiset(room)| == |room|;
  }

  /** What the partition says of one tag. */
  lemma OnePlace(p: Pool, s: State, flight: multiset<int>, tag: int)
    requires Partition(p, s, flight)
    ensures Places(s, flight, tag) == if p.ValidTag(tag) then 1 else 0
  {
  }

  /** While a tag is elsewhere the free list has room for it. */
  lemma RoomForReturn(p: Pool, s: State, flight: multiset<int>, tag: int)
    requires 0 < p.maxSRB && Partition(p, s, flight) && p.ValidTag(tag) && tag !in s.free
    ensures |s.free| < p.maxSRB
  {
    forall x ensures multiset(s.free)[x] <= multiset(TagSet(p.maxSRB) - {tag})[x] {
      OnePlace(p, s, flight, x);
    }
    Pigeonhole(s.free, TagSet(p.maxSRB) - {tag});
  }

  lemma StartPartition(p: Pool, s: State, flight: multiset<int>, task: nat, scsiTarget: int, large: bool)
    requires Partition(p, s, flight) && s.free != []
    ensures Partition(p, Start(s, s.free[0], task, scsiTarget, large), flight)
    ensures p.ValidTag(s.free[0]) && s.free[0] !in s.building && s.free[0] !in flight
  {
    var tag, t := s.free[0], Start(s, s.free[0], task, scsiTarget, large);
    assert s.free == [tag] + t.free;
    assert multiset(s.free) == multiset{tag} + multiset(t.free);
    OnePlace(p, s, flight, tag);
    assert tag in multiset(s.free);
    forall x ensures Places(t, flight, x) == if p.ValidTag(x) then 1 else 0 {
      OnePlace(p, s, flight, x);
    }
  }

  lemma PostPartition(p: Pool, s: State, flight: multiset<int>, tag: int)
    requires Partition(p, s, flight) && tag in s.building
    ensures Partition(p, PostSrb(p, s, tag), flight + multiset{tag})
    ensures p.ValidTag(tag) && tag !in flight
  {
    OnePlace(p, s, flight, tag);
    forall x ensures Places(PostSrb(p, s, tag), flight + multiset{tag}, x) == if p.ValidTag(x) then 1 else 0 {
      OnePlace(p, s, flight, x);
    }
  }

  /** A reply names a valid tag, in flight once and nowhere else. */
  lemma HeadReply(p: Pool, s: State)
    requires p.sizeSRB > 0 && Partition(p, s, Flight(p, s)) && s.replies != []
    ensures var tag := p.ReplyTag(s.replies[0]);
            p.ValidTag(tag) && Flight(p, s)[tag] == 1 && tag !in s.free && tag !in s.building && tag !in s.returning
  {
    HandleFlight(p, s, s.(replies := s.replies[1..]));
    OnePlace(p, s, Flight(p, s), p.ReplyTag(s.replies[0]));
  }

  lemma HandlePartition(p: Pool, s: State, flight: multiset<int>, tag: int, t: State)
    requires Partition(p, s, flight) && flight[tag] == 1 && s.returning == []
    requires t.free == s.free && t.building == s.building && t.returning == [tag]
    ensures Partition(p, t, flight - multiset{tag})
  {
    forall x ensures Places(t, flight - multiset{tag}, x) == if p.ValidTag(x) then 1 else 0 {
      OnePlace(p, s, flight, x);
    }
  }

  lemma ReturnPartition(p: Pool, s: State, flight: multiset<int>)
    requires 0 < p.maxSRB <= MAX_OUTSTANDING_SRB && Partition(p, s, flight) && s.returning != []
    ensures Partition(p, Return(p, s), flight)
    ensures |s.free| < p.maxSRB && Return(p, s).free == s.free + s.returning
  {
    var tag := s.returning[0];
    assert s.returning == [tag];
    OnePlace(p, s, flight, tag);
    RoomForReturn(p, s, flight, tag);
    forall x ensures Places(Return(p, s), flight, x) == if p.ValidTag(x) then 1 else 0 {
      OnePlace(p, s, flight, x);
    }
  }

  // ---------------------------------------------------------------------------------------------
  // Holders, outstanding tasks and the log

  lemma AppendLog(log: seq<Entry>, e: Entry)
    ensures forall tag :: LastPost(log + [e], tag) ==
                          if e.Posted? && e.tag == tag then Some(e.task) else LastPost(log, tag)
    ensures forall t :: Ended(log + [e], t) <==> Ended(log, t) || Ends(e, t)
    ensures LogOk(log + [e]) <==> LogOk(log) && EntryOk(log, e)
  {
    var more := log + [e];
    assert more[..|more| - 1] == log;
    forall t ensures Ended(more, t) <==> Ended(log, t) || Ends(e, t) {
      if Ends(e, t) {
        assert Ends(more[|log|], t);
      } else if Ended(log, t) {
        var i :| 0 <= i < |log| && Ends(log[i], t);
        assert Ends(more[i], t);
      }
    }
  }

  lemma RejectOwned(p: Pool, s: State, flight: multiset<int>, task: nat)
    requires Owned(p, s, flight) && task !in s.startedAs && Rejected(task) !in s.log
    ensures Owned(p, s.(log := s.log + [Rejected(task)]), flight)
  {
    AppendLog(s.log, Rejected(task));
    var t := s.(log := s.log + [Rejected(task)]);
    forall u <- t.stack ensures Outstanding(p, t, flight, u) {
      assert Outstanding(p, s, flight, u);
    }
  }

  lemma StartOwned(p: Pool, s: State, flight: multiset<int>, task: nat, scsiTarget: int, large: bool)
    requires Owned(p, s, flight) && s.free != [] && scsiTarget >= 0
    requires task !in s.startedAs && Rejected(task) !in s.log
    requires p.ValidTag(s.free[0]) && s.free[0] !in s.building && s.free[0] !in flight
    ensures Owned(p, Start(s, s.free[0], task, scsiTarget, large), flight)
  {
    var t := Start(s, s.free[0], task, scsiTarget, large);
    forall u <- t.stack ensures Outstanding(p, t, flight, u) {
      if u != task {
        assert Outstanding(p, s, flight, u);
      }
    }
    StartHolders(p, s, flight, task, scsiTarget, large);
  }

  lemma StartHolders(p: Pool, s: State, flight: multiset<int>, task: nat, scsiTarget: int, large: bool)
    requires Holders(p, s, flight) && s.free != [] && task !in s.startedAs
    ensures Holders(p, Start(s, s.free[0], task, scsiTarget, large), flight)
  {
    var tag, t := s.free[0], Start(s, s.free[0], task, scsiTarget, large);
    forall x | p.ValidTag(x) && x !in t.frames ensures x in t.free {
      assert x in s.free && x != tag;
    }
    forall x <- t.building ensures HeldBy(t, x, t.building[x].task) {
      if x != tag {
        assert HeldBy(s, x, s.building[x].task);
      }
    }
  }

  lemma IdentifyOwned(p: Pool, s: State, flight: multiset<int>, tag: int)
    requires Owned(p, s, flight) && tag in s.building && !s.building[tag].identified
    ensures Owned(p, SetIdentifier(p, s, tag), flight)
  {
    var t := SetIdentifier(p, s, tag);
    forall u <- t.stack ensures Outstanding(p, t, flight, u) {
      assert Outstanding(p, s, flight, u);
    }
    assert Holders(p, t, flight);
  }

  lemma PostOwned(p: Pool, s: State, flight: multiset<int>, tag: int)
    requires Owned(p, s, flight) && tag in s.building && s.building[tag].identified && tag !in flight
    ensures Owned(p, PostSrb(p, s, tag), flight + multiset{tag})
  {
    var t := PostSrb(p, s, tag);
    AppendLog(s.log, Posted(s.building[tag].task, tag));
    forall u <- t.stack ensures Outstanding(p, t, flight + multiset{tag}, u) {
      assert Outstanding(p, s, flight, u);
    }
    forall x <- flight + multiset{tag}
      ensures LastPost(t.log, x).Some? && HeldBy(t, x, LastPost(t.log, x).value)
    {
      if x != tag {
        assert HeldBy(s, x, LastPost(s.log, x).value);
      }
    }
    assert Holders(p, t, flight + multiset{tag});
  }

  lemma TimeoutOwned(p: Pool, s: State, flight: multiset<int>, task: nat)
    requires Owned(p, s, flight) && task in s.stack
    ensures Owned(p, TimeOut(s, task), flight)
  {
    var t := TimeOut(s, task);
    AppendLog(s.log, TimedOut(task));
    assert Outstanding(p, s, flight, task);
    forall u <- t.stack ensures Outstanding(p, t, flight, u) {
      assert Outstanding(p, s, flight, u);
    }
    forall x <- flight ensures LastPost(t.log, x).Some? && HeldBy(t, x, LastPost(t.log, x).value) {
      assert HeldBy(s, x, LastPost(s.log, x).value);
    }
    assert Holders(p, t, flight);
  }

  /** A reply under a tag in flight finds the task last posted under it, unless that timed out. */
  lemma ReplyFinds(p: Pool, s: State, flight: multiset<int>)
    requires p.Valid() && Owned(p, s, flight) && s.replies != []
    requires var tag := p.ReplyTag(s.replies[0]);
             p.ValidTag(tag) && tag in flight && tag !in s.free && tag !in s.building
    ensures var tag := p.ReplyTag(s.replies[0]);
            && LastPost(s.log, tag).Some?
            && var t := LastPost(s.log, tag).value;
            && TaskOfReply(p, s, s.replies[0]) == (if t in s.stack then Some(t) else None)
            && HeldBy(s, tag, t)
  {
    var tag := p.ReplyTag(s.replies[0]);
    var t := LastPost(s.log, tag).value;
    assert tag in s.frames;
    var found := Matching(s.stack, ScsiTarget(s.frames[tag].target, s.frames[tag].lun), p.SrbPtr(tag).value);
    forall u <- found ensures u == t {
      assert Outstanding(p, s, flight, u);
      TagsDistinct(p, s.startedAs[u], tag, false, false);
    }
    if t in s.stack {
      assert Outstanding(p, s, flight, t);
      assert t in found;
    }
  }

  lemma PosterFound(p: Pool, s: State)
    requires p.Valid() && Inv(p, s) && s.replies != []
    ensures var tag := p.ReplyTag(s.replies[0]);
            && p.ValidTag(tag) && tag in Flight(p, s) && LastPost(s.log, tag).Some?
            && var t := LastPost(s.log, tag).value;
            && TaskOfReply(p, s, s.replies[0]) == (if t in s.stack then Some(t) else None)
            && HeldBy(s, tag, t)
  {
    HeadReply(p, s);
    ReplyFinds(p, s, Flight(p, s));
  }

  lemma HandleOwned(p: Pool, s: State, flight: multiset<int>)
    requires p.Valid() && Owned(p, s, flight) && s.replies != []
    requires var tag := p.ReplyTag(s.replies[0]);
             p.ValidTag(tag) && flight[tag] == 1 && tag !in s.free && tag !in s.building
    ensures Owned(p, Handle(p, s), flight - multiset{p.ReplyTag(s.replies[0])})
  {
    var t, tag := Handle(p, s), p.ReplyTag(s.replies[0]);
    ReplyFinds(p, s, flight);
    var task := LastPost(s.log, tag).value;
    if task in s.stack {
      assert Outstanding(p, s, flight, task);
      CompleteOwned(p, s, flight, task, tag, t);
    } else {
      forall u <- t.stack ensures Outstanding(p, t, flight - multiset{tag}, u) {
        assert Outstanding(p, s, flight, u);
      }
    }
  }

  lemma CompleteOwned(p: Pool, s: State, flight: multiset<int>, task: nat, tag: int, t: State)
    requires Owned(p, s, flight) && flight[tag] == 1 && tag !in s.building
    requires task in s.stack && LastPost(s.log, tag) == Some(task)
    requires t.free == s.free && t.building == s.building && t.frames == s.frames && t.startedAs == s.startedAs
    requires t.stack == s.stack - {task} && t.log == s.log + [Completed(task, tag)]
    ensures Owned(p, t, flight - multiset{tag})
  {
    AppendLog(s.log, Completed(task, tag));
    assert Outstanding(p, s, flight, task);
    assert HeldBy(s, tag, task);
    forall u <- t.stack ensures Outstanding(p, t, flight - multiset{tag}, u) {
      assert Outstanding(p, s, flight, u);
    }
    forall x <- flight - multiset{tag} ensures LastPost(t.log, x).Some? && HeldBy(t, x, LastPost(t.log, x).value) {
      assert HeldBy(s, x, LastPost(s.log, x).value);
    }
    forall x <- t.building ensures HeldBy(t, x, t.building[x].task) && t.building[x].task != task {
      assert HeldBy(s, x, s.building[x].task);
    }
    assert Holders(p, t, flight - multiset{tag});
  }

  lemma QueuesDoNotMatter(p: Pool, s: State, t: State, flight: multiset<int>)
    requires Owned(p, s, flight)
    requires t.building == s.building && t.frames == s.frames && t.stack == s.stack
    requires t.startedAs == s.startedAs && t.log == s.log && s.free <= t.free
    ensures Owned(p, t, flight)
  {
    forall u <- t.stack ensures Outstanding(p, t, flight, u) {
      assert Outstanding(p, s, flight, u);
    }
  }

  // ---------------------------------------------------------------------------------------------
  // Every step

  lemma StartKeeps(p: Pool, s: State, task: nat, scsiTarget: int, large: bool)
    requires p.sizeSRB > 0 && Inv(p, s) && s.free != [] && scsiTarget >= 0
    requires task !in s.startedAs && Rejected(task) !in s.log
    ensures Inv(p, Start(s, s.free[0], task, scsiTarget, large))
  {
    StartPartition(p, s, Flight(p, s), task, scsiTarget, large);
    StartOwned(p, s, Flight(p, s), task, scsiTarget, large);
  }

  lemma PostKeeps(p: Pool, s: State, tag: int)
    requires Usable(p) && Inv(p, s) && tag in s.building && s.building[tag].identified
    ensures Inv(p, PostSrb(p, s, tag))
  {
    PostPartition(p, s, Flight(p, s), tag);
    PostFlight(p, s, tag);
    PostOwned(p, s, Flight(p, s), tag);
  }

  lemma ReplyKeeps(p: Pool, s: State, i: nat, flags: int)
    requires Usable(p) && Inv(p, s) && i < |s.inAdapter| && 0 <= flags < 16
    ensures Inv(p, Reply(s, i, flags))
  {
    ReplyFlight(p, s, i, flags);
    SamePlaces(p, s, Reply(s, i, flags), Flight(p, s));
    QueuesDoNotMatter(p, s, Reply(s, i, flags), Flight(p, s));
  }

  lemma HandleKeeps(p: Pool, s: State)
    requires p.Valid() && Inv(p, s) && s.replies != [] && s.returning == []
    ensures Inv(p, Handle(p, s))
  {
    HeadReply(p, s);
    HandleShape(p, s);
    HandleOwned(p, s, Flight(p, s));
    var t, tag := Handle(p, s), p.ReplyTag(s.replies[0]);
    HandledFlight(p, s, t, tag);
  }

  lemma HandleShape(p: Pool, s: State)
    requires p.sizeSRB > 0 && s.replies != [] && p.ValidTag(p.ReplyTag(s.replies[0]))
    ensures var t := Handle(p, s);
            t == s.(replies := s.replies[1..], returning := [p.ReplyTag(s.replies[0])],
                    stack := t.stack, log := t.log)
  {
  }

  lemma HandledFlight(p: Pool, s: State, t: State, tag: int)
    requires p.sizeSRB > 0 && s.replies != [] && tag == p.ReplyTag(s.replies[0])
    requires Words(p, s) && Partition(p, s, Flight(p, s)) && Flight(p, s)[tag] == 1 && s.returning == []
    requires t == s.(replies := s.replies[1..], returning := [tag], stack := t.stack, log := t.log)
    ensures Words(p, t) && Partition(p, t, Flight(p, t)) && Flight(p, t) == Flight(p, s) - multiset{tag}
  {
    HandleFlight(p, s, t);
    assert Flight(p, t) == Flight(p, s) - multiset{tag};
    HandlePartition(p, s, Flight(p, s), tag, t);
  }

  lemma ReturnKeeps(p: Pool, s: State)
    requires p.Valid() && Inv(p, s) && s.returning != []
    ensures Inv(p, Return(p, s)) && Return(p, s).free == s.free + s.returning
  {
    ReturnPartition(p, s, Flight(p, s));
    QueuesDoNotMatter(p, s, Return(p, s), Flight(p, s));
  }

  lemma SamePlaces(p: Pool, s: State, t: State, flight: multiset<int>)
    requires Partition(p, s, flight)
    requires t.free == s.free && t.building.Keys == s.building.Keys && t.returning == s.returning
    ensures Partition(p, t, flight)
  {
    forall x ensures Places(t, flight, x) == if p.ValidTag(x) then 1 else 0 {
      OnePlace(p, s, flight, x);
    }
  }

  lemma StepKeeps(p: Pool, s: State, e: Event)
    requires Usable(p) && Inv(p, s)
    ensures Inv(p, Step(p, s, e))
  {
    if Enabled(p, s, e) {
      match e {
        case Submit(task, scsiTarget, large) =>
          if s.free == [] {
            SamePlaces(p, s, s.(log := s.log + [Rejected(task)]), Flight(p, s));
            RejectOwned(p, s, Flight(p, s), task);
          } else {
            StartKeeps(p, s, task, scsiTarget, large);
          }
        case Identify(tag) =>
          SamePlaces(p, s, SetIdentifier(p, s, tag), Flight(p, s));
          IdentifyOwned(p, s, Flight(p, s), tag);
        case Post(tag) => PostKeeps(p, s, tag);
        case Timeout(task) =>
          SamePlaces(p, s, TimeOut(s, task), Flight(p, s));
          TimeoutOwned(p, s, Flight(p, s), task);
        case AdapterReplies(i, flags) => ReplyKeeps(p, s, i, flags);
        case HandleReply => HandleKeeps(p, s);
        case ReturnTag => ReturnKeeps(p, s);
      }
    }
  }
}
