/** What every run of the SCSI path guarantees about tags and completions. */
module SrbTheorems {
  import opened SrbAddress
  import opened SrbTags
  import opened SrbProtocol

  lemma {:induction false} Reachable(p: Pool, es: seq<Event>)
    requires Usable(p)
    ensures Inv(p, Run(p, es))
  {
    if es == [] {
      forall x ensures Places(Initial(p), Flight(p, Initial(p)), x) == if p.ValidTag(x) then 1 else 0 {
        FirstTagsCount(p.maxSRB, x);
      }
      assert forall tag | p.ValidTag(tag) :: Initial(p).free[tag] == tag;
    } else {
      Reachable(p, es[..|es| - 1]);
      StepKeeps(p, Run(p, es[..|es| - 1]), es[|es| - 1]);
    }
  }

  lemma {:induction false} FirstTagsCount(n: nat, x: int)
    requires n <= MAX_OUTSTANDING_SRB
    ensures multiset(FirstTags(n))[x] == if 0 <= x < n then 1 else 0
  {
    if n > 0 {
      FirstTagsCount(n - 1, x);
      FirstTagsNext(n - 1);
    }
  }

  /** All tags are in use: being built, in flight, or on their way back. */
  ghost predicate AllInUse(p: Pool, s: State)
    requires p.sizeSRB > 0
  {
    forall tag | p.ValidTag(tag) :: tag in s.building || tag in Flight(p, s) || tag in s.returning
  }

  /**
   In every run each of the tags 0..maxSRB-1 is in exactly one place: the free ring, a task being
   built, the adapter or its reply queue (whether or not its task has timed out), or the hands of
   the reply handler. So the ring has room for every tag that is returned, and getTag finds none
   exactly when all of them are in use.
   */
  lemma TagPartition(p: Pool, es: seq<Event>, tag: int)
    requires Usable(p)
    ensures var s := Run(p, es);
            && multiset(s.free)[tag] + (if tag in s.building then 1 else 0) + Flight(p, s)[tag]
               + multiset(s.returning)[tag] == (if p.ValidTag(tag) then 1 else 0)
            && (s.returning != [] ==> |s.free| < p.maxSRB && Return(p, s).free == s.free + s.returning)
            && (s.free == [] <==> AllInUse(p, s))
  {
    Reachable(p, es);
    var s := Run(p, es);
    OnePlace(p, s, Flight(p, s), tag);
    if s.returning != [] {
      ReturnPartition(p, s, Flight(p, s));
    }
    NoneFree(p, s);
  }

  lemma NoneFree(p: Pool, s: State)
    requires p.sizeSRB > 0 && Partition(p, s, Flight(p, s))
    ensures s.free == [] <==> AllInUse(p, s)
  {
    if s.free != [] {
      OnePlace(p, s, Flight(p, s), s.free[0]);
      assert s.free[0] in multiset(s.free);
    } else {
      forall tag | p.ValidTag(tag) ensures tag in s.building || tag in Flight(p, s) || tag in s.returning {
        OnePlace(p, s, Flight(p, s), tag);
      }
    }
  }

  // ---------------------------------------------------------------------------------------------
  // Completions

  lemma {:induction false} EntriesOk(log: seq<Entry>, j: nat)
    requires LogOk(log) && j < |log|
    ensures EntryOk(log[..j], log[j])
  {
    var n := |log| - 1;
    if j < n {
      EntriesOk(log[..n], j);
      assert log[..n][..j] == log[..j];
    }
  }

  lemma {:induction false} LastPostIs(log: seq<Entry>, tag: int) returns (i: nat)
    requires LastPost(log, tag).Some?
    ensures i < |log| && log[i] == Posted(LastPost(log, tag).value, tag)
    ensures forall k, t | i < k < |log| :: log[k] != Posted(t, tag)
  {
    var n := |log| - 1;
    if log[n].Posted? && log[n].tag == tag {
      i := n;
    } else {
      i := LastPostIs(log[..n], tag);
    }
  }

  /**
   No reply is attributed to the wrong task. Whenever a task is completed under a tag, that task's SRB
   was posted under that tag and nothing was posted under it since; and nothing completed, timed out
   or rejected the task before. So no task completes twice and none completes after its timeout.
   */
  lemma CompletionsAreRight(p: Pool, es: seq<Event>, j: nat) returns (i: nat)
    requires Usable(p) && j < |Run(p, es).log| && Run(p, es).log[j].Completed?
    ensures var log, task, tag := Run(p, es).log, Run(p, es).log[j].task, Run(p, es).log[j].tag;
            && i < j && log[i] == Posted(task, tag)
            && (forall k, t | i < k < j :: log[k] != Posted(t, tag))
            && (forall k | 0 <= k < |log| && k != j :: !Ends(log[k], task))
  {
    Reachable(p, es);
    var log := Run(p, es).log;
    EntriesOk(log, j);
    i := LastPostIs(log[..j], log[j].tag);
    forall k | 0 <= k < |log| && k != j ensures !Ends(log[k], log[j].task) {
      EndsOnce(log, if k < j then k else j, if k < j then j else k, log[j].task);
    }
  }

  lemma EndsOnce(log: seq<Entry>, i: nat, j: nat, task: nat)
    requires LogOk(log) && i < j < |log|
    ensures !(Ends(log[i], task) && Ends(log[j], task))
  {
    EntriesOk(log, j);
    if Ends(log[i], task) {
      assert Ends(log[..j][i], task);
    }
  }

  /**
   A reply completes the task last posted under its tag if that is still outstanding. It completes
   nothing, and only frees the tag, exactly when that task has timed out.
   */
  lemma ReplyOutcome(p: Pool, es: seq<Event>)
    requires Usable(p) && Enabled(p, Run(p, es), HandleReply)
    ensures var s := Run(p, es);
            var tag := p.ReplyTag(s.replies[0]);
            && p.ValidTag(tag) && LastPost(s.log, tag).Some?
            && var t := LastPost(s.log, tag).value;
            && Handle(p, s).returning == [tag]
            && (t in s.stack ==> Handle(p, s).log == s.log + [Completed(t, tag)])
            && (t !in s.stack ==> TimedOut(t) in s.log && Handle(p, s).log == s.log)
  {
    Reachable(p, es);
    PosterFound(p, Run(p, es));
  }
}
