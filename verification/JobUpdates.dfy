/** What the updates on the channels say, field by field, over all runs. */
module JobUpdates {
  import opened Jobs
  import opened JobRuns

  /** The job has just started: nothing is counted yet. */
  ghost predicate SaysRunning(u: Update, j: JobId, total: nat) {
    u.job == j && u.status == Running && u.processed == 0 && u.success == 0 && u.failed == 0 && u.total == total
  }

  /** The job has ended: its status, how many items there are, how many succeeded, and how many did not. */
  ghost predicate SaysTheEnd(u: Update, j: JobId, job: Job) {
    var successes := multiset(job.items)[Success];
    && u.job == j && u.status == job.status && u.status in {Completed, Partial, AllFailed}
    && u.processed == |job.items| && u.success == successes && u.failed == |job.items| - successes
    && u.total == job.total
  }

  ghost predicate SaysTruth(s: State, u: Update) {
    && u.job in s.jobs
    && (SaysRunning(u, u.job, s.jobs[u.job].total) || SaysTheEnd(u, u.job, s.jobs[u.job]))
  }

  ghost predicate AllTrue(s: State) {
    forall c, u :: c in s.line.chans && u in s.line.chans[c].sent ==> SaysTruth(s, u)
  }

  lemma {:induction false} CountIsMultiplicity(items: seq<ItemStatus>)
    ensures CountSuccess(items) == multiset(items)[Success]
  {
    if items != [] {
      var n := |items| - 1;
      CountIsMultiplicity(items[..n]);
      assert items == items[..n] + [items[n]];
    }
  }

  /** The total of a job is that of its request, for good. */
  lemma TotalStays(s: State, a: Action, j: JobId)
    requires JobsInv(s) && Enabled(s, a) && Honest(s, a) && j in s.jobs
    ensures j in Step(s, a).jobs && Step(s, a).jobs[j].total == s.jobs[j].total
  {
    WhereJobsAre(s, j);
    if a.Work? {
      OnePlace(s, s.worker.job);
      assert s.worker.Got? ==> Waiting(s, s.worker.job);
      assert s.worker.Ending? ==> Busy(s, s.worker.job);
    }
  }

  /** What was said of a job goes on being true. */
  lemma TruthStays(s: State, a: Action, u: Update)
    requires JobsInv(s) && Enabled(s, a) && Honest(s, a) && SaysTruth(s, u)
    ensures SaysTruth(Step(s, a), u)
  {
    TotalStays(s, a, u.job);
    StatusOnlyGoesOn(s, a, u.job);
  }

  lemma {:induction false} SendingAdds(l: Line, cs: seq<ChanId>, u: Update)
    ensures SendAll(l, cs, u).chans.Keys == l.chans.Keys
    ensures forall c, x :: c in l.chans && x in SendAll(l, cs, u).chans[c].sent ==> x in l.chans[c].sent || x == u
  {
    if cs != [] {
      SendingAdds(l, cs[..|cs| - 1], u);
    }
  }

  lemma {:induction false} ClosingAddsNothing(l: Line, cs: seq<ChanId>)
    ensures CloseAll(l, cs).chans.Keys == l.chans.Keys
    ensures forall c :: c in l.chans ==> CloseAll(l, cs).chans[c].sent == l.chans[c].sent
  {
    if cs != [] {
      ClosingAddsNothing(l, cs[..|cs| - 1]);
    }
  }

  /** u is the update that the worker sends in its next step, if it sends one. */
  ghost predicate IsNext(s: State, u: Update) {
    && (s.worker.Announcing? || s.worker.Telling?) && s.worker.job in s.jobs
    && u == if s.worker.Announcing? then RunningUpdate(s.worker.job, s.jobs[s.worker.job])
            else UpdateOf(s.worker.job, s.jobs[s.worker.job])
  }

  lemma AnnounceSends(s: State, c: ChanId, u: Update)
    requires s.worker.Announcing? && s.worker.job in s.jobs
    requires c in WorkStep(s).line.chans && u in WorkStep(s).line.chans[c].sent
    ensures (c in s.line.chans && u in s.line.chans[c].sent) || IsNext(s, u)
  {
    var j := s.worker.job;
    SendingAdds(s.line, Subs(s, j), RunningUpdate(j, s.jobs[j]));
  }

  lemma TellSends(s: State, c: ChanId, u: Update)
    requires s.worker.Telling? && s.worker.job in s.jobs
    requires c in WorkStep(s).line.chans && u in WorkStep(s).line.chans[c].sent
    ensures (c in s.line.chans && u in s.line.chans[c].sent) || IsNext(s, u)
  {
    var j := s.worker.job;
    SendingAdds(s.line, Subs(s, j), UpdateOf(j, s.jobs[j]));
  }

  lemma CloseSends(s: State, c: ChanId)
    requires s.worker.Closing? && c in WorkStep(s).line.chans
    ensures c in s.line.chans && WorkStep(s).line.chans[c].sent == s.line.chans[c].sent
  {
    ClosingAddsNothing(s.line, Subs(s, s.worker.job));
  }

  lemma WorkSends(s: State, c: ChanId, u: Update)
    requires c in WorkStep(s).line.chans && u in WorkStep(s).line.chans[c].sent
    ensures (c in s.line.chans && u in s.line.chans[c].sent) || IsNext(s, u)
  {
    if s.worker.Announcing? && s.worker.job in s.jobs {
      AnnounceSends(s, c, u);
    } else if s.worker.Telling? && s.worker.job in s.jobs {
      TellSends(s, c, u);
    } else if s.worker.Closing? {
      CloseSends(s, c);
    }
  }

  lemma StepSends(s: State, a: Action, c: ChanId, u: Update)
    requires Enabled(s, a) && c in Step(s, a).line.chans && u in Step(s, a).line.chans[c].sent
    ensures (c in s.line.chans && u in s.line.chans[c].sent) || (a.Work? && IsNext(s, u))
  {
    if a.Work? {
      WorkSends(s, c, u);
    }
  }

  /** A final update is true: an ended job adds up. */
  lemma EndIsTrue(s: State, j: JobId)
    requires j in s.jobs && EndedWell(s.jobs[j])
    ensures SaysTheEnd(UpdateOf(j, s.jobs[j]), j, s.jobs[j])
  {
    CountIsMultiplicity(s.jobs[j].items);
  }

  lemma NextIsTrue(s: State, u: Update)
    requires JobsInv(s) && IsNext(s, u)
    ensures SaysTruth(s, u)
  {
    if s.worker.Telling? {
      assert Over(s, s.worker.job);
      EndIsTrue(s, s.worker.job);
    }
  }

  lemma StepAllTrue(s: State, a: Action)
    requires JobsInv(s) && Enabled(s, a) && Honest(s, a) && AllTrue(s)
    ensures AllTrue(Step(s, a))
  {
    var s' := Step(s, a);
    forall c, u | c in s'.line.chans && u in s'.line.chans[c].sent ensures SaysTruth(s', u) {
      StepSends(s, a, c, u);
      if a.Work? && IsNext(s, u) {
        NextIsTrue(s, u);
      }
      TruthStays(s, a, u);
    }
  }

  lemma {:induction false} RunAllTrue(s: State, run: seq<Action>)
    requires PossibleRun(s, run)
    ensures JobsInv(s) && AllTrue(s) ==> AllTrue(Run(s, run))
    decreases |run|
  {
    if run != [] && JobsInv(s) && AllTrue(s) {
      StepJobsInv(s, run[0]);
      StepAllTrue(s, run[0]);
      RunAllTrue(Step(s, run[0]), run[1..]);
    }
  }

  /**
   In every run, each update that was ever sent says of its job either that it has started, with nothing
   counted, or how it ended, with the numbers of its items.
   */
  lemma UpdatesSayWhatHappened(run: seq<Action>, c: ChanId, u: Update)
    requires PossibleRun(START, run)
    ensures var s := Run(START, run);
            c in s.line.chans && u in s.line.chans[c].sent ==>
              && u.job in s.jobs
              && (SaysRunning(u, u.job, s.jobs[u.job].total) || SaysTheEnd(u, u.job, s.jobs[u.job]))
  {
    StartInv();
    assert AllTrue(START);
    RunAllTrue(START, run);
    var s := Run(START, run);
    if c in s.line.chans && u in s.line.chans[c].sent {
      assert SaysTruth(s, u);
    }
  }

  /** Whoever is on the list of a job when it starts is told so. */
  lemma SubscribersHearOfTheStart(run: seq<Action>, c: ChanId)
    requires PossibleRun(START, run)
    ensures var s := Run(START, run);
            s.worker.Announcing? && c in Subs(s, s.worker.job) ==>
              var l := Step(s, Work).line;
              && s.worker.job in s.jobs && c in l.chans && l.chans[c].sent != []
              && SaysRunning(l.chans[c].sent[|l.chans[c].sent| - 1], s.worker.job, s.jobs[s.worker.job].total)
  {
    StartInv();
    RunKeepsInv(START, run);
    var s := Run(START, run);
    if s.worker.Announcing? && c in Subs(s, s.worker.job) {
      StartIsTold(s, c);
    }
  }

  lemma StartIsTold(s: State, c: ChanId)
    requires Inv(s) && s.worker.Announcing? && c in Subs(s, s.worker.job)
    ensures var l := WorkStep(s).line;
            && s.worker.job in s.jobs && c in l.chans && l.chans[c].sent != []
            && SaysRunning(l.chans[c].sent[|l.chans[c].sent| - 1], s.worker.job, s.jobs[s.worker.job].total)
  {
    var j := s.worker.job;
    NotInAudience(s, j);
    assert Busy(s, j);
    RoundSends(s, WorkStep(s), j, RunningUpdate(j, s.jobs[j]));
    assert Told(WorkStep(s).line, c, RunningUpdate(j, s.jobs[j]));
  }

  /**
   Whoever is on the list of a job before its last notification and does not leave has, when the job is
   finished, a closed channel on which the last update says how the job ended.
   */
  lemma FollowersLearnTheEnd(run: seq<Action>, more: seq<Action>, j: JobId, c: ChanId)
    requires PossibleRun(START, run) && PossibleRun(Run(START, run), more)
    ensures var s, s' := Run(START, run), Run(Run(START, run), more);
            c in Subs(s, j) && s.worker != Closing(j) && j !in s.finished && Leave(c, j) !in more
            && j in s'.finished ==>
              && j in s'.jobs && c in s'.line.chans && s'.line.chans[c].closed && s'.line.chans[c].sent != []
              && SaysTheEnd(s'.line.chans[c].sent[|s'.line.chans[c].sent| - 1], j, s'.jobs[j])
  {
    SubscribersGetTheFinalUpdate(run, more, j, c);
    var s' := Run(Run(START, run), more);
    StartInv();
    RunKeepsInv(START, run);
    RunKeepsInv(Run(START, run), more);
    if j in s'.finished {
      assert Over(s', j);
      EndIsTrue(s', j);
    }
  }

  /** So does whoever joins the list of a job before that, if it does not leave. */
  lemma SubscribersLearnTheEnd(run: seq<Action>, c: ChanId, more: seq<Action>)
    requires PossibleRun(START, run) && Enabled(Run(START, run), Join(c))
    requires PossibleRun(Step(Run(START, run), Join(c)), more)
    ensures var s, s' := Run(START, run), Run(Step(Run(START, run), Join(c)), more);
            var j := s.joining[c];
            s.worker != Closing(j) && j !in s.finished && Leave(c, j) !in more && j in s'.finished ==>
              && j in s'.jobs && c in s'.line.chans && s'.line.chans[c].closed && s'.line.chans[c].sent != []
              && SaysTheEnd(s'.line.chans[c].sent[|s'.line.chans[c].sent| - 1], j, s'.jobs[j])
  {
    RunConcat(START, run, [Join(c)]);
    FollowersLearnTheEnd(run + [Join(c)], more, Run(START, run).joining[c], c);
  }

  lemma {:induction false} RunConcat(s: State, run: seq<Action>, more: seq<Action>)
    requires PossibleRun(s, run) && PossibleRun(Run(s, run), more)
    ensures PossibleRun(s, run + more) && Run(s, run + more) == Run(Run(s, run), more)
    decreases |run|
  {
    if run == [] {
      assert run + more == more;
    } else {
      assert (run + more)[1..] == run[1..] + more;
      RunConcat(Step(s, run[0]), run[1..], more);
    }
  }

  // ---------------------------------------------------------------------------------------------
  // After leaving
  // ---------------------------------------------------------------------------------------------

  /** Nobody sends on the channel, and nobody will. */
  ghost predicate Off(s: State, c: ChanId) {
    c in s.line.chans && c !in s.joining && forall j :: j in s.subs ==> c !in s.subs[j]
  }

  /** Nothing was sent on the channel in between, and it was not closed. */
  ghost predicate Quiet(l: Line, l': Line, c: ChanId) {
    && c in l.chans && c in l'.chans
    && l'.chans[c].sent == l.chans[c].sent && l'.chans[c].closed == l.chans[c].closed
  }

  lemma {:induction false} OthersAreSpared(l: Line, cs: seq<ChanId>, u: Update, c: ChanId)
    requires c in l.chans && c !in cs
    ensures Quiet(l, SendAll(l, cs, u), c) && Quiet(l, CloseAll(l, cs), c)
  {
    if cs != [] {
      OthersAreSpared(l, cs[..|cs| - 1], u, c);
    }
  }

  lemma WorkIsQuiet(s: State, c: ChanId)
    requires Off(s, c)
    ensures Off(WorkStep(s), c) && Quiet(s.line, WorkStep(s).line, c)
  {
    if !s.worker.Idle? {
      var j := s.worker.job;
      if j in s.jobs {
        OthersAreSpared(s.line, Subs(s, j), RunningUpdate(j, s.jobs[j]), c);
        OthersAreSpared(s.line, Subs(s, j), UpdateOf(j, s.jobs[j]), c);
      }
      OthersAreSpared(s.line, Subs(s, j), Update(j, Running, 0, 0, 0, 0), c);
    }
  }

  lemma StepIsQuiet(s: State, a: Action, c: ChanId)
    requires Off(s, c) && Enabled(s, a)
    ensures Off(Step(s, a), c) && Quiet(s.line, Step(s, a).line, c)
  {
    match a
    case Work => WorkIsQuiet(s, c);
    case Leave(other, j) =>
      if j in s.subs {
        LeavingAddsNothing(s.subs[j], other, c);
      }
    case _ =>
  }

  lemma {:induction false} LeavingAddsNothing(cs: seq<ChanId>, other: ChanId, c: ChanId)
    ensures c in RemoveFirst(cs, other) ==> c in cs
  {
    if cs != [] && cs[0] != other {
      LeavingAddsNothing(cs[1..], other, c);
    }
  }

  lemma {:induction false} RunIsQuiet(s: State, run: seq<Action>, c: ChanId)
    requires Off(s, c) && PossibleRun(s, run)
    ensures Quiet(s.line, Run(s, run).line, c)
    decreases |run|
  {
    if run != [] {
      StepIsQuiet(s, run[0], c);
      RunIsQuiet(Step(s, run[0]), run[1..], c);
    }
  }

  /** Whoever leaves the list of a job hears nothing any more: its channel gets no update and stays open. */
  lemma LeaversHearNothing(run: seq<Action>, j: JobId, c: ChanId, more: seq<Action>)
    requires PossibleRun(START, run) && c in Subs(Run(START, run), j)
    requires PossibleRun(Step(Run(START, run), Leave(c, j)), more)
    ensures var s, l := Run(START, run), Run(Step(Run(START, run), Leave(c, j)), more).line;
            && c in s.line.chans && !s.line.chans[c].closed
            && c in l.chans && l.chans[c].sent == s.line.chans[c].sent && !l.chans[c].closed
  {
    StartInv();
    RunKeepsInv(START, run);
    var s := Run(START, run);
    assert Subscribed(s, j, c);
    RemoveFirstEffect(s.subs[j], c);
    RunIsQuiet(Step(s, Leave(c, j)), more, c);
  }

  // ---------------------------------------------------------------------------------------------
  // The total
  // ---------------------------------------------------------------------------------------------

  lemma {:induction false} RunTotalStays(s: State, run: seq<Action>, j: JobId)
    requires PossibleRun(s, run) && JobsInv(s) && j in s.jobs
    ensures j in Run(s, run).jobs && Run(s, run).jobs[j].total == s.jobs[j].total
    decreases |run|
  {
    if run != [] {
      TotalStays(s, run[0], j);
      StepJobsInv(s, run[0]);
      RunTotalStays(Step(s, run[0]), run[1..], j);
    }
  }

  /** The total of a job, and so of its updates, is the number of sources or paths it was registered with. */
  lemma TotalIsAsRegistered(run: seq<Action>, j: JobId, r: Request, more: seq<Action>)
    requires PossibleRun(START, run) && Enabled(Run(START, run), Register(j, r))
    requires PossibleRun(Step(Run(START, run), Register(j, r)), more)
    ensures var s := Run(Step(Run(START, run), Register(j, r)), more);
            j in s.jobs && s.jobs[j].total == if r.kind == DeleteJob then |r.paths| else |r.sources|
  {
    StartInv();
    RunKeepsInv(START, run);
    StepJobsInv(Run(START, run), Register(j, r));
    RunTotalStays(Step(Run(START, run), Register(j, r)), more, j);
  }
}
