/** What every run of the job queue keeps. */
module JobRuns {
  import opened Jobs

  // ---------------------------------------------------------------------------------------------
  // Counting
  // ---------------------------------------------------------------------------------------------

  /** An operation that returns no error has one outcome for each of n sources. */
  predicate Accountable(n: nat, r: OpResult) {
    if r.error then r.done == 0 && r.failures == [] else r.done + |r.failures| == n
  }

  lemma {:induction false} SuccessesAdd(a: seq<ItemStatus>, b: seq<ItemStatus>)
    ensures CountSuccess(a + b) == CountSuccess(a) + CountSuccess(b)
  {
    if b == [] {
      assert a + b == a;
    } else {
      var n := |b| - 1;
      assert (a + b)[..|a + b| - 1] == a + b[..n];
      SuccessesAdd(a, b[..n]);
    }
  }

  lemma {:induction false} AllSuccesses(n: nat)
    ensures CountSuccess(seq(n, _ => Success)) == n
  {
    if n > 0 {
      assert seq(n, _ => Success)[..n - 1] == seq(n - 1, _ => Success);
      AllSuccesses(n - 1);
    }
  }

  lemma {:induction false} NoSuccesses(failures: seq<bool>)
    ensures |FailureItems(failures)| == |failures| && CountSuccess(FailureItems(failures)) == 0
  {
    if failures != [] {
      var f := failures[..|failures| - 1];
      NoSuccesses(f);
      assert FailureItems(failures)[..|failures| - 1] == FailureItems(f);
    }
  }

  lemma ItemsCount(r: OpResult)
    ensures |ItemsOf(r)| == (if r.error then 1 else 0) + r.done + |r.failures|
    ensures CountSuccess(ItemsOf(r)) == r.done
  {
    var head := if r.error then [Failure] else [];
    assert CountSuccess(head) == 0;
    SuccessesAdd(head, seq(r.done, _ => Success));
    SuccessesAdd(head + seq(r.done, _ => Success), FailureItems(r.failures));
    AllSuccesses(r.done);
    NoSuccesses(r.failures);
  }

  /** The counters of an ended job add up, and its status says what they say. */
  ghost predicate EndedWell(job: Job) {
    && job.total > 0
    && job.processed == |job.items| == job.success + job.failed
    && job.success == CountSuccess(job.items)
    && (job.erred ==> job.status == AllFailed && job.processed == 1)
    && (!job.erred ==>
          && job.processed == job.total
          && (job.status == Completed <==> job.success == job.total)
          && (job.status == AllFailed <==> job.success == 0)
          && (job.status == Partial <==> 0 < job.success < job.total))
    && job.status in {Completed, Partial, AllFailed}
  }

  lemma EndsWell(r: Request, result: OpResult)
    requires Total(r) > 0 && Accountable(Total(r), result)
    ensures EndedWell(Ended(NewJob(r).(status := Running), result))
  {
    ItemsCount(result);
  }

  // ---------------------------------------------------------------------------------------------
  // The jobs
  // ---------------------------------------------------------------------------------------------

  function Current(w: Worker): seq<JobId> {
    if w.Idle? then [] else [w.job]
  }

  ghost predicate NoRepeats(s: seq<JobId>) {
    forall i, k :: 0 <= i < k < |s| ==> s[i] != s[k]
  }

  /** A job before the worker has started it. */
  ghost predicate Waiting(s: State, j: JobId) {
    j in s.pending || j in s.queue || s.worker == Got(j)
  }

  ghost predicate Busy(s: State, j: JobId) {
    s.worker == Announcing(j) || s.worker == Executing(j) || (s.worker.Ending? && s.worker.job == j)
  }

  ghost predicate Over(s: State, j: JobId) {
    s.worker == Telling(j) || s.worker == Closing(j) || j in s.finished
  }

  /** The job is as it was accepted but for its status, and its request is still there. */
  ghost predicate Accepted(s: State, j: JobId, status: Status) {
    && j in s.jobs && j in s.requests && Total(s.requests[j]) > 0
    && s.jobs[j] == NewJob(s.requests[j]).(status := status)
  }

  ghost predicate JobsInv(s: State) {
    && s.enqueued == s.finished + Current(s.worker) + s.queue
    && NoRepeats(s.enqueued)
    && (forall j :: j in s.pending ==> j !in s.enqueued)
    && (forall j :: j in s.jobs <==> j in s.pending || j in s.enqueued)
    && (forall j :: Waiting(s, j) ==> Accepted(s, j, Queued))
    && (forall j :: Busy(s, j) ==> Accepted(s, j, Running))
    && (s.worker.Ending? ==>
          s.worker.job in s.requests && Accountable(Total(s.requests[s.worker.job]), s.worker.result))
    && (forall j :: Over(s, j) ==> j in s.jobs && EndedWell(s.jobs[j]))
  }

  /** The operations report one outcome for each source of the request they were given. */
  ghost predicate Honest(s: State, a: Action) {
    a.Finish? && s.worker.Executing? && s.worker.job in s.requests ==>
      Accountable(Total(s.requests[s.worker.job]), a.result)
  }

  lemma WhereJobsAre(s: State, j: JobId)
    requires JobsInv(s) && j in s.jobs
    ensures Waiting(s, j) || Busy(s, j) || Over(s, j)
  {
    if j in s.enqueued {
      assert j in s.finished || j in Current(s.worker) || j in s.queue;
    }
  }

  /** A job is at one place only. */
  lemma OnePlace(s: State, j: JobId)
    requires JobsInv(s)
    ensures !(j in s.pending && j in s.queue) && !(j in s.finished && j in s.queue)
    ensures !s.worker.Idle? && s.worker.job == j ==> j !in s.pending && j !in s.queue && j !in s.finished
    ensures j in s.finished ==> j !in s.pending
  {
    var cur := Current(s.worker);
    assert forall x :: x in s.enqueued <==> x in s.finished || x in cur || x in s.queue;
    forall i, k | 0 <= i < |s.finished| && 0 <= k < |s.queue| ensures s.finished[i] != s.queue[k] {
      assert s.enqueued[i] == s.finished[i] && s.enqueued[|s.finished| + |cur| + k] == s.queue[k];
    }
    if !s.worker.Idle? {
      assert s.enqueued[|s.finished|] == s.worker.job;
      forall i | 0 <= i < |s.finished| ensures s.finished[i] != s.worker.job {
        assert s.enqueued[i] == s.finished[i];
      }
      forall k | 0 <= k < |s.queue| ensures s.queue[k] != s.worker.job {
        assert s.enqueued[|s.finished| + 1 + k] == s.queue[k];
      }
    }
  }

  lemma RegisterJobsInv(s: State, j: JobId, r: Request)
    requires JobsInv(s) && Enabled(s, Register(j, r))
    ensures JobsInv(Step(s, Register(j, r)))
  {
    var s' := Step(s, Register(j, r));
    assert j !in s.enqueued && j !in s.pending;
    assert forall x :: x in s.queue || x in s.finished || x in Current(s.worker) ==> x in s.enqueued;
    forall x | Waiting(s', x) ensures Accepted(s', x, Queued) {
      assert x != j ==> Waiting(s, x);
    }
    forall x | Busy(s', x) ensures Accepted(s', x, Running) {
      assert Busy(s, x) && x in Current(s.worker);
    }
    forall x | Over(s', x) ensures x in s'.jobs && EndedWell(s'.jobs[x]) {
      assert Over(s, x) && x in s.enqueued;
    }
  }

  lemma EnqueueJobsInv(s: State, j: JobId)
    requires JobsInv(s) && Enabled(s, Enqueue(j))
    ensures JobsInv(Step(s, Enqueue(j)))
  {
    var s' := Step(s, Enqueue(j));
    assert s'.enqueued == s'.finished + Current(s'.worker) + s'.queue;
    forall x | Waiting(s', x) ensures Accepted(s', x, Queued) {
      assert Waiting(s, x);
    }
    forall x | Busy(s', x) ensures Accepted(s', x, Running) {
      assert Busy(s, x);
    }
    forall x | Over(s', x) ensures EndedWell(s'.jobs[x]) {
      assert Over(s, x);
    }
  }

  lemma DequeueJobsInv(s: State)
    requires JobsInv(s) && Enabled(s, Dequeue)
    ensures JobsInv(Step(s, Dequeue))
  {
    var s' := Step(s, Dequeue);
    assert s.queue == [s.queue[0]] + s'.queue;
    assert s'.enqueued == s'.finished + Current(s'.worker) + s'.queue;
    forall x | Waiting(s', x) ensures Accepted(s', x, Queued) {
      assert Waiting(s, x);
    }
    forall x | Over(s', x) ensures x in s'.jobs && EndedWell(s'.jobs[x]) {
      assert Over(s, x);
    }
  }

  lemma StartJobInv(s: State)
    requires JobsInv(s) && s.worker.Got?
    ensures JobsInv(WorkStep(s))
  {
    var s' := WorkStep(s);
    var j := s.worker.job;
    OnePlace(s, j);
    assert Waiting(s, j);
    forall x | Waiting(s', x) ensures Accepted(s', x, Queued) {
      assert Waiting(s, x) && x != j;
    }
    forall x | Over(s', x) ensures x in s'.jobs && EndedWell(s'.jobs[x]) {
      assert Over(s, x) && x != j;
    }
  }

  lemma TellJobInv(s: State)
    requires JobsInv(s) && (s.worker.Announcing? || s.worker.Telling?)
    ensures JobsInv(WorkStep(s))
  {
    var s' := WorkStep(s);
    assert Busy(s, s.worker.job) || Over(s, s.worker.job);
    forall x | Waiting(s', x) ensures Accepted(s', x, Queued) {
      assert Waiting(s, x);
    }
    forall x | Busy(s', x) ensures Accepted(s', x, Running) {
      assert Busy(s, x);
    }
    forall x | Over(s', x) ensures x in s'.jobs && EndedWell(s'.jobs[x]) {
      assert Over(s, x);
    }
  }

  lemma EndJobInv(s: State)
    requires JobsInv(s) && s.worker.Ending?
    ensures JobsInv(WorkStep(s))
  {
    var s' := WorkStep(s);
    var j := s.worker.job;
    OnePlace(s, j);
    assert Busy(s, j);
    EndsWell(s.requests[j], s.worker.result);
    forall x | Waiting(s', x) ensures Accepted(s', x, Queued) {
      assert Waiting(s, x) && x != j;
    }
    forall x | Over(s', x) ensures x in s'.jobs && EndedWell(s'.jobs[x]) {
      assert x != j ==> Over(s, x);
    }
  }

  lemma CloseJobInv(s: State)
    requires JobsInv(s) && s.worker.Closing?
    ensures JobsInv(WorkStep(s))
  {
    var s' := WorkStep(s);
    assert s'.enqueued == s'.finished + Current(s'.worker) + s'.queue;
    forall x | Waiting(s', x) ensures Accepted(s', x, Queued) {
      assert Waiting(s, x);
    }
    forall x | Over(s', x) ensures x in s'.jobs && EndedWell(s'.jobs[x]) {
      assert Over(s, x);
    }
  }

  lemma WorkJobsInv(s: State)
    requires JobsInv(s) && Enabled(s, Work)
    ensures JobsInv(Step(s, Work))
  {
    match s.worker
    case Got(_) => StartJobInv(s);
    case Announcing(_) => TellJobInv(s);
    case Telling(_) => TellJobInv(s);
    case Ending(_, _) => EndJobInv(s);
    case Closing(_) => CloseJobInv(s);
  }

  lemma SameJobsInv(s: State, s': State)
    requires JobsInv(s)
    requires s'.jobs == s.jobs && s'.requests == s.requests && s'.pending == s.pending && s'.queue == s.queue
    requires s'.enqueued == s.enqueued && s'.finished == s.finished
    requires s'.worker == s.worker ||
             (s.worker.Executing? && s'.worker.Ending? && s'.worker.job == s.worker.job
              && s.worker.job in s.requests && Accountable(Total(s.requests[s.worker.job]), s'.worker.result))
    ensures JobsInv(s')
  {
    forall x | Waiting(s', x) ensures Waiting(s, x) {}
    forall x | Busy(s', x) ensures Busy(s, x) {}
    forall x | Over(s', x) ensures Over(s, x) {}
  }

  lemma StepJobsInv(s: State, a: Action)
    requires JobsInv(s) && Enabled(s, a) && Honest(s, a)
    ensures JobsInv(Step(s, a))
  {
    match a
    case Register(j, r) => RegisterJobsInv(s, j, r);
    case Enqueue(j) => EnqueueJobsInv(s, j);
    case Dequeue => DequeueJobsInv(s);
    case Work => WorkJobsInv(s);
    case Finish(result) =>
      assert Busy(s, s.worker.job);
      SameJobsInv(s, Step(s, a));
    case _ => SameJobsInv(s, Step(s, a));
  }

  ghost predicate Final(status: Status) {
    status in {Completed, Partial, AllFailed}
  }

  /** A job only goes from queued to running to one final status, and then does not change any more. */
  lemma StatusOnlyGoesOn(s: State, a: Action, j: JobId)
    requires JobsInv(s) && Enabled(s, a) && Honest(s, a) && j in s.jobs
    ensures j in Step(s, a).jobs
    ensures var old_, new_ := s.jobs[j], Step(s, a).jobs[j];
            || new_ == old_
            || (old_.status == Queued && new_ == old_.(status := Running))
            || (old_.status == Running && Final(new_.status))
  {
    WhereJobsAre(s, j);
    if a.Work? {
      OnePlace(s, s.worker.job);
      assert s.worker.Got? ==> Waiting(s, s.worker.job);
      assert s.worker.Ending? ==> Busy(s, s.worker.job);
      if s.worker.Ending? && j == s.worker.job {
        EndsWell(s.requests[j], s.worker.result);
      }
    }
  }

  /** When the worker looks for the request of a job, it is there. */
  lemma RequestIsThere(s: State)
    requires JobsInv(s) && s.worker.Executing?
    ensures s.worker.job in s.requests && Total(s.requests[s.worker.job]) == s.jobs[s.worker.job].total
  {
    assert Busy(s, s.worker.job);
  }

  // ---------------------------------------------------------------------------------------------
  // The channels
  // ---------------------------------------------------------------------------------------------

  /** How many rounds of notifications job j has had. */
  ghost function Rounds(s: State, j: JobId): nat {
    if s.worker == Closing(j) || j in s.finished then 2
    else if s.worker == Executing(j) || (s.worker.Ending? && s.worker.job == j) || s.worker == Telling(j) then 1
    else 0
  }

  ghost predicate Listed(s: State, c: ChanId) {
    exists j :: j in s.subs && c in s.subs[j]
  }

  /** A channel is on one list at most, and there once. */
  ghost predicate ListsApart(s: State) {
    && (forall j :: j in s.subs ==> NoRepeats(s.subs[j]))
    && (forall j, k, c :: j in s.subs && k in s.subs && c in s.subs[j] && c in s.subs[k] ==> j == k)
  }

  /** An open channel that got at most n updates. */
  ghost predicate OpenChan(l: Line, c: ChanId, n: nat) {
    && c in l.chans && !l.chans[c].closed
    && l.chans[c].taken <= |l.chans[c].sent| <= n
  }

  /** The last update on the channel is the one about the ended job. */
  ghost predicate Told(l: Line, c: ChanId, u: Update) {
    c in l.chans && l.chans[c].sent != [] && l.chans[c].sent[|l.chans[c].sent| - 1] == u
  }

  ghost predicate AudienceInv(s: State, j: JobId)
    requires j in s.audience
  {
    && (s.worker == Closing(j) || j in s.finished) && j in s.jobs
    && forall c :: c in s.audience[j] ==>
         && Told(s.line, c, UpdateOf(j, s.jobs[j]))
         && (if j in s.finished then s.line.chans[c].closed else j in s.subs && c in s.subs[j])
  }

  /** A channel on the list of j is open and got no more updates than there were rounds. */
  ghost predicate Subscribed(s: State, j: JobId, c: ChanId) {
    OpenChan(s.line, c, Rounds(s, j)) && c !in s.joining
  }

  ghost predicate ChansInv(s: State) {
    && !s.line.panicked && !s.line.dropped
    && ListsApart(s)
    && (forall j, c :: j in s.subs && c in s.subs[j] ==> Subscribed(s, j, c))
    && (forall c :: c in s.joining ==> OpenChan(s.line, c, 0))
    && (forall j :: j in s.audience ==> AudienceInv(s, j))
  }

  // Rounds of notifications

  lemma SendEffect(l: Line, c: ChanId, u: Update, n: nat)
    requires n < CHANNEL_CAPACITY && OpenChan(l, c, n)
    ensures var l' := Send(l, c, u);
            && l'.panicked == l.panicked && l'.dropped == l.dropped && l'.chans.Keys == l.chans.Keys
            && (forall x :: x in l.chans && x != c ==> l'.chans[x] == l.chans[x])
            && OpenChan(l', c, n + 1) && Told(l', c, u)
  {
  }

  lemma LastIsNew(cs: seq<ChanId>)
    requires NoRepeats(cs) && cs != []
    ensures var m := |cs| - 1;
            NoRepeats(cs[..m]) && cs[m] !in cs[..m] && forall c :: c in cs <==> c in cs[..m] || c == cs[m]
  {
    assert cs == cs[..|cs| - 1] + [cs[|cs| - 1]];
  }

  lemma {:induction false} SendAllEffect(l: Line, cs: seq<ChanId>, u: Update, n: nat)
    requires NoRepeats(cs) && n < CHANNEL_CAPACITY
    requires forall c :: c in cs ==> OpenChan(l, c, n)
    ensures var l' := SendAll(l, cs, u);
            && l'.panicked == l.panicked && l'.dropped == l.dropped && l'.chans.Keys == l.chans.Keys
            && (forall c :: c in l.chans && c !in cs ==> l'.chans[c] == l.chans[c])
            && (forall c :: c in cs ==> OpenChan(l', c, n + 1) && Told(l', c, u))
  {
    if cs != [] {
      var m := |cs| - 1;
      LastIsNew(cs);
      SendAllEffect(l, cs[..m], u, n);
      assert OpenChan(l, cs[m], n);
      SendEffect(SendAll(l, cs[..m], u), cs[m], u, n);
    }
  }

  lemma {:induction false} CloseAllEffect(l: Line, cs: seq<ChanId>, n: nat)
    requires NoRepeats(cs)
    requires forall c :: c in cs ==> OpenChan(l, c, n)
    ensures var l' := CloseAll(l, cs);
            && l'.panicked == l.panicked && l'.dropped == l.dropped && l'.chans.Keys == l.chans.Keys
            && (forall c :: c in l.chans && c !in cs ==> l'.chans[c] == l.chans[c])
            && (forall c :: c in cs ==> c in l.chans && c in l'.chans && l'.chans[c] == l.chans[c].(closed := true))
  {
    if cs != [] {
      var m := |cs| - 1;
      LastIsNew(cs);
      CloseAllEffect(l, cs[..m], n);
      assert OpenChan(l, cs[m], n);
    }
  }

  lemma {:induction false} RemoveFirstEffect(cs: seq<ChanId>, c: ChanId)
    requires NoRepeats(cs)
    ensures NoRepeats(RemoveFirst(cs, c))
    ensures forall x :: x in RemoveFirst(cs, c) <==> x in cs && x != c
  {
    if cs != [] {
      assert cs == [cs[0]] + cs[1..];
      assert cs[0] !in cs[1..];
      RemoveFirstEffect(cs[1..], c);
      var r := RemoveFirst(cs[1..], c);
      if cs[0] != c {
        assert forall k :: 0 <= k < |r| ==> r[k] in r;
      }
    }
  }

  /** The lists and channels are as before, and so is every notified job. */
  lemma SameChansInv(s: State, s': State)
    requires ChansInv(s)
    requires s'.line == s.line && s'.subs == s.subs && s'.joining == s.joining && s'.audience == s.audience
    requires forall j :: Rounds(s', j) == Rounds(s, j)
    requires forall j :: j in s.audience ==>
               j in s'.jobs && j in s.jobs && s'.jobs[j] == s.jobs[j]
               && (s'.worker == Closing(j) <==> s.worker == Closing(j)) && (j in s'.finished <==> j in s.finished)
    ensures ChansInv(s')
  {
    forall j, c | j in s'.subs && c in s'.subs[j] ensures Subscribed(s', j, c) {
      assert Subscribed(s, j, c);
    }
    forall j | j in s'.audience ensures AudienceInv(s', j) {
      assert AudienceInv(s, j);
    }
  }

  lemma NotInAudience(s: State, j: JobId)
    requires JobsInv(s) && ChansInv(s) && !s.worker.Idle? && s.worker.job == j && !s.worker.Closing?
    ensures j !in s.audience && j !in s.finished
  {
    OnePlace(s, j);
    assert j in s.audience ==> AudienceInv(s, j);
  }

  /** s' is s after a round of notifications of job j, the first or the second. */
  ghost predicate Round(s: State, s': State, j: JobId, u: Update) {
    && JobsInv(s) && ChansInv(s) && j !in s.audience && j !in s.finished && !s.worker.Closing?
    && Rounds(s, j) < CHANNEL_CAPACITY && Rounds(s', j) == Rounds(s, j) + 1
    && (forall k :: k != j ==> Rounds(s', k) == Rounds(s, k))
    && s'.line == SendAll(s.line, Subs(s, j), u)
    && s'.subs == s.subs && s'.joining == s.joining && s'.jobs == s.jobs && s'.finished == s.finished
  }

  lemma RoundSends(s: State, s': State, j: JobId, u: Update)
    requires Round(s, s', j, u)
    ensures !s'.line.panicked && !s'.line.dropped && s'.line.chans.Keys == s.line.chans.Keys
    ensures forall c :: c in s.line.chans && c !in Subs(s, j) ==> s'.line.chans[c] == s.line.chans[c]
    ensures forall c :: c in Subs(s, j) ==> OpenChan(s'.line, c, Rounds(s', j)) && Told(s'.line, c, u)
  {
    forall c | c in Subs(s, j) ensures OpenChan(s.line, c, Rounds(s, j)) {
      assert Subscribed(s, j, c);
    }
    SendAllEffect(s.line, Subs(s, j), u, Rounds(s, j));
  }

  lemma RoundLists(s: State, s': State, j: JobId, u: Update)
    requires Round(s, s', j, u)
    ensures forall k, c :: k in s'.subs && c in s'.subs[k] ==> Subscribed(s', k, c)
    ensures forall c :: c in s'.joining ==> OpenChan(s'.line, c, 0)
  {
    RoundSends(s, s', j, u);
    forall k, c | k in s.subs && c in s.subs[k] ensures Subscribed(s', k, c) {
      assert Subscribed(s, k, c);
      assert c in Subs(s, j) ==> k == j;
    }
    forall c | c in s.joining ensures OpenChan(s'.line, c, 0) {
      assert OpenChan(s.line, c, 0);
      assert c in Subs(s, j) ==> Subscribed(s, j, c);
    }
  }

  lemma RoundAudience(s: State, s': State, j: JobId, u: Update)
    requires Round(s, s', j, u)
    ensures forall k :: k in s.audience && k in s'.audience && s'.audience[k] == s.audience[k] ==> AudienceInv(s', k)
  {
    RoundSends(s, s', j, u);
    forall k | k in s.audience && k in s'.audience && s'.audience[k] == s.audience[k] ensures AudienceInv(s', k) {
      assert AudienceInv(s, k);
      forall c | c in s.audience[k] ensures c in s.line.chans && s'.line.chans[c] == s.line.chans[c] {
        assert Told(s.line, c, UpdateOf(k, s.jobs[k])) && s.line.chans[c].closed;
        assert c in Subs(s, j) ==> Subscribed(s, j, c);
      }
    }
  }

  lemma AnnounceChansInv(s: State)
    requires JobsInv(s) && ChansInv(s) && s.worker.Announcing?
    ensures ChansInv(WorkStep(s))
  {
    var j := s.worker.job;
    NotInAudience(s, j);
    assert Busy(s, j);
    RoundSends(s, WorkStep(s), j, RunningUpdate(j, s.jobs[j]));
    RoundLists(s, WorkStep(s), j, RunningUpdate(j, s.jobs[j]));
    RoundAudience(s, WorkStep(s), j, RunningUpdate(j, s.jobs[j]));
  }

  /** Who is told of the end is the audience. */
  lemma TellAudience(s: State)
    requires JobsInv(s) && ChansInv(s) && s.worker.Telling?
    ensures var s' := WorkStep(s);
            s.worker.job in s'.audience && AudienceInv(s', s.worker.job)
  {
    var j := s.worker.job;
    assert Over(s, j);
    NotInAudience(s, j);
    RoundSends(s, WorkStep(s), j, UpdateOf(j, s.jobs[j]));
  }

  lemma TellChansInv(s: State)
    requires JobsInv(s) && ChansInv(s) && s.worker.Telling?
    ensures ChansInv(WorkStep(s))
  {
    var j := s.worker.job;
    NotInAudience(s, j);
    assert Over(s, j);
    TellAudience(s);
    RoundSends(s, WorkStep(s), j, UpdateOf(j, s.jobs[j]));
    RoundLists(s, WorkStep(s), j, UpdateOf(j, s.jobs[j]));
    RoundAudience(s, WorkStep(s), j, UpdateOf(j, s.jobs[j]));
  }

  lemma CloseLists(s: State)
    requires JobsInv(s) && ChansInv(s) && s.worker.Closing?
    ensures var s' := WorkStep(s);
            && !s'.line.panicked && !s'.line.dropped
            && (forall k, c :: k in s'.subs && c in s'.subs[k] ==> Subscribed(s', k, c))
            && (forall c :: c in s'.joining ==> OpenChan(s'.line, c, 0))
            && (forall c :: c in s.line.chans && c !in Subs(s, s.worker.job) ==>
                              c in s'.line.chans && s'.line.chans[c] == s.line.chans[c])
            && (forall c :: c in Subs(s, s.worker.job) ==>
                              c in s.line.chans && c in s'.line.chans
                              && s'.line.chans[c] == s.line.chans[c].(closed := true))
  {
    var s' := WorkStep(s);
    var j := s.worker.job;
    var cs := Subs(s, j);
    OnePlace(s, j);
    forall c | c in cs ensures OpenChan(s.line, c, Rounds(s, j)) {
      assert Subscribed(s, j, c);
    }
    CloseAllEffect(s.line, cs, Rounds(s, j));
    forall k, c | k in s'.subs && c in s'.subs[k] ensures Subscribed(s', k, c) {
      assert Subscribed(s, k, c);
      assert c in cs ==> k == j;
    }
    forall c | c in s.joining ensures OpenChan(s'.line, c, 0) {
      assert OpenChan(s.line, c, 0);
      assert c in cs ==> Subscribed(s, j, c);
    }
  }

  lemma CloseChansInv(s: State)
    requires JobsInv(s) && ChansInv(s) && s.worker.Closing?
    ensures ChansInv(WorkStep(s))
  {
    var s' := WorkStep(s);
    var j := s.worker.job;
    CloseLists(s);
    OnePlace(s, j);
    forall k | k in s'.audience ensures AudienceInv(s', k) {
      assert AudienceInv(s, k);
      forall c | c in s.audience[k] ensures Told(s'.line, c, UpdateOf(k, s'.jobs[k])) && s'.line.chans[c].closed {
        assert Told(s.line, c, UpdateOf(k, s.jobs[k]));
        assert c in Subs(s, j) ==> Subscribed(s, j, c);
      }
    }
  }

  lemma WorkChansInv(s: State)
    requires JobsInv(s) && ChansInv(s) && Enabled(s, Work)
    ensures ChansInv(Step(s, Work))
  {
    match s.worker
    case Announcing(_) => AnnounceChansInv(s);
    case Telling(_) => TellChansInv(s);
    case Closing(_) => CloseChansInv(s);
    case _ => QuietChansInv(s);
  }

  lemma QuietRounds(s: State, j: JobId)
    requires JobsInv(s) && (s.worker.Got? || s.worker.Ending?)
    ensures Rounds(WorkStep(s), j) == Rounds(s, j)
  {
    assert Waiting(s, s.worker.job) || Busy(s, s.worker.job);
  }

  lemma QuietChansInv(s: State)
    requires JobsInv(s) && ChansInv(s) && (s.worker.Got? || s.worker.Ending?)
    ensures ChansInv(WorkStep(s))
  {
    NotInAudience(s, s.worker.job);
    assert Waiting(s, s.worker.job) || Busy(s, s.worker.job);
    forall j ensures Rounds(WorkStep(s), j) == Rounds(s, j) {
      QuietRounds(s, j);
    }
    forall j | j in s.audience ensures AudienceInv(s, j) && j != s.worker.job {}
    SameChansInv(s, WorkStep(s));
  }

  lemma LookChansInv(s: State, c: ChanId, j: JobId)
    requires ChansInv(s) && Enabled(s, Look(c, j))
    ensures ChansInv(Step(s, Look(c, j)))
  {
    var s' := Step(s, Look(c, j));
    forall k, x | k in s'.subs && x in s'.subs[k] ensures Subscribed(s', k, x) {
      assert Subscribed(s, k, x);
    }
    forall x | x in s'.joining ensures OpenChan(s'.line, x, 0) {
      assert x != c ==> OpenChan(s.line, x, 0);
    }
    forall k | k in s'.audience ensures AudienceInv(s', k) {
      assert AudienceInv(s, k);
      assert forall x :: x in s.audience[k] ==> Told(s.line, x, UpdateOf(k, s.jobs[k]));
    }
  }

  lemma JoinChansInv(s: State, c: ChanId)
    requires ChansInv(s) && Enabled(s, Join(c))
    ensures ChansInv(Step(s, Join(c)))
  {
    var s' := Step(s, Join(c));
    var j := s.joining[c];
    assert OpenChan(s.line, c, 0);
    forall k | k in s.subs ensures c !in s.subs[k] {
      assert c in s.subs[k] ==> Subscribed(s, k, c);
    }
    forall k, x | k in s'.subs && x in s'.subs[k] ensures Subscribed(s', k, x) {
      assert x != c ==> k in s.subs && x in s.subs[k] && Subscribed(s, k, x);
    }
    forall k | k in s'.audience ensures AudienceInv(s', k) {
      assert AudienceInv(s, k);
    }
  }

  lemma LeaveChansInv(s: State, c: ChanId, j: JobId)
    requires ChansInv(s)
    ensures ChansInv(Step(s, Leave(c, j)))
  {
    var s' := Step(s, Leave(c, j));
    if j in s.subs {
      RemoveFirstEffect(s.subs[j], c);
    }
    forall k, x | k in s'.subs && x in s'.subs[k] ensures Subscribed(s', k, x) {
      assert Subscribed(s, k, x);
    }
    forall k | k in s'.audience ensures AudienceInv(s', k) {
      assert AudienceInv(s, k);
    }
  }

  lemma TakeChansInv(s: State, c: ChanId)
    requires ChansInv(s) && Enabled(s, Take(c))
    ensures ChansInv(Step(s, Take(c)))
  {
    var s' := Step(s, Take(c));
    forall k, x | k in s'.subs && x in s'.subs[k] ensures Subscribed(s', k, x) {
      assert Subscribed(s, k, x);
    }
    forall x | x in s'.joining ensures OpenChan(s'.line, x, 0) {
      assert OpenChan(s.line, x, 0);
    }
    forall k | k in s'.audience ensures AudienceInv(s', k) {
      assert AudienceInv(s, k);
      assert forall x :: x in s.audience[k] ==> Told(s.line, x, UpdateOf(k, s.jobs[k]));
    }
  }

  lemma DequeueChansInv(s: State)
    requires JobsInv(s) && ChansInv(s) && Enabled(s, Dequeue)
    ensures ChansInv(Step(s, Dequeue))
  {
    OnePlace(s, s.queue[0]);
    forall j | j in s.audience ensures AudienceInv(s, j) {}
    SameChansInv(s, Step(s, Dequeue));
  }

  /** Steps that do not touch the channels. */
  lemma AsideChansInv(s: State, a: Action)
    requires JobsInv(s) && ChansInv(s) && Enabled(s, a) && (a.Register? || a.Enqueue? || a.Finish?)
    ensures ChansInv(Step(s, a))
  {
    forall j | j in s.audience ensures AudienceInv(s, j) {}
    SameChansInv(s, Step(s, a));
  }

  lemma StepChansInv(s: State, a: Action)
    requires JobsInv(s) && ChansInv(s) && Enabled(s, a)
    ensures ChansInv(Step(s, a))
  {
    match a
    case Work => WorkChansInv(s);
    case Look(c, j) => LookChansInv(s, c, j);
    case Join(c) => JoinChansInv(s, c);
    case Leave(c, j) => LeaveChansInv(s, c, j);
    case Take(c) => TakeChansInv(s, c);
    case Dequeue => DequeueChansInv(s);
    case _ => AsideChansInv(s, a);
  }

  // ---------------------------------------------------------------------------------------------
  // Runs
  // ---------------------------------------------------------------------------------------------

  ghost predicate Inv(s: State) {
    JobsInv(s) && ChansInv(s)
  }

  ghost predicate PossibleRun(s: State, run: seq<Action>)
    decreases |run|
  {
    run == [] || (Enabled(s, run[0]) && Honest(s, run[0]) && PossibleRun(Step(s, run[0]), run[1..]))
  }

  ghost function Run(s: State, run: seq<Action>): State
    requires PossibleRun(s, run)
    decreases |run|
  {
    if run == [] then s else Run(Step(s, run[0]), run[1..])
  }

  lemma {:induction false} RunKeepsInv(s: State, run: seq<Action>)
    requires PossibleRun(s, run)
    ensures Inv(s) ==> Inv(Run(s, run))
    decreases |run|
  {
    if run != [] && Inv(s) {
      StepJobsInv(s, run[0]);
      StepChansInv(s, run[0]);
      RunKeepsInv(Step(s, run[0]), run[1..]);
    }
  }

  lemma StartInv()
    ensures Inv(START)
  {
  }

  /**
   In every run jobs are finished in the order in which they were queued, each once, and the counters
   and the status of a finished job say what became of its sources.
   */
  lemma JobsAreDoneOnceInOrder(run: seq<Action>)
    requires PossibleRun(START, run)
    ensures var s := Run(START, run);
            && s.finished <= s.enqueued && NoRepeats(s.enqueued)
            && (forall j :: j in s.finished ==> j in s.jobs && EndedWell(s.jobs[j]))
            && (s.pending == {} && s.queue == [] && s.worker.Idle? ==>
                  s.finished == s.enqueued && forall j :: j in s.jobs ==> j in s.finished)
  {
    StartInv();
    RunKeepsInv(START, run);
    var s := Run(START, run);
    forall j | j in s.finished ensures j in s.jobs && EndedWell(s.jobs[j]) {
      assert Over(s, j);
    }
    if s.worker.Idle? {
      assert s.enqueued == s.finished + s.queue;
    }
  }

  /**
   In every run no channel is sent to after it was closed, or closed twice, and no update is dropped;
   and when a job is finished, every channel that was on its list at the last notification and did not
   leave has got the final update last and is closed.
   */
  lemma ChannelsAreSafe(run: seq<Action>)
    requires PossibleRun(START, run)
    ensures var s := Run(START, run);
            && !s.line.panicked && !s.line.dropped
            && forall j, c :: j in s.finished && j in s.audience && c in s.audience[j] ==>
                 && j in s.jobs && c in s.line.chans && s.line.chans[c].closed
                 && Told(s.line, c, UpdateOf(j, s.jobs[j]))
  {
    StartInv();
    RunKeepsInv(START, run);
    var s := Run(START, run);
    forall j, c | j in s.finished && j in s.audience && c in s.audience[j]
      ensures j in s.jobs && c in s.line.chans && s.line.chans[c].closed && Told(s.line, c, UpdateOf(j, s.jobs[j]))
    {
      assert AudienceInv(s, j);
    }
  }

  /** Channel c is on the list of job j until the last notification, and among those notified from then on. */
  ghost predicate Follows(s: State, j: JobId, c: ChanId) {
    if s.worker == Closing(j) || j in s.finished then j in s.audience && c in s.audience[j] else c in Subs(s, j)
  }

  lemma LeavingKeepsOthers(cs: seq<ChanId>, c: ChanId, other: ChanId)
    requires c in cs && c != other
    ensures c in RemoveFirst(cs, other)
  {
    if cs[0] != c && cs[0] != other {
      LeavingKeepsOthers(cs[1..], c, other);
    }
  }

  lemma StepFollows(s: State, a: Action, j: JobId, c: ChanId)
    requires Inv(s) && Enabled(s, a) && Follows(s, j, c) && a != Leave(c, j)
    ensures Follows(Step(s, a), j, c)
  {
    match a
    case Work => WorkFollows(s, j, c);
    case Leave(other, k) => LeaveFollows(s, j, c, other, k);
    case Dequeue => OnePlace(s, s.queue[0]);
    case _ =>
  }

  lemma LeaveFollows(s: State, j: JobId, c: ChanId, other: ChanId, k: JobId)
    requires Follows(s, j, c) && (other != c || k != j)
    ensures Follows(Step(s, Leave(other, k)), j, c)
  {
    if k == j && c in Subs(s, j) {
      LeavingKeepsOthers(Subs(s, j), c, other);
    }
  }

  lemma WorkFollows(s: State, j: JobId, c: ChanId)
    requires Inv(s) && !s.worker.Idle? && !s.worker.Executing? && Follows(s, j, c)
    ensures Follows(WorkStep(s), j, c)
  {
    OnePlace(s, s.worker.job);
    if s.worker.Telling? {
      assert Over(s, s.worker.job);
    }
  }

  lemma {:induction false} RunFollows(s: State, run: seq<Action>, j: JobId, c: ChanId)
    requires PossibleRun(s, run)
    ensures Inv(s) && Follows(s, j, c) && Leave(c, j) !in run ==> Follows(Run(s, run), j, c)
    decreases |run|
  {
    if run != [] && Inv(s) && Follows(s, j, c) && Leave(c, j) !in run {
      StepFollows(s, run[0], j, c);
      StepJobsInv(s, run[0]);
      StepChansInv(s, run[0]);
      RunFollows(Step(s, run[0]), run[1..], j, c);
    }
  }

  /**
   Whoever is on the list of a job before its last notification and does not leave has got the final
   update, after all others, and a closed channel when the job is finished.
   */
  lemma SubscribersGetTheFinalUpdate(run: seq<Action>, more: seq<Action>, j: JobId, c: ChanId)
    requires PossibleRun(START, run) && PossibleRun(Run(START, run), more)
    ensures var s, s' := Run(START, run), Run(Run(START, run), more);
            c in Subs(s, j) && s.worker != Closing(j) && j !in s.finished && Leave(c, j) !in more
            && j in s'.finished ==>
              && j in s'.jobs && c in s'.line.chans && s'.line.chans[c].closed
              && Told(s'.line, c, UpdateOf(j, s'.jobs[j]))
  {
    var s := Run(START, run);
    StartInv();
    RunKeepsInv(START, run);
    RunKeepsInv(s, more);
    RunFollows(s, more, j, c);
    var s' := Run(s, more);
    if j in s'.audience {
      assert AudienceInv(s', j);
    }
  }

  // ---------------------------------------------------------------------------------------------
  // The worker gets on
  // ---------------------------------------------------------------------------------------------

  /** Two steps after it took a job from the queue the worker executes it. */
  lemma QueuedJobsStart(s: State)
    requires Inv(s) && s.worker.Idle? && s.queue != []
    ensures var s' := WorkStep(WorkStep(Step(s, Dequeue)));
            && s'.worker == Executing(s.queue[0]) && s.queue == [s.queue[0]] + s'.queue
            && s.queue[0] in s'.jobs && s'.jobs[s.queue[0]].status == Running
  {
    assert s.queue[0] in s.enqueued;
  }

  lemma ResultIsTold(s: State, result: OpResult)
    requires Inv(s) && s.worker.Executing? && Honest(s, Finish(result))
    ensures var j, s' := s.worker.job, WorkStep(WorkStep(Step(s, Finish(result))));
            && Inv(s') && s'.worker == Closing(j) && s'.finished == s.finished && Subs(s', j) == Subs(s, j)
            && j !in s'.requests && j in s'.jobs && s'.jobs[j].items == ItemsOf(result) && Final(s'.jobs[j].status)
  {
    var j := s.worker.job;
    assert Busy(s, j);
    var s1 := Step(s, Finish(result));
    StepJobsInv(s, Finish(result));
    StepChansInv(s, Finish(result));
    StepJobsInv(s1, Work);
    StepChansInv(s1, Work);
    EndedNext(s1, j, result);
    var s2 := WorkStep(s1);
    assert Over(s2, j);
    StepJobsInv(s2, Work);
    StepChansInv(s2, Work);
  }

  lemma EndedNext(s: State, j: JobId, result: OpResult)
    requires s.worker == Ending(j, result) && j in s.jobs
    ensures var s' := WorkStep(s);
            && s'.worker == Telling(j) && s'.finished == s.finished && s'.subs == s.subs && j !in s'.requests
            && j in s'.jobs && s'.jobs[j].items == ItemsOf(result)
  {
  }

  /** Three steps after the operation returned the job is over, its channels are closed and the worker is idle. */
  lemma ExecutedJobsEnd(s: State, result: OpResult)
    requires Inv(s) && s.worker.Executing? && Honest(s, Finish(result))
    ensures var j, s' := s.worker.job, WorkStep(WorkStep(WorkStep(Step(s, Finish(result)))));
            && s'.worker.Idle? && s'.finished == s.finished + [j] && j !in s'.subs && j !in s'.requests
            && j in s'.jobs && s'.jobs[j].items == ItemsOf(result) && Final(s'.jobs[j].status)
            && forall c :: c in Subs(s, j) ==> c in s'.line.chans && s'.line.chans[c].closed
  {
    ResultIsTold(s, result);
    CloseLists(WorkStep(WorkStep(Step(s, Finish(result)))));
  }
}
