/**
 The job queue: requests are registered, queued and worked off by one worker, and subscribers are told
 of the progress of a job on channels of their own.  Each step of the machine is one locked section,
 one channel operation, or one round of notifications.
 */
module Jobs {
  import opened FileTree

  type JobId = nat

  type ChanId = nat

  const QUEUE_CAPACITY: nat := 256
  const CHANNEL_CAPACITY: nat := 64

  datatype Status = Queued | Running | Completed | Partial | AllFailed

  datatype ItemStatus = Success | Failure | Skipped

  datatype Kind = CopyJob | MoveJob | DeleteJob

  /** An accepted request: a copy or a move has sources, a deletion has paths as the client sent them. */
  datatype Request = Request(kind: Kind, sources: seq<Path>, paths: seq<string>)

  function Total(r: Request): nat {
    if r.kind == DeleteJob then |r.paths| else |r.sources|
  }

  /** What an operation returned: an error, or the sources done and the others, marked when skipped. */
  datatype OpResult = OpResult(error: bool, done: nat, failures: seq<bool>)

  /** erred records that the operation returned an error. */
  datatype Job = Job(total: nat, status: Status, items: seq<ItemStatus>,
                     processed: nat, success: nat, failed: nat, erred: bool)

  datatype Update = Update(job: JobId, status: Status, processed: nat, total: nat, success: nat, failed: nat)

  /** All that was ever sent on a channel, how much of it was received, and whether it is closed. */
  datatype Chan = Chan(sent: seq<Update>, taken: nat, closed: bool)

  /** The channels, and whether one was ever used in a way that brings the program down. */
  datatype Line = Line(chans: map<ChanId, Chan>, panicked: bool, dropped: bool)

  /** Where the worker is; from Ending on it has the result of the job. */
  datatype Worker = Idle | Got(job: JobId) | Announcing(job: JobId) | Executing(job: JobId)
                  | Ending(job: JobId, result: OpResult) | Telling(job: JobId) | Closing(job: JobId)

  /**
   pending holds the jobs that are registered but not queued yet, joining the channels whose
   subscriber has seen the job but is not on its list yet.  enqueued and finished record the past, and
   audience who was on the list of a job at its last notification and has not left.
   */
  datatype State = State(
    jobs: map<JobId, Job>, requests: map<JobId, Request>, pending: set<JobId>, queue: seq<JobId>, worker: Worker,
    subs: map<JobId, seq<ChanId>>, joining: map<ChanId, JobId>, line: Line,
    enqueued: seq<JobId>, finished: seq<JobId>, audience: map<JobId, set<ChanId>>)

  // ---------------------------------------------------------------------------------------------
  // Jobs
  // ---------------------------------------------------------------------------------------------

  function NewJob(r: Request): Job {
    Job(Total(r), Queued, [], 0, 0, 0, false)
  }

  function FailureItems(failures: seq<bool>): seq<ItemStatus> {
    if failures == [] then []
    else FailureItems(failures[..|failures| - 1]) + [if failures[|failures| - 1] then Skipped else Failure]
  }

  function ItemsOf(r: OpResult): seq<ItemStatus> {
    (if r.error then [Failure] else []) + seq(r.done, _ => Success) + FailureItems(r.failures)
  }

  function CountSuccess(items: seq<ItemStatus>): nat {
    if items == [] then 0
    else CountSuccess(items[..|items| - 1]) + if items[|items| - 1].Success? then 1 else 0
  }

  function FinalStatus(success: nat, failed: nat): Status {
    if success == 0 && failed > 0 then AllFailed
    else if success > 0 && failed > 0 then Partial
    else Completed
  }

  function Ended(job: Job, r: OpResult): Job {
    var items := ItemsOf(r);
    var success := CountSuccess(items);
    CountSuccessBound(items);
    Job(if job.total <= 0 then |items| else job.total, FinalStatus(success, |items| - success), items,
        |items|, success, |items| - success, r.error)
  }

  lemma {:induction false} CountSuccessBound(items: seq<ItemStatus>)
    ensures CountSuccess(items) <= |items|
  {
    if items != [] {
      CountSuccessBound(items[..|items| - 1]);
    }
  }

  function UpdateOf(id: JobId, job: Job): Update {
    Update(id, job.status, job.processed, job.total, job.success, job.failed)
  }

  function RunningUpdate(id: JobId, job: Job): Update {
    Update(id, Running, 0, job.total, 0, 0)
  }

  // ---------------------------------------------------------------------------------------------
  // Channels
  // ---------------------------------------------------------------------------------------------

  /** Sending does not wait: a full channel misses the update; a closed one brings the program down. */
  function Send(l: Line, c: ChanId, u: Update): Line {
    if c !in l.chans then l
    else
      var ch := l.chans[c];
      if ch.closed then l.(panicked := true)
      else if |ch.sent| - ch.taken >= CHANNEL_CAPACITY then l.(dropped := true)
      else l.(chans := l.chans[c := ch.(sent := ch.sent + [u])])
  }

  function Close(l: Line, c: ChanId): Line {
    if c !in l.chans then l
    else if l.chans[c].closed then l.(panicked := true)
    else l.(chans := l.chans[c := l.chans[c].(closed := true)])
  }

  function SendAll(l: Line, cs: seq<ChanId>, u: Update): Line {
    if cs == [] then l else Send(SendAll(l, cs[..|cs| - 1], u), cs[|cs| - 1], u)
  }

  function CloseAll(l: Line, cs: seq<ChanId>): Line {
    if cs == [] then l else Close(CloseAll(l, cs[..|cs| - 1]), cs[|cs| - 1])
  }

  function Subs(s: State, j: JobId): seq<ChanId> {
    if j in s.subs then s.subs[j] else []
  }

  /** cs without the first occurrence of c. */
  function RemoveFirst(cs: seq<ChanId>, c: ChanId): seq<ChanId> {
    if cs == [] then [] else if cs[0] == c then cs[1..] else [cs[0]] + RemoveFirst(cs[1..], c)
  }

  // ---------------------------------------------------------------------------------------------
  // Steps
  // ---------------------------------------------------------------------------------------------

  datatype Action =
    | Register(job: JobId, request: Request)
    | Enqueue(job: JobId)
    | Dequeue
    | Work
    | Finish(result: OpResult)
    | Look(chan: ChanId, job: JobId)
    | Join(chan: ChanId)
    | Leave(chan: ChanId, job: JobId)
    | Take(chan: ChanId)

  /** A request is accepted when it has something to work on; job ids and channels are new. */
  predicate Enabled(s: State, a: Action) {
    match a
    case Register(j, r) => j !in s.jobs && Total(r) > 0
    case Enqueue(j) => j in s.pending && |s.queue| < QUEUE_CAPACITY
    case Dequeue => s.worker.Idle? && s.queue != []
    case Work => !s.worker.Idle? && !s.worker.Executing?
    case Finish(_) => s.worker.Executing?
    case Look(c, j) => c !in s.line.chans && j in s.jobs
    case Join(c) => c in s.joining
    case Leave(c, j) => true
    case Take(c) => c in s.line.chans && s.line.chans[c].taken < |s.line.chans[c].sent|
  }

  function WorkStep(s: State): State {
    match s.worker
    case Got(j) =>
      if j !in s.jobs then s.(worker := Idle)
      else s.(jobs := s.jobs[j := s.jobs[j].(status := Running)], worker := Announcing(j))
    case Announcing(j) =>
      if j !in s.jobs then s
      else s.(line := SendAll(s.line, Subs(s, j), RunningUpdate(j, s.jobs[j])), worker := Executing(j))
    case Ending(j, result) =>
      if j !in s.jobs then s.(worker := Idle)
      else s.(jobs := s.jobs[j := Ended(s.jobs[j], result)], requests := s.requests - {j}, worker := Telling(j))
    case Telling(j) =>
      if j !in s.jobs then s
      else s.(line := SendAll(s.line, Subs(s, j), UpdateOf(j, s.jobs[j])), worker := Closing(j),
              audience := s.audience[j := set c | c in Subs(s, j)])
    case Closing(j) =>
      s.(line := CloseAll(s.line, Subs(s, j)), subs := s.subs - {j}, worker := Idle, finished := s.finished + [j])
    case _ => s
  }

  function Step(s: State, a: Action): State
    requires Enabled(s, a)
  {
    match a
    case Register(j, r) =>
      s.(jobs := s.jobs[j := NewJob(r)], requests := s.requests[j := r], pending := s.pending + {j})
    case Enqueue(j) => s.(pending := s.pending - {j}, queue := s.queue + [j], enqueued := s.enqueued + [j])
    case Dequeue => s.(queue := s.queue[1..], worker := Got(s.queue[0]))
    case Work => WorkStep(s)
    case Finish(result) => s.(worker := Ending(s.worker.job, result))
    case Look(c, j) =>
      s.(joining := s.joining[c := j], line := s.line.(chans := s.line.chans[c := Chan([], 0, false)]))
    case Join(c) =>
      var j := s.joining[c];
      s.(joining := s.joining - {c}, subs := s.subs[j := Subs(s, j) + [c]])
    case Leave(c, j) =>
      s.(subs := if j in s.subs then s.subs[j := RemoveFirst(s.subs[j], c)] else s.subs,
         audience := if j in s.audience then s.audience[j := s.audience[j] - {c}] else s.audience)
    case Take(c) =>
      var ch := s.line.chans[c];
      s.(line := s.line.(chans := s.line.chans[c := ch.(taken := ch.taken + 1)]))
  }

  const START := State(map[], map[], {}, [], Idle, map[], map[], Line(map[], false, false), [], [], map[])
}
