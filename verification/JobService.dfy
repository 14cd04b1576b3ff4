/**
 The job service as an object.  Its methods run the steps of the machine one after the other; the
 machine interleaves them.  worker, joining, pending, enqueued, finished and audience stand for what
 goroutines hold on their own stacks and for the past, and are ghost.
 */
module JobServices {
  import opened Wrappers
  import opened Jobs
  import FileTree
  import Conflict
  import Paths

  /** A request for a job as the client sends it. */
  datatype Asked = Asked(operation: string, sources: seq<FileTree.Path>, paths: seq<string>,
                         destination: string, policy: string)

  datatype JobError = BadOperation | NothingToDo | NoDestination | BadPolicy

  function KindOf(operation: string): Option<Kind> {
    if operation == "copy" then Some(CopyJob)
    else if operation == "move" then Some(MoveJob)
    else if operation == "delete" then Some(DeleteJob)
    else None
  }

  /** The checks in their order; the first that fails gives the error. */
  function Checked(asked: Asked, lower: string -> string): Result<Request, JobError> {
    match KindOf(lower(Paths.TrimSpace(asked.operation)))
    case None => Err(BadOperation)
    case Some(kind) =>
      var request := Request(kind, asked.sources, asked.paths);
      if Total(request) == 0 then Err(NothingToDo)
      else if kind == DeleteJob then Ok(request)
      else if Paths.TrimSpace(asked.destination) == "" then Err(NoDestination)
      else if Conflict.ParsePolicy(asked.policy, lower) == None then Err(BadPolicy)
      else Ok(request)
  }

  /**
   What a request for a job has to have, in the order of the checks, and what is registered of it: the
   operation that its word names, with the sources of a copy or a move, or the paths of a deletion.
   */
  lemma CheckedRequests(asked: Asked, lower: string -> string)
    ensures var word, checked := lower(Paths.TrimSpace(asked.operation)), Checked(asked, lower);
            var items := if word == "delete" then |asked.paths| else |asked.sources|;
            if word !in {"copy", "move", "delete"} then checked == Err(BadOperation)
            else if items == 0 then checked == Err(NothingToDo)
            else if word != "delete" && Paths.TrimSpace(asked.destination) == "" then checked == Err(NoDestination)
            else if word != "delete"
                    && lower(Paths.TrimSpace(asked.policy)) !in {"", "rename", "overwrite", "skip"} then
              checked == Err(BadPolicy)
            else
              && checked.Ok? && checked.value.sources == asked.sources && checked.value.paths == asked.paths
              && checked.value.kind == if word == "copy" then CopyJob else if word == "move" then MoveJob else DeleteJob
  {
    Conflict.PolicyWords(asked.policy, lower);
  }

  /** Steps one after the other, each of which must be possible. */
  ghost function Then(s: Option<State>, a: Action): Option<State> {
    if s.Some? && Enabled(s.value, a) then Some(Step(s.value, a)) else None
  }

  lemma {:induction false} RemoveFirstAt(cs: seq<ChanId>, i: nat)
    requires i < |cs| && cs[i] !in cs[..i]
    ensures RemoveFirst(cs, cs[i]) == cs[..i] + cs[i + 1..]
  {
    if i > 0 {
      assert cs[1..][..i - 1] == cs[1..i];
      RemoveFirstAt(cs[1..], i - 1);
      assert cs[..i] + cs[i + 1..] == [cs[0]] + (cs[1..i] + cs[i + 1..]);
    }
  }

  lemma {:induction false} RemoveFirstAbsent(cs: seq<ChanId>, c: ChanId)
    requires c !in cs
    ensures RemoveFirst(cs, c) == cs
  {
    if cs != [] {
      RemoveFirstAbsent(cs[1..], c);
    }
  }

  class JobService {
    const lower: string -> string
    var jobs: map<JobId, Job>
    var requests: map<JobId, Request>
    var queue: seq<JobId>
    var subs: map<JobId, seq<ChanId>>
    var line: Line
    ghost var pending: set<JobId>
    ghost var worker: Worker
    ghost var joining: map<ChanId, JobId>
    ghost var enqueued: seq<JobId>
    ghost var finished: seq<JobId>
    ghost var audience: map<JobId, set<ChanId>>

    ghost function View(): State
      reads this
    {
      State(jobs, requests, pending, queue, worker, subs, joining, line, enqueued, finished, audience)
    }

    constructor (lower: string -> string)
      ensures View() == START && this.lower == lower
    {
      this.lower := lower;
      jobs, requests, queue, subs, line := map[], map[], [], map[], Line(map[], false, false);
      pending, worker, joining, enqueued, finished, audience := {}, Idle, map[], [], [], map[];
    }

    /**
     Registers and queues a request that passes the checks under a new id; Ok says whether the caller has
     to wait, with the job registered, because the queue is full.  EnterQueue is what happens when there
     is room.
     */
    method CreateOperationJob(id: JobId, asked: Asked) returns (waiting: Result<bool, JobError>)
      requires id !in jobs && id !in pending
      modifies this
      ensures var checked := Checked(asked, lower);
              match waiting
              case Err(error) => checked == Err(error) && View() == old(View())
              case Ok(waits) =>
                && checked.Ok? && waits == (|old(queue)| >= QUEUE_CAPACITY)
                && var registered := Then(Some(old(View())), Register(id, checked.value));
                   Some(View()) == if waits then registered else Then(registered, Enqueue(id))
    {
      var operation := lower(Paths.TrimSpace(asked.operation));
      if operation != "copy" && operation != "move" && operation != "delete" {
        return Err(BadOperation);
      }
      var total := |asked.sources|;
      if operation == "delete" {
        total := |asked.paths|;
      }
      if total == 0 {
        return Err(NothingToDo);
      }
      if operation == "copy" || operation == "move" {
        if Paths.TrimSpace(asked.destination) == "" {
          return Err(NoDestination);
        }
        if Conflict.ParsePolicy(asked.policy, lower) == None {
          return Err(BadPolicy);
        }
      }
      var request := Request(KindOf(operation).value, asked.sources, asked.paths);
      AddJob(id, request);
      if |queue| >= QUEUE_CAPACITY {
        return Ok(true);
      }
      EnterQueue(id);
      return Ok(false);
    }

    method AddJob(id: JobId, request: Request)
      requires id !in jobs && id !in pending && Total(request) > 0
      modifies this
      ensures Some(View()) == Then(Some(old(View())), Register(id, request))
      ensures id in pending && queue == old(queue)
    {
      jobs := jobs[id := NewJob(request)];
      requests := requests[id := request];
      pending := pending + {id};
    }

    method EnterQueue(id: JobId)
      requires id in pending && |queue| < QUEUE_CAPACITY
      modifies this
      ensures Some(View()) == Then(Some(old(View())), Enqueue(id))
    {
      queue := queue + [id];
      pending := pending - {id};
      enqueued := enqueued + [id];
    }

    /** A new channel on the list of the job, if there is such a job. */
    method Subscribe(j: JobId, c: ChanId) returns (ok: bool)
      requires c !in line.chans && c !in joining
      modifies this
      ensures ok == (j in jobs)
      ensures !ok ==> View() == old(View())
      ensures ok ==> Some(View()) == Then(Then(Some(old(View())), Look(c, j)), Join(c))
    {
      if j !in jobs {
        return false;
      }
      line := line.(chans := line.chans[c := Chan([], 0, false)]);
      subs := subs[j := (if j in subs then subs[j] else []) + [c]];
      assert joining[c := j] - {c} == joining;
      ok := true;
    }

    method Unsubscribe(j: JobId, c: ChanId)
      modifies this
      ensures View() == Step(old(View()), Leave(c, j))
    {
      audience := if j in audience then audience[j := audience[j] - {c}] else audience;
      if j !in subs {
        return;
      }
      var cs := subs[j];
      var i := 0;
      while i < |cs|
        invariant 0 <= i <= |cs| && c !in cs[..i]
        invariant View() == old(View()).(audience := audience)
      {
        if cs[i] == c {
          RemoveFirstAt(cs, i);
          subs := subs[j := cs[..i] + cs[i + 1..]];
          return;
        }
        i := i + 1;
      }
      RemoveFirstAbsent(cs, c);
      assert subs[j := cs] == subs;
    }

    method NotifySubscribers(j: JobId, u: Update)
      modifies this`line
      ensures line == SendAll(old(line), Subs(old(View()), j), u)
    {
      var cs := if j in subs then subs[j] else [];
      var i := 0;
      while i < |cs|
        invariant 0 <= i <= |cs|
        invariant line == SendAll(old(line), cs[..i], u)
      {
        assert cs[..i + 1][..i] == cs[..i];
        line := Send(line, cs[i], u);
        i := i + 1;
      }
      assert cs[..|cs|] == cs;
    }

    /** Closes the channels on the list of the job and drops the list. */
    method CloseSubscribers(j: JobId)
      requires worker == Closing(j)
      modifies this
      ensures View() == WorkStep(old(View()))
    {
      var cs := if j in subs then subs[j] else [];
      var i := 0;
      while i < |cs|
        invariant 0 <= i <= |cs|
        invariant View() == old(View()).(line := CloseAll(old(line), cs[..i]))
      {
        assert cs[..i + 1][..i] == cs[..i];
        line := Close(line, cs[i]);
        i := i + 1;
      }
      assert cs[..|cs|] == cs;
      subs := subs - {j};
      worker, finished := Idle, finished + [j];
    }

    /** Counts the items of an ended job. */
    method Tally(items: seq<ItemStatus>) returns (success: nat, failed: nat)
      ensures success == CountSuccess(items) && failed == |items| - success
    {
      success, failed := 0, 0;
      var i := 0;
      while i < |items|
        invariant 0 <= i <= |items|
        invariant success == CountSuccess(items[..i]) && failed == i - success
      {
        assert items[..i + 1][..i] == items[..i];
        if items[i] == Success {
          success := success + 1;
        } else {
          failed := failed + 1;
        }
        i := i + 1;
      }
      assert items[..|items|] == items;
    }

    /** Enters the result into the job. */
    method RecordResult(j: JobId, result: OpResult)
      requires j in jobs && worker == Ending(j, result)
      modifies this
      ensures View() == WorkStep(old(View())) && worker == Telling(j) && j in jobs
    {
      requests := requests - {j};
      var items := ItemsOf(result);
      var success, failed := Tally(items);
      var total := if jobs[j].total <= 0 then |items| else jobs[j].total;
      jobs := jobs[j := Job(total, FinalStatus(success, failed), items, |items|, success, failed, result.error)];
      worker := Telling(j);
    }

    method TellResult(j: JobId)
      requires j in jobs && worker == Telling(j)
      modifies this
      ensures View() == WorkStep(old(View())) && worker == Closing(j)
    {
      NotifySubscribers(j, UpdateOf(j, jobs[j]));
      audience := audience[j := set c | c in Subs(View(), j)];
      worker := Closing(j);
    }

    /** Records the result of the job, tells the subscribers and closes their channels. */
    method Finalize(j: JobId, result: OpResult)
      requires j in jobs && worker == Ending(j, result)
      modifies this
      ensures Some(View()) == Then(Then(Then(Some(old(View())), Work), Work), Work)
    {
      RecordResult(j, result);
      TellResult(j);
      CloseSubscribers(j);
    }

    method TakeNext() returns (j: JobId)
      requires worker == Idle && queue != []
      modifies this
      ensures j == old(queue)[0] && requests == old(requests) && jobs == old(jobs)
      ensures View() == Step(old(View()), Dequeue) && worker == Got(j)
    {
      j := queue[0];
      queue := queue[1..];
      worker := Got(j);
    }

    method MarkRunning(j: JobId)
      requires j in jobs && worker == Got(j)
      modifies this
      ensures View() == WorkStep(old(View())) && worker == Announcing(j) && j in jobs && requests == old(requests)
    {
      jobs := jobs[j := jobs[j].(status := Running)];
      worker := Announcing(j);
    }

    method TellRunning(j: JobId)
      requires j in jobs && worker == Announcing(j)
      modifies this
      ensures View() == WorkStep(old(View())) && worker == Executing(j) && requests == old(requests)
    {
      NotifySubscribers(j, RunningUpdate(j, jobs[j]));
      worker := Executing(j);
    }

    /** Takes the next job from the queue and announces it. */
    method Begin() returns (j: JobId, request: Option<Request>)
      requires worker == Idle && queue != [] && queue[0] in jobs
      modifies this
      ensures j == old(queue)[0]
      ensures Some(View()) == Then(Then(Then(Some(old(View())), Dequeue), Work), Work)
      ensures request == if j in old(requests) then Some(old(requests)[j]) else None
    {
      j := TakeNext();
      MarkRunning(j);
      TellRunning(j);
      request := if j in requests then Some(requests[j]) else None;
    }
  }
}
