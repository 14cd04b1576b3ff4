/** The operations account for every source of the job they are run for. */
module JobResults {
  import opened Wrappers
  import opened Names
  import opened FileTree
  import opened Conflict
  import opened Operations
  import opened Outcomes
  import Disks
  import Trash
  import opened Deleting
  import opened Jobs
  import opened JobRuns

  /** The words, in lower case, of a source that was not transferred; those of errors come from outside. */
  type Words = Failure<Path, Operations.Reason> -> string

  function Reason(failure: Failure<Path, Operations.Reason>, words: Words): string {
    if failure.reason == SkippedExisting then "skipped: target already exists" else words(failure)
  }

  /** Whether a source counts as skipped goes by the words of its reason. */
  function Skips(failed: seq<Failure<Path, Operations.Reason>>, words: Words): seq<bool> {
    seq(|failed|, i requires 0 <= i < |failed| => Contains(Reason(failed[i], words), "skipped"))
  }

  /** What the worker makes of the answer of a move or a copy. */
  function TransferResult(r: Result<Response, RequestError>, words: Words): OpResult {
    match r
    case Err(_) => OpResult(true, 0, [])
    case Ok(response) => OpResult(false, |response.done|, Skips(response.failed, words))
  }

  function DeleteResult(r: Report<string, Why>): OpResult {
    OpResult(false, |r.done|, seq(|r.failed|, _ => false))
  }

  lemma {:induction false} FailuresAre(failures: seq<bool>, k: nat)
    ensures |FailureItems(failures)| == |failures|
    ensures k < |failures| ==>
              FailureItems(failures)[k] == if failures[k] then ItemStatus.Skipped else ItemStatus.Failure
  {
    if failures != [] {
      FailuresAre(failures[..|failures| - 1], if k < |failures| - 1 then k else 0);
    }
  }

  ghost function ItemOf(failure: Failure<Path, Operations.Reason>, words: Words): ItemStatus {
    if failure.reason == SkippedExisting || HasPart(words(failure), "skipped") then ItemStatus.Skipped
    else ItemStatus.Failure
  }

  /**
   The items of a job: a success for each source that is done, then a skip or a failure for each of the
   others.  A source is a skip exactly when its target exists under skip, or when the words of its error
   contain "skipped", as they can when they name its path.  An error as a whole is one failure.
   */
  lemma ItemsAreOutcomes(r: Result<Response, RequestError>, words: Words)
    ensures var items := ItemsOf(TransferResult(r, words));
            match r
            case Err(_) => items == [ItemStatus.Failure]
            case Ok(response) =>
              && |items| == |response.done| + |response.failed|
              && (forall k :: 0 <= k < |response.done| ==> items[k] == Success)
              && forall k :: 0 <= k < |response.failed| ==>
                   items[|response.done| + k] == ItemOf(response.failed[k], words)
  {
    if r.Ok? {
      var failed := r.value.failed;
      FailuresAre(Skips(failed, words), 0);
      forall k: nat | k < |failed| ensures FailureItems(Skips(failed, words))[k] == ItemOf(failed[k], words) {
        FailuresAre(Skips(failed, words), k);
        ContainsIsHasPart(Reason(failed[k], words), "skipped");
        assert PartAt("skipped: target already exists", "skipped", 0);
      }
    }
  }

  lemma MoveIsAccountable(t: Tree, sources: seq<Path>, destination: Path, policy: Option<Policy>, words: Words)
    ensures Accountable(|sources|, TransferResult(MoveRequest(t, sources, destination, policy).1, words))
  {
    var r := MoveRequest(t, sources, destination, policy).1;
    if r.Ok? {
      MoveRecordsEachSource(Disks.MkdirAllOf(t, destination).value, sources, destination, policy.value);
    }
  }

  lemma CopyIsAccountable(t: Tree, sources: seq<Path>, destination: Path, policy: Option<Policy>, words: Words)
    ensures Accountable(|sources|, TransferResult(CopyRequest(t, sources, destination, policy).1, words))
  {
    var r := CopyRequest(t, sources, destination, policy).1;
    if r.Ok? {
      CopyRecordsEachSource(Disks.MkdirAllOf(t, destination).value, sources, destination, policy.value);
    }
  }

  lemma {:induction false} APIPathsCount(paths: seq<string>)
    ensures |APIPaths(paths)| == |paths|
  {
    if paths != [] {
      APIPathsCount(paths[..|paths| - 1]);
    }
  }

  lemma DeleteIsAccountable(root: Path, s: Trash.State, paths: seq<string>, envs: seq<Trash.DeleteEnv>)
    requires |paths| == |envs| && AllAsked(root, paths)
    ensures Accountable(|paths|, DeleteResult(DeleteAll(root, s, paths, envs).1))
  {
    DeleteRecordsEachPath(root, s, paths, envs);
    APIPathsCount(paths);
  }

  /** The answer of a request that is done, in so many items of which so many were transferred. */
  ghost predicate EndsAs(job: Job, r: Result<Response, RequestError>, items: nat) {
    && job.processed == job.success + job.failed
    && (r.Ok? ==> job.processed == items && (job.status == Completed <==> |r.value.done| == items))
    && (r.Err? ==> job.status == AllFailed)
  }

  /**
   So a job whose move reports no error ends with as many items as sources, and is completed exactly
   when every source was moved.
   */
  lemma MoveJobEndsWell(t: Tree, request: Request, destination: Path, policy: Option<Policy>, words: Words)
    requires request.kind == MoveJob && request.sources != []
    ensures var r := MoveRequest(t, request.sources, destination, policy).1;
            EndsAs(Ended(NewJob(request).(status := Running), TransferResult(r, words)), r, |request.sources|)
  {
    var r := MoveRequest(t, request.sources, destination, policy).1;
    MoveIsAccountable(t, request.sources, destination, policy, words);
    EndsWell(request, TransferResult(r, words));
    ItemsCount(TransferResult(r, words));
  }

  /** The same for a copy. */
  lemma CopyJobEndsWell(t: Tree, request: Request, destination: Path, policy: Option<Policy>, words: Words)
    requires request.kind == CopyJob && request.sources != []
    ensures var r := CopyRequest(t, request.sources, destination, policy).1;
            EndsAs(Ended(NewJob(request).(status := Running), TransferResult(r, words)), r, |request.sources|)
  {
    var r := CopyRequest(t, request.sources, destination, policy).1;
    CopyIsAccountable(t, request.sources, destination, policy, words);
    EndsWell(request, TransferResult(r, words));
    ItemsCount(TransferResult(r, words));
  }

  /** A deletion reports no error as a whole; its job is completed exactly when every path was deleted. */
  lemma DeleteJobEndsWell(root: Path, s: Trash.State, request: Request, envs: seq<Trash.DeleteEnv>)
    requires request.kind == DeleteJob && request.paths != []
    requires |request.paths| == |envs| && AllAsked(root, request.paths)
    ensures var r := DeleteAll(root, s, request.paths, envs).1;
            var job := Ended(NewJob(request).(status := Running), DeleteResult(r));
            && job.processed == job.success + job.failed == |request.paths|
            && (job.status == Completed <==> |r.done| == |request.paths|)
            && (job.status == AllFailed <==> r.done == [])
  {
    var r := DeleteAll(root, s, request.paths, envs).1;
    DeleteIsAccountable(root, s, request.paths, envs);
    EndsWell(request, DeleteResult(r));
    ItemsCount(DeleteResult(r));
  }
}
