/** Moving and copying lists of sources into a destination directory. */
module Operations {
  import opened Wrappers
  import opened FileTree
  import opened Disks
  import opened Conflict
  import opened Copying
  import opened Outcomes

  datatype Reason = RootPath | SkippedExisting | Unresolved(why: ConflictError) | Os(error: OsError)

  datatype Transfer = Transfer(from: Path, to: Path)

  datatype Outcome = Done(transfer: Transfer) | Fail(failure: Failure<Path, Reason>)

  datatype Response = Response(done: seq<Transfer>, failed: seq<Failure<Path, Reason>>)

  datatype RequestError = NoSources | InvalidPolicy | NoDestination(error: OsError)

  function Noted(r: Response, o: Outcome): Response {
    match o
    case Done(transfer) => r.(done := r.done + [transfer])
    case Fail(failure) => r.(failed := r.failed + [failure])
  }

  /** The destination joined with the last element of the source. */
  function TargetIn(destination: Path, source: Path): Path {
    if source == [] then destination else destination + [Last(source)]
  }

  // ---------------------------------------------------------------------------------------------
  // Move
  // ---------------------------------------------------------------------------------------------

  /** The rename of the storage layer, which first makes the directory of the new path. */
  function StoreRename(t: Tree, from: Path, to: Path): (Tree, Option<OsError>)
    requires to != []
  {
    match MkdirAllOf(t, Parent(to))
    case Err(error) => (t, Some(error))
    case Ok(t') =>
      match RenameOf(t', from, to)
      case Err(error) => (t', Some(error))
      case Ok(t'') => (t'', None)
  }

  ghost function MoveStep(t: Tree, source: Path, destination: Path, policy: Policy): (Tree, Outcome) {
    if source == [] then (t, Fail(Failure(source, RootPath)))
    else
      var target := TargetIn(destination, source);
      if source == target then (t, Done(Transfer(source, target)))
      else
        match ResolveOf(t, target, policy)
        case (t', Refused(error)) => (t', Fail(Failure(source, Unresolved(error))))
        case (t', Skipped) => (t', Fail(Failure(source, SkippedExisting)))
        case (t', Target(to)) =>
          match StoreRename(t', source, to)
          case (t'', Some(error)) => (t'', Fail(Failure(source, Os(error))))
          case (t'', None) => (t'', Done(Transfer(source, to)))
  }

  ghost function MoveAll(t: Tree, sources: seq<Path>, destination: Path, policy: Policy): (Tree, Response) {
    if sources == [] then (t, Response([], []))
    else
      var n := |sources| - 1;
      var (t', r) := MoveAll(t, sources[..n], destination, policy);
      var (t'', o) := MoveStep(t', sources[n], destination, policy);
      (t'', Noted(r, o))
  }

  method Rename(disk: Disk, from: Path, to: Path) returns (e: Option<OsError>)
    requires to != []
    modifies disk
    ensures (disk.tree, e) == StoreRename(old(disk.tree), from, to)
  {
    e := disk.MkdirAll(Parent(to));
    if e.None? {
      e := disk.Rename(from, to);
    }
  }

  method MoveOne(disk: Disk, source: Path, destination: Path, policy: Policy) returns (o: Outcome)
    modifies disk
    ensures (disk.tree, o) == MoveStep(old(disk.tree), source, destination, policy)
  {
    if source == [] {
      return Fail(Failure(source, RootPath));
    }
    var target := TargetIn(destination, source);
    if source == target {
      return Done(Transfer(source, target));
    }
    var r := ResolveConflictTarget(disk, target, policy);
    match r {
      case Refused(error) => o := Fail(Failure(source, Unresolved(error)));
      case Skipped => o := Fail(Failure(source, SkippedExisting));
      case Target(to) =>
        var e := Rename(disk, source, to);
        o := if e.Some? then Fail(Failure(source, Os(e.value))) else Done(Transfer(source, to));
    }
  }

  lemma MoveAllNext(t: Tree, sources: seq<Path>, i: nat, destination: Path, policy: Policy)
    requires i < |sources|
    ensures var (t', r) := MoveAll(t, sources[..i], destination, policy);
            var (t'', o) := MoveStep(t', sources[i], destination, policy);
            MoveAll(t, sources[..i + 1], destination, policy) == (t'', Noted(r, o))
  {
    assert sources[..i + 1][..i] == sources[..i];
  }

  /** The whole request: the checks, making the destination, then the sources in order. */
  ghost function MoveRequest(t: Tree, sources: seq<Path>, destination: Path, policy: Option<Policy>)
    : (Tree, Result<Response, RequestError>)
  {
    if sources == [] then (t, Err(NoSources))
    else if policy == None then (t, Err(InvalidPolicy))
    else
      match MkdirAllOf(t, destination)
      case Err(error) => (t, Err(NoDestination(error)))
      case Ok(t') => var (t'', r) := MoveAll(t', sources, destination, policy.value); (t'', Ok(r))
  }

  /** The loop over the sources. */
  method MoveSources(disk: Disk, sources: seq<Path>, destination: Path, policy: Policy) returns (result: Response)
    modifies disk
    ensures (disk.tree, result) == MoveAll(old(disk.tree), sources, destination, policy)
  {
    ghost var t := disk.tree;
    result := Response([], []);
    var i := 0;
    while i < |sources|
      invariant 0 <= i <= |sources|
      invariant (disk.tree, result) == MoveAll(t, sources[..i], destination, policy)
    {
      var o := MoveOne(disk, sources[i], destination, policy);
      result := Noted(result, o);
      MoveAllNext(t, sources, i, destination, policy);
      i := i + 1;
    }
    assert sources[..|sources|] == sources;
  }

  method Move(disk: Disk, sources: seq<Path>, destination: Path, policy: Option<Policy>)
    returns (r: Result<Response, RequestError>)
    modifies disk
    ensures (disk.tree, r) == MoveRequest(old(disk.tree), sources, destination, policy)
  {
    if sources == [] {
      return Err(NoSources);
    }
    if policy == None {
      return Err(InvalidPolicy);
    }
    var e := disk.MkdirAll(destination);
    if e.Some? {
      return Err(NoDestination(e.value));
    }
    var result := MoveSources(disk, sources, destination, policy.value);
    r := Ok(result);
  }

  // ---------------------------------------------------------------------------------------------
  // What a move keeps
  // ---------------------------------------------------------------------------------------------

  /** No content is lost or made, and nothing outside the subtree at `from`, if any, is touched. */
  ghost predicate Keeps(t: Tree, t': Tree, from: Option<Path>) {
    && WellFormed(t')
    && (forall v :: v != Dir ==> Count(t', v) == Count(t, v))
    && (forall p :: p in t && !(from.Some? && from.value <= p) ==> p in t' && t'[p] == t[p])
  }

  /** The path a step has actually taken away. */
  ghost function Taken(o: Outcome): Option<Path> {
    if o.Done? && o.transfer.from != o.transfer.to then Some(o.transfer.from) else None
  }

  lemma AddingDirsKeeps(t: Tree, t': Tree, p: Path)
    requires WellFormed(t') && OnlyAddsDirs(t, t', p)
    ensures Keeps(t, t', None)
  {
    forall v | v != Dir ensures Count(t', v) == Count(t, v) {
      OnlyAddsDirsKeepsCount(t, t', p, v);
    }
  }

  lemma StoreRenameKeeps(t: Tree, from: Path, to: Path)
    requires WellFormed(t) && to != [] && Free(t, to)
    ensures var (t', e) := StoreRename(t, from, to);
            && Keeps(t, t', if e.None? then Some(from) else None)
            && (e.None? ==> Subtree(t', to) == Subtree(t, from) && from in t)
            && (e.None? <==> from in t && !(from <= to))
  {
    MkdirAllMakes(t, Parent(to));
    var t1 := MkdirAllOf(t, Parent(to)).value;
    assert to !in t1;
    AddingDirsKeeps(t, t1, Parent(to));
    if from in t && !(from <= to) {
      RenameIsMoved(t1, from, to);
      MovedIsWellFormed(t1, from, to);
      MovedContents(t1, from, to);
      SubtreeApart(t, t1, from, Parent(to));
      var t' := Moved(t1, from, to);
      forall v ensures Count(t', v) == Count(t1, v) {
        MovedKeepsCount(t1, from, to, v);
      }
      assert forall p :: p in t ==> !(to <= p) by {
        AbsentIsVacant(t, to);
      }
    }
  }

  lemma MoveStepKeeps(t: Tree, source: Path, destination: Path, policy: Policy)
    requires WellFormed(t) && policy != Overwrite
    ensures var (t', o) := MoveStep(t, source, destination, policy);
            && Keeps(t, t', Taken(o))
            && (o.Done? && source != o.transfer.to ==>
                  Free(t, o.transfer.to) && Subtree(t', o.transfer.to) == Subtree(t, source))
  {
    if source != [] {
      var target := TargetIn(destination, source);
      AnsweredPathIsFree(t, target, policy);
      var (t1, r) := ResolveOf(t, target, policy);
      if source != target && r.Target? {
        StoreRenameKeeps(t, source, r.path);
      }
    }
  }

  /**
   Under the policies rename and skip, moving any list of sources, missing, repeated or nested ones
   included, keeps the multiset of file contents, and leaves every entry at its path that is not
   below a source that was taken.
   */
  lemma {:induction false} MoveLosesNothing(t: Tree, sources: seq<Path>, destination: Path, policy: Policy)
    requires WellFormed(t) && policy != Overwrite
    ensures var (t', r) := MoveAll(t, sources, destination, policy);
            && WellFormed(t')
            && (forall v :: v != Dir ==> Count(t', v) == Count(t, v))
            && (forall p :: p in t && (forall x :: x in r.done && x.from != x.to ==> !(x.from <= p)) ==>
                  p in t' && t'[p] == t[p])
  {
    if sources != [] {
      var n := |sources| - 1;
      MoveLosesNothing(t, sources[..n], destination, policy);
      var (t1, r1) := MoveAll(t, sources[..n], destination, policy);
      var (t2, o) := MoveStep(t1, sources[n], destination, policy);
      MoveStepKeeps(t1, sources[n], destination, policy);
      var r2 := Noted(r1, o);
      assert forall x :: x in r1.done ==> x in r2.done;
      assert o.Done? ==> o.transfer in r2.done;
    }
  }

  /** The same for the whole request, which makes the destination first; refused requests change nothing. */
  lemma MoveRequestLosesNothing(t: Tree, sources: seq<Path>, destination: Path, policy: Option<Policy>)
    requires WellFormed(t) && policy != Some(Overwrite)
    ensures var (t', r) := MoveRequest(t, sources, destination, policy);
            && WellFormed(t')
            && (r.Err? ==> t' == t)
            && (forall v :: v != Dir ==> Count(t', v) == Count(t, v))
            && (r.Ok? ==> forall p :: p in t && (forall x :: x in r.value.done && x.from != x.to ==> !(x.from <= p)) ==>
                  p in t' && t'[p] == t[p])
  {
    if sources != [] && policy.Some? && MkdirAllOf(t, destination).Ok? {
      var t1 := MkdirAllOf(t, destination).value;
      MkdirAllMakes(t, destination);
      AddingDirsKeeps(t, t1, destination);
      MoveLosesNothing(t1, sources, destination, policy.value);
    }
  }

  function TransferSources(s: seq<Transfer>): (paths: seq<Path>)
    ensures |paths| == |s|
  {
    if s == [] then [] else TransferSources(s[..|s| - 1]) + [s[|s| - 1].from]
  }

  lemma TransferredOnce(sources: seq<Path>, r: Response, source: Path, o: Outcome)
    requires OneOutcomeEach(sources, TransferSources(r.done), FailedPaths(r.failed))
    requires if o.Done? then o.transfer.from == source else o.failure.path == source
    ensures var r' := Noted(r, o);
            OneOutcomeEach(sources + [source], TransferSources(r'.done), FailedPaths(r'.failed))
  {
    match o
    case Done(transfer) => assert (r.done + [transfer])[..|r.done|] == r.done;
    case Fail(failure) => FailedOneMore(r.failed, failure);
  }

  lemma MoveStepIsAboutItsSource(t: Tree, source: Path, destination: Path, policy: Policy)
    ensures var o := MoveStep(t, source, destination, policy).1;
            if o.Done? then o.transfer.from == source else o.failure.path == source
  {
  }

  lemma {:induction false} MoveRecordsEachSource(t: Tree, sources: seq<Path>, destination: Path, policy: Policy)
    ensures var r := MoveAll(t, sources, destination, policy).1;
            OneOutcomeEach(sources, TransferSources(r.done), FailedPaths(r.failed))
  {
    if sources != [] {
      var n := |sources| - 1;
      assert sources[..n] + [sources[n]] == sources;
      MoveRecordsEachSource(t, sources[..n], destination, policy);
      var (t1, r1) := MoveAll(t, sources[..n], destination, policy);
      var (t2, o) := MoveStep(t1, sources[n], destination, policy);
      MoveStepIsAboutItsSource(t1, sources[n], destination, policy);
      TransferredOnce(sources[..n], r1, sources[n], o);
    }
  }

  lemma OverwriteResolution(t: Tree, target: Path)
    requires WellFormed(t) && target != [] && IsDir(t, Parent(target))
    ensures ResolveOf(t, target, Overwrite) == (Without(t, target), Target(target))
    ensures WellFormed(Without(t, target)) && IsDir(Without(t, target), Parent(target))
  {
    RootedParts(t, target);
    if Free(t, target) {
      AbsentIsVacant(t, target);
      assert Without(t, target) == t;
    }
  }

  /**
   Under the policy overwrite, what is lost is exactly the subtree at the target; and the source
   arrives there exactly when it exists, does not lie in that subtree and does not contain the
   destination.  Otherwise the old target is gone all the same.
   */
  lemma OverwriteLosesOnlyTheTarget(t: Tree, source: Path, destination: Path)
    requires WellFormed(t) && IsDir(t, destination) && source != []
    requires source != TargetIn(destination, source)
    ensures var target := TargetIn(destination, source);
            var (t', o) := MoveStep(t, source, destination, Overwrite);
            && (o.Done? <==> source in t && !(target <= source) && !(source <= destination))
            && (o.Done? ==> o.transfer.to == target && t' == Moved(Without(t, target), source, target)
                            && Subtree(t', target) == Subtree(t, source))
            && (o.Fail? ==> t' == Without(t, target))
            && (forall v :: Count(t', v) + Count(Subtree(t, target), v) == Count(t, v))
  {
    var target := TargetIn(destination, source);
    var cut := Without(t, target);
    assert Parent(target) == destination;
    OverwriteResolution(t, target);
    MkdirAllMakes(cut, destination);
    PrefixOfChild(source, destination, Last(source));
    forall v ensures Count(t, v) == Count(cut, v) + Count(Subtree(t, target), v) {
      CountSplit(t, target, v);
    }
    if source in cut && !(source <= target) {
      RenameIsMoved(cut, source, target);
      MovedContents(cut, source, target);
      forall v ensures Count(Moved(cut, source, target), v) == Count(cut, v) {
        MovedKeepsCount(cut, source, target, v);
      }
      SubtreeOutside(t, target, source);
    }
  }

  /** What a move with overwrite loses: the old target, unless the source is in its place already. */
  ghost function Lost(t: Tree, source: Path, destination: Path, v: Node): nat {
    var target := TargetIn(destination, source);
    if source == [] || source == target then 0 else Count(Subtree(t, target), v)
  }

  /** The same over a list, each target as it is when its turn comes. */
  ghost function LostAll(t: Tree, sources: seq<Path>, destination: Path, v: Node): nat {
    if sources == [] then 0
    else
      var n := |sources| - 1;
      LostAll(t, sources[..n], destination, v)
      + Lost(MoveAll(t, sources[..n], destination, Overwrite).0, sources[n], destination, v)
  }

  /** p lies at the target of one of the sources or below it. */
  ghost predicate AtTarget(sources: seq<Path>, destination: Path, p: Path) {
    exists s :: s in sources && TargetIn(destination, s) <= p
  }

  lemma OverwriteStep(t: Tree, source: Path, destination: Path)
    requires WellFormed(t) && IsDir(t, destination)
    ensures var (t', o) := MoveStep(t, source, destination, Overwrite);
            && WellFormed(t') && IsDir(t', destination)
            && (forall v :: Count(t', v) + Lost(t, source, destination, v) == Count(t, v))
            && (forall p :: p in t && !(TargetIn(destination, source) <= p)
                            && !(Taken(o).Some? && Taken(o).value <= p) ==>
                  p in t' && t'[p] == t[p])
  {
    var target := TargetIn(destination, source);
    if source != [] && source != target {
      var o := MoveStep(t, source, destination, Overwrite).1;
      OverwriteLosesOnlyTheTarget(t, source, destination);
      assert Parent(target) == destination;
      OverwriteResolution(t, target);
      if o.Done? {
        assert !(source <= target) by { PrefixOfChild(source, destination, Last(source)); }
        MovedIsWellFormed(Without(t, target), source, target);
        MovedContents(Without(t, target), source, target);
      }
    }
  }

  /**
   Under the policy overwrite, moving any list of sources loses the targets that were there when their
   turn came and nothing else, and leaves alone what is neither at a target nor below a moved source.
   */
  lemma {:induction false} OverwritesLoseOnlyTargets(t: Tree, sources: seq<Path>, destination: Path)
    requires WellFormed(t) && IsDir(t, destination)
    ensures var (t', r) := MoveAll(t, sources, destination, Overwrite);
            && WellFormed(t') && IsDir(t', destination)
            && (forall v :: Count(t', v) + LostAll(t, sources, destination, v) == Count(t, v))
            && (forall p :: p in t && !AtTarget(sources, destination, p)
                            && (forall x :: x in r.done && x.from != x.to ==> !(x.from <= p)) ==>
                  p in t' && t'[p] == t[p])
  {
    if sources != [] {
      var n := |sources| - 1;
      OverwritesLoseOnlyTargets(t, sources[..n], destination);
      var (t1, r1) := MoveAll(t, sources[..n], destination, Overwrite);
      OverwriteStep(t1, sources[n], destination);
      var (t2, o) := MoveStep(t1, sources[n], destination, Overwrite);
      assert forall x :: x in r1.done ==> x in Noted(r1, o).done;
      assert o.Done? ==> o.transfer in Noted(r1, o).done;
      forall p ensures AtTarget(sources, destination, p) <==>
                       AtTarget(sources[..n], destination, p) || TargetIn(destination, sources[n]) <= p {
        TargetsSoFar(sources, destination, p);
      }
    }
  }

  lemma TargetsSoFar(sources: seq<Path>, destination: Path, p: Path)
    requires sources != []
    ensures var n := |sources| - 1;
            AtTarget(sources, destination, p) <==>
            AtTarget(sources[..n], destination, p) || TargetIn(destination, sources[n]) <= p
  {
    var n := |sources| - 1;
    assert sources == sources[..n] + [sources[n]];
  }

  // ---------------------------------------------------------------------------------------------
  // Copy
  // ---------------------------------------------------------------------------------------------

  ghost function CopyStep(t: Tree, source: Path, destination: Path, policy: Policy): (Tree, Outcome) {
    match StatOf(t, source)
    case Failed(error) => (t, Fail(Failure(source, Os(error))))
    case Found(_) =>
      match ResolveOf(t, TargetIn(destination, source), policy)
      case (t', Refused(error)) => (t', Fail(Failure(source, Unresolved(error))))
      case (t', Skipped) => (t', Fail(Failure(source, SkippedExisting)))
      case (t', Target(to)) =>
        match CopyOf(t', source, to, SkippingLinks(Subtree(t', source)))
        case (t'', Some(error)) => (t'', Fail(Failure(source, Os(error))))
        case (t'', None) => (t'', Done(Transfer(source, to)))
  }

  ghost function CopyAll(t: Tree, sources: seq<Path>, destination: Path, policy: Policy): (Tree, Response) {
    if sources == [] then (t, Response([], []))
    else
      var n := |sources| - 1;
      var (t', r) := CopyAll(t, sources[..n], destination, policy);
      var (t'', o) := CopyStep(t', sources[n], destination, policy);
      (t'', Noted(r, o))
  }

  /** A source that contains the destination is copied into itself without end if there is a target for it. */
  ghost predicate StepReturns(t: Tree, source: Path, destination: Path, policy: Policy) {
    source in t && source <= destination ==> !ResolveOf(t, TargetIn(destination, source), policy).1.Target?
  }

  /** The copy of each source returns, when it comes to it. */
  ghost predicate AllReturn(t: Tree, sources: seq<Path>, destination: Path, policy: Policy) {
    sources == [] ||
    var n := |sources| - 1;
    && AllReturn(t, sources[..n], destination, policy)
    && StepReturns(CopyAll(t, sources[..n], destination, policy).0, sources[n], destination, policy)
  }

  /** As they do when no source contains the destination. */
  lemma {:induction false} ApartReturns(t: Tree, sources: seq<Path>, destination: Path, policy: Policy)
    requires forall s :: s in sources ==> !(s <= destination)
    ensures AllReturn(t, sources, destination, policy)
  {
    if sources != [] {
      var n := |sources| - 1;
      assert sources[n] in sources && forall s :: s in sources[..n] ==> s in sources;
      ApartReturns(t, sources[..n], destination, policy);
    }
  }

  lemma {:induction false} ReturnsUpTo(t: Tree, sources: seq<Path>, i: nat, destination: Path, policy: Policy)
    requires i < |sources| && AllReturn(t, sources, destination, policy)
    ensures StepReturns(CopyAll(t, sources[..i], destination, policy).0, sources[i], destination, policy)
  {
    var n := |sources| - 1;
    if i < n {
      var before := sources[..n];
      assert before[..i] == sources[..i] && before[i] == sources[i];
      ReturnsUpTo(t, before, i, destination, policy);
    } else {
      assert sources[..i] == sources[..n];
    }
  }

  lemma CopyTargetIsApart(t: Tree, source: Path, destination: Path, policy: Policy)
    requires WellFormed(t) && source in t && !(source <= destination)
    ensures var (t', r) := ResolveOf(t, TargetIn(destination, source), policy);
            && WellFormed(t')
            && (r.Target? ==>
                  && r.path != [] && Parent(r.path) == destination && Free(t', r.path)
                  && (source in t' ==> !(source <= r.path)))
  {
    var target := TargetIn(destination, source);
    AnsweredPathIsFree(t, target, policy);
    var (t', r) := ResolveOf(t, target, policy);
    if r.Target? {
      PrefixOfChild(source, destination, Last(r.path));
    }
    if r.Refused? || r.Skipped? {
      assert t' == t;
    }
  }

  /** Without a target nothing changes, and with one it lies apart from the source. */
  lemma CopyTarget(t: Tree, source: Path, destination: Path, policy: Policy)
    requires WellFormed(t) && source in t && StepReturns(t, source, destination, policy)
    ensures var (t', r) := ResolveOf(t, TargetIn(destination, source), policy);
            && WellFormed(t')
            && (!r.Target? ==> t' == t)
            && (r.Target? ==>
                  && !(source <= destination)
                  && r.path != [] && Parent(r.path) == destination && Free(t', r.path)
                  && (source in t' ==> !(source <= r.path)))
  {
    if !(source <= destination) {
      CopyTargetIsApart(t, source, destination, policy);
    }
  }

  method CopyOne(disk: Disk, source: Path, destination: Path, policy: Policy) returns (o: Outcome)
    requires WellFormed(disk.tree) && StepReturns(disk.tree, source, destination, policy)
    modifies disk
    ensures (disk.tree, o) == CopyStep(old(disk.tree), source, destination, policy)
    ensures WellFormed(disk.tree)
  {
    ghost var t := disk.tree;
    var info := disk.Stat(source);
    if info.Failed? {
      return Fail(Failure(source, Os(info.error)));
    }
    CopyTarget(t, source, destination, policy);
    var r := ResolveConflictTarget(disk, TargetIn(destination, source), policy);
    match r {
      case Refused(error) => o := Fail(Failure(source, Unresolved(error)));
      case Skipped => o := Fail(Failure(source, SkippedExisting));
      case Target(to) =>
        CopyKeepsWellFormed(disk.tree, source, to);
        var e := CopyRecursive(disk, source, to);
        o := if e.Some? then Fail(Failure(source, Os(e.value))) else Done(Transfer(source, to));
    }
  }

  lemma CopyKeepsWellFormed(t: Tree, source: Path, to: Path)
    requires WellFormed(t) && Free(t, to) && to != []
    ensures WellFormed(CopyOf(t, source, to, SkippingLinks(Subtree(t, source))).0)
  {
    MkdirAllMakes(t, Parent(to));
    if source in t && MkdirAllOf(t, Parent(to)).Ok? {
      var base := MkdirAllOf(t, Parent(to)).value;
      AbsentIsVacant(base, to);
      RootedParts(t, source);
      SubtreeRoot(t, source);
      RootedCopies(Subtree(t, source));
      RootedGraft(base, to, SkippingLinks(Subtree(t, source)));
    }
  }

  lemma CopyAllNext(t: Tree, sources: seq<Path>, i: nat, destination: Path, policy: Policy)
    requires i < |sources|
    ensures var (t', r) := CopyAll(t, sources[..i], destination, policy);
            var (t'', o) := CopyStep(t', sources[i], destination, policy);
            CopyAll(t, sources[..i + 1], destination, policy) == (t'', Noted(r, o))
  {
    assert sources[..i + 1][..i] == sources[..i];
  }

  /** The whole request: the checks, making the destination, then the sources in order. */
  ghost function CopyRequest(t: Tree, sources: seq<Path>, destination: Path, policy: Option<Policy>)
    : (Tree, Result<Response, RequestError>)
  {
    if sources == [] then (t, Err(NoSources))
    else if policy == None then (t, Err(InvalidPolicy))
    else
      match MkdirAllOf(t, destination)
      case Err(error) => (t, Err(NoDestination(error)))
      case Ok(t') => var (t'', r) := CopyAll(t', sources, destination, policy.value); (t'', Ok(r))
  }

  ghost predicate RequestReturns(t: Tree, sources: seq<Path>, destination: Path, policy: Option<Policy>) {
    sources != [] && policy.Some? && MkdirAllOf(t, destination).Ok? ==>
      AllReturn(MkdirAllOf(t, destination).value, sources, destination, policy.value)
  }

  /** The loop over the sources. */
  method CopySources(disk: Disk, sources: seq<Path>, destination: Path, policy: Policy) returns (result: Response)
    requires WellFormed(disk.tree) && AllReturn(disk.tree, sources, destination, policy)
    modifies disk
    ensures (disk.tree, result) == CopyAll(old(disk.tree), sources, destination, policy)
  {
    ghost var t := disk.tree;
    result := Response([], []);
    var i := 0;
    while i < |sources|
      invariant 0 <= i <= |sources|
      invariant WellFormed(disk.tree)
      invariant (disk.tree, result) == CopyAll(t, sources[..i], destination, policy)
    {
      ReturnsUpTo(t, sources, i, destination, policy);
      var o := CopyOne(disk, sources[i], destination, policy);
      result := Noted(result, o);
      CopyAllNext(t, sources, i, destination, policy);
      i := i + 1;
    }
    assert sources[..|sources|] == sources;
  }

  method Copy(disk: Disk, sources: seq<Path>, destination: Path, policy: Option<Policy>)
    returns (r: Result<Response, RequestError>)
    requires WellFormed(disk.tree) && RequestReturns(disk.tree, sources, destination, policy)
    modifies disk
    ensures (disk.tree, r) == CopyRequest(old(disk.tree), sources, destination, policy)
  {
    if sources == [] {
      return Err(NoSources);
    }
    if policy == None {
      return Err(InvalidPolicy);
    }
    MkdirAllMakes(disk.tree, destination);
    var e := disk.MkdirAll(destination);
    if e.Some? {
      return Err(NoDestination(e.value));
    }
    var result := CopySources(disk, sources, destination, policy.value);
    r := Ok(result);
  }

  // ---------------------------------------------------------------------------------------------
  // What a copy makes
  // ---------------------------------------------------------------------------------------------

  /** A step that copies puts one new subtree into the destination; any other changes nothing. */
  lemma CopyStepAddsOne(t: Tree, source: Path, destination: Path, policy: Policy)
    requires WellFormed(t) && IsDir(t, destination) && policy != Overwrite
    requires StepReturns(t, source, destination, policy)
    ensures var (t', o) := CopyStep(t, source, destination, policy);
            if o.Done? then
              && o.transfer.from == source && source in t && !(source <= destination)
              && o.transfer.to !in t && o.transfer.to != [] && Parent(o.transfer.to) == destination
              && t' == Graft(t, o.transfer.to, SkippingLinks(Subtree(t, source)))
              && WellFormed(t')
            else o.failure.path == source && t' == t
  {
    if source in t {
      CopyTarget(t, source, destination, policy);
      AnsweredPathIsFree(t, TargetIn(destination, source), policy);
      var r := ResolveOf(t, TargetIn(destination, source), policy).1;
      if r.Target? {
        CopyKeepsWellFormed(t, source, r.path);
        CopyBelowDirectory(t, source, r.path, SkippingLinks(Subtree(t, source)));
      }
    }
  }

  /** The copy is there, equal to its source, which does not contain the destination. */
  ghost predicate IsCopied(t: Tree, x: Transfer, destination: Path) {
    && x.from in t && !(x.from <= destination)
    && x.to in t && x.to != [] && Parent(x.to) == destination
    && Subtree(t, x.to) == SkippingLinks(Subtree(t, x.from))
  }

  lemma ApartFromNewEntry(t: Tree, at: Path, p: Path)
    requires WellFormed(t) && at !in t && at != [] && p in t && !(p <= Parent(at))
    ensures !(at <= p) && !(p <= at)
  {
    AbsentIsVacant(t, at);
    assert at == Parent(at) + [Last(at)];
    PrefixOfChild(p, Parent(at), Last(at));
  }

  lemma StaysCopied(t: Tree, x: Transfer, destination: Path, at: Path, s: Tree)
    requires WellFormed(t) && IsCopied(t, x, destination)
    requires at !in t && at != [] && Parent(at) == destination
    ensures IsCopied(Graft(t, at, s), x, destination)
  {
    assert |x.to| == |destination| + 1;
    ApartFromNewEntry(t, at, x.from);
    ApartFromNewEntry(t, at, x.to);
    GraftElsewhere(t, at, s, x.from);
    GraftElsewhere(t, at, s, x.to);
  }

  /** t' is t with new entries, all of them below new targets. */
  ghost predicate GrownBy(t: Tree, t': Tree, done: seq<Transfer>) {
    && (forall p :: p in t ==> p in t' && t'[p] == t[p])
    && (forall p :: p in t' && p !in t ==> exists x :: x in done && x.to <= p)
    && (forall x :: x in done ==> x.to !in t)
  }

  ghost predicate AllCopied(t: Tree, done: seq<Transfer>, destination: Path) {
    forall x :: x in done ==> IsCopied(t, x, destination)
  }

  lemma GrowsByOne(t: Tree, t1: Tree, done: seq<Transfer>, x: Transfer, s: Tree)
    requires Rooted(t1) && x.to !in t1 && GrownBy(t, t1, done)
    ensures GrownBy(t, Graft(t1, x.to, s), done + [x])
  {
    GraftOnlyAdds(t1, x.to, s);
    assert x in done + [x];
    forall p | p in t1 && p !in t ensures exists y :: y in done + [x] && y.to <= p {
      var y :| y in done && y.to <= p;
      assert y in done + [x];
    }
  }

  lemma OneMoreCopied(t: Tree, done: seq<Transfer>, destination: Path, x: Transfer)
    requires WellFormed(t) && AllCopied(t, done, destination)
    requires x.from in t && !(x.from <= destination)
    requires x.to !in t && x.to != [] && Parent(x.to) == destination
    ensures AllCopied(Graft(t, x.to, SkippingLinks(Subtree(t, x.from))), done + [x], destination)
  {
    forall y | y in done + [x] ensures IsCopied(Graft(t, x.to, SkippingLinks(Subtree(t, x.from))), y, destination) {
      if y in done {
        StaysCopied(t, y, destination, x.to, SkippingLinks(Subtree(t, x.from)));
      } else {
        NewlyCopied(t, x, destination);
      }
    }
  }

  lemma GraftOnlyAdds(t: Tree, at: Path, s: Tree)
    requires Rooted(t) && at !in t
    ensures forall p :: p in t ==> p in Graft(t, at, s) && Graft(t, at, s)[p] == t[p]
    ensures forall p :: p in Graft(t, at, s) && p !in t ==> at <= p
  {
    AbsentIsVacant(t, at);
  }

  lemma GraftRoot(t: Tree, at: Path, s: Tree, p: Path)
    requires p in t && Vacant(t, at)
    ensures at in Graft(t, at, SkippingLinks(Subtree(t, p))) && p in Graft(t, at, s)
  {
    SubtreeRoot(t, p);
    assert at[|at|..] == [];
  }

  lemma NewlyCopied(t: Tree, x: Transfer, destination: Path)
    requires WellFormed(t) && x.from in t && !(x.from <= destination)
    requires x.to !in t && x.to != [] && Parent(x.to) == destination
    ensures IsCopied(Graft(t, x.to, SkippingLinks(Subtree(t, x.from))), x, destination)
  {
    var s := SkippingLinks(Subtree(t, x.from));
    AbsentIsVacant(t, x.to);
    GraftThenCut(t, x.to, s);
    GraftRoot(t, x.to, s, x.from);
    PrefixOfChild(x.from, destination, Last(x.to));
    GraftElsewhere(t, x.to, s, x.from);
  }

  lemma CopyStepIsAboutItsSource(t: Tree, source: Path, destination: Path, policy: Policy)
    ensures var o := CopyStep(t, source, destination, policy).1;
            if o.Done? then o.transfer.from == source else o.failure.path == source
  {
  }

  lemma {:induction false} CopyRecordsEachSource(t: Tree, sources: seq<Path>, destination: Path, policy: Policy)
    ensures var r := CopyAll(t, sources, destination, policy).1;
            OneOutcomeEach(sources, TransferSources(r.done), FailedPaths(r.failed))
  {
    if sources != [] {
      var n := |sources| - 1;
      assert sources[..n] + [sources[n]] == sources;
      CopyRecordsEachSource(t, sources[..n], destination, policy);
      var (t1, r1) := CopyAll(t, sources[..n], destination, policy);
      var (t2, o) := CopyStep(t1, sources[n], destination, policy);
      CopyStepIsAboutItsSource(t1, sources[n], destination, policy);
      TransferredOnce(sources[..n], r1, sources[n], o);
    }
  }

  /**
   Under the policies rename and skip, a copy of any list of sources that returns keeps every entry that
   was there, adds only the reported targets, and leaves each target equal to its source without the
   symbolic links.
   */
  lemma {:induction false} CopyAddsExactlyTheCopies(t: Tree, sources: seq<Path>, destination: Path, policy: Policy)
    requires WellFormed(t) && IsDir(t, destination) && policy != Overwrite
    requires AllReturn(t, sources, destination, policy)
    ensures var (t', r) := CopyAll(t, sources, destination, policy);
            && WellFormed(t')
            && GrownBy(t, t', r.done)
            && AllCopied(t', r.done, destination)
  {
    if sources != [] {
      var n := |sources| - 1;
      CopyAddsExactlyTheCopies(t, sources[..n], destination, policy);
      var (t1, r1) := CopyAll(t, sources[..n], destination, policy);
      CopyStepAddsOne(t1, sources[n], destination, policy);
      var (t2, o) := CopyStep(t1, sources[n], destination, policy);
      if o.Done? {
        GrowsByOne(t, t1, r1.done, o.transfer, SkippingLinks(Subtree(t1, sources[n])));
        OneMoreCopied(t1, r1.done, destination, o.transfer);
      }
    }
  }

  /** t' is t with new entries, each a directory on the way to the destination or below a new target. */
  ghost predicate GrownTo(t: Tree, t': Tree, done: seq<Transfer>, destination: Path) {
    && (forall p :: p in t ==> p in t' && t'[p] == t[p])
    && (forall p :: p in t' && p !in t ==> (t'[p] == Dir && p <= destination) || BelowSome(done, p))
    && (forall x :: x in done ==> x.to !in t)
  }

  ghost predicate BelowSome(done: seq<Transfer>, p: Path) {
    exists x :: x in done && x.to <= p
  }

  lemma GrownInTwo(t: Tree, t1: Tree, t': Tree, done: seq<Transfer>, destination: Path)
    requires OnlyAddsDirs(t, t1, destination) && GrownBy(t1, t', done)
    ensures GrownTo(t, t', done, destination)
  {
    forall p | p in t' && p !in t ensures (t'[p] == Dir && p <= destination) || BelowSome(done, p) {
      if p in t1 {
        assert t'[p] == t1[p] == Dir;
      } else {
        assert exists x :: x in done && x.to <= p;
      }
    }
  }

  /** The same for the whole request, which makes the destination first; refused requests change nothing. */
  lemma CopyRequestAddsExactlyTheCopies(t: Tree, sources: seq<Path>, destination: Path, policy: Option<Policy>)
    requires WellFormed(t) && policy != Some(Overwrite) && RequestReturns(t, sources, destination, policy)
    ensures var (t', r) := CopyRequest(t, sources, destination, policy);
            && WellFormed(t')
            && (r.Err? ==> t' == t)
            && (forall p :: p in t ==> p in t' && t'[p] == t[p])
            && (r.Ok? ==> AllCopied(t', r.value.done, destination) && GrownTo(t, t', r.value.done, destination))
  {
    if sources != [] && policy.Some? && MkdirAllOf(t, destination).Ok? {
      MkdirAllMakes(t, destination);
      var t1 := MkdirAllOf(t, destination).value;
      CopyAddsExactlyTheCopies(t1, sources, destination, policy.value);
      var (t', r) := CopyAll(t1, sources, destination, policy.value);
      GrownInTwo(t, t1, t', r.done, destination);
    }
  }

  /**
   Under the policy overwrite a copy can destroy its own source: it succeeds exactly when the source
   is not in the subtree at the target, and otherwise that subtree, with the source, is gone.
   */
  lemma OverwritingCopyCanLoseItsSource(t: Tree, source: Path, destination: Path)
    requires WellFormed(t) && IsDir(t, destination) && source in t && !(source <= destination)
    ensures var target := TargetIn(destination, source);
            var (t', o) := CopyStep(t, source, destination, Overwrite);
            && (o.Done? <==> !(target <= source))
            && (o.Done? ==> o.transfer.to == target
                            && t' == Graft(Without(t, target), target, SkippingLinks(Subtree(t, source))))
            && (o.Fail? ==> t' == Without(t, target) && source !in t')
  {
    var target := TargetIn(destination, source);
    var cut := Without(t, target);
    assert Parent(target) == destination;
    OverwriteResolution(t, target);
    PrefixOfChild(source, destination, Last(source));
    if !(target <= source) {
      SubtreeOutside(t, target, source);
      CopyBelowDirectory(cut, source, target, SkippingLinks(Subtree(t, source)));
    }
  }

  /**
   Under the policy overwrite, a copy of any list of sources that returns touches nothing but the targets.
   */
  lemma {:induction false} OverwritingCopiesTouchOnlyTargets(t: Tree, sources: seq<Path>, destination: Path)
    requires WellFormed(t) && IsDir(t, destination) && AllReturn(t, sources, destination, Overwrite)
    ensures var t' := CopyAll(t, sources, destination, Overwrite).0;
            && WellFormed(t') && IsDir(t', destination)
            && (forall p :: !AtTarget(sources, destination, p) ==>
                  (p in t' <==> p in t) && (p in t ==> t'[p] == t[p]))
  {
    if sources != [] {
      var n := |sources| - 1;
      OverwritingCopiesTouchOnlyTargets(t, sources[..n], destination);
      OverwritingCopyStep(CopyAll(t, sources[..n], destination, Overwrite).0, sources[n], destination);
      forall p ensures AtTarget(sources, destination, p) <==>
                       AtTarget(sources[..n], destination, p) || TargetIn(destination, sources[n]) <= p {
        TargetsSoFar(sources, destination, p);
      }
    }
  }

  lemma CopyTargetOrNothing(t: Tree, source: Path, destination: Path)
    requires WellFormed(t) && StepReturns(t, source, destination, Overwrite)
    ensures (source in t && !(source <= destination)) || CopyStep(t, source, destination, Overwrite).0 == t
  {
    if source in t {
      CopyTarget(t, source, destination, Overwrite);
    }
  }

  lemma OverwritingCopyStep(t: Tree, source: Path, destination: Path)
    requires WellFormed(t) && IsDir(t, destination) && StepReturns(t, source, destination, Overwrite)
    ensures var t' := CopyStep(t, source, destination, Overwrite).0;
            && WellFormed(t') && IsDir(t', destination)
            && (forall p :: !(TargetIn(destination, source) <= p) ==>
                  (p in t' <==> p in t) && (p in t ==> t'[p] == t[p]))
  {
    CopyTargetOrNothing(t, source, destination);
    if source in t && !(source <= destination) {
      var target := TargetIn(destination, source);
      var cut := Without(t, target);
      OverwritingCopyCanLoseItsSource(t, source, destination);
      assert Parent(target) == destination;
      OverwriteResolution(t, target);
      if !(target <= source) {
        RootedParts(t, source);
        RootedCopies(Subtree(t, source));
        RootedGraft(cut, target, SkippingLinks(Subtree(t, source)));
      }
    }
  }

  /** Copying an entry into the directory it lies in, with overwrite, deletes it and fails. */
  lemma CopyOntoItselfDeletes(t: Tree, source: Path)
    requires WellFormed(t) && source in t && source != []
    ensures var (t', o) := CopyStep(t, source, Parent(source), Overwrite);
            t' == Without(t, source) && o.Fail?
  {
    assert source == Parent(source) + [Last(source)];
    assert IsDir(t, Parent(source)) && !(source <= Parent(source));
    OverwritingCopyCanLoseItsSource(t, source, Parent(source));
  }
}
