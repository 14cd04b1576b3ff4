/**
 When the recursive copy returns at all.  Here the recursion is run with a bound on its depth and
 without assuming anything about source and target; no answer means that the bound was reached.
 */
module CopyTermination {
  import opened Wrappers
  import opened Names
  import opened FileTree
  import opened Disks
  import opened Copying
  import opened Sets
  import opened Conflict
  import opened Operations
  import opened Outcomes

  type Answer = Option<(Tree, Option<OsError>)>

  /** The copy of one file. */
  ghost function RunFile(t: Tree, data: Bytes, target: Path): (Tree, Option<OsError>) {
    if target == [] then (t, Some(NotDirectory))
    else
      match MkdirAllOf(t, Parent(target))
      case Err(error) => (t, Some(error))
      case Ok(t') =>
        match WriteFileOf(t', target, data)
        case Err(error) => (t', Some(error))
        case Ok(t'') => (t'', None)
  }

  /** copyRecursive with at most n further levels of recursion. */
  ghost function RunCopy(n: nat, t: Tree, source: Path, target: Path): Answer
    decreases n, 1, 0
  {
    if source !in t then Some((t, Some(StatOf(t, source).error)))
    else if t[source] != Dir then Some(RunFile(t, t[source].data, target))
    else if MkdirAllOf(t, target).Err? then Some((t, Some(MkdirAllOf(t, target).error)))
    else if n == 0 then None
    else RunDirectory(n - 1, MkdirAllOf(t, target).value, source, target)
  }

  /** Its part for directories, after the target was made: the listing of the source is taken now. */
  ghost function RunDirectory(n: nat, t: Tree, source: Path, target: Path): Answer
    decreases n, 3, 0
  {
    RunEntries(n, t, Listing(ChildNames(t, source)), source, target)
  }

  /** Its loop over the entries of the source. */
  ghost function RunEntries(n: nat, t: Tree, names: seq<Name>, source: Path, target: Path): Answer
    decreases n, 2, |names|
  {
    if names == [] then Some((t, None))
    else
      var from, to := source + [names[0]], target + [names[0]];
      if from in t && t[from].Link? then RunEntries(n, t, names[1..], source, target)
      else
        match RunCopy(n, t, from, to)
        case None => None
        case Some((t', Some(error))) => Some((t', Some(error)))
        case Some((t', None)) => RunEntries(n, t', names[1..], source, target)
  }

  lemma DirectoryAnswer(n: nat, t: Tree, source: Path, target: Path, now: Tree, a: Answer)
    requires IsDir(t, source) && MkdirAllOf(t, target) == Ok(now)
    requires n > 0 && RunDirectory(n - 1, now, source, target) == a
    ensures RunCopy(n, t, source, target) == a
  {
  }

  // ---------------------------------------------------------------------------------------------
  // A copy into itself never returns
  // ---------------------------------------------------------------------------------------------

  /** t' is t with new entries at `at` and below only. */
  ghost predicate GrownAt(t: Tree, t': Tree, at: Path) {
    && WellFormed(t')
    && (forall q :: q in t ==> q in t' && t'[q] == t[q])
    && (forall q :: q in t' && q !in t ==> at <= q)
  }

  /** If there is an answer, it is success, and the tree has grown at the target only. */
  ghost predicate QuietAt(a: Answer, t: Tree, at: Path) {
    a.Some? ==> a.value.1 == None && GrownAt(t, a.value.0, at)
  }

  ghost predicate Pending(t: Tree, names: seq<Name>, source: Path, target: Path) {
    && WellFormed(t) && IsDir(t, target) && Increasing(names)
    && forall m :: m in names ==> source + [m] in t && target + [m] !in t
  }

  lemma SiblingsApart(dir: Path, a: Name, b: Name)
    ensures dir + [a] <= dir + [b] ==> a == b
  {
    if dir + [a] <= dir + [b] {
      assert (dir + [a])[|dir|] == (dir + [b])[|dir|];
    }
  }

  lemma PendingTail(t: Tree, t': Tree, names: seq<Name>, source: Path, target: Path)
    requires Pending(t, names, source, target) && names != []
    requires t' == t || GrownAt(t, t', target + [names[0]])
    ensures Pending(t', names[1..], source, target)
  {
    forall m | m in names[1..] ensures m in names && m != names[0] {
      var i :| 1 <= i < |names| && names[i] == m;
      LessTotal(names[0], names[i]);
    }
    forall m | m in names[1..] ensures target + [m] !in t' {
      SiblingsApart(target, names[0], m);
    }
  }

  lemma PendingStart(t: Tree, source: Path, target: Path)
    requires WellFormed(t) && IsDir(t, source) && target !in t && MkdirAllOf(t, target).Ok?
    ensures var t' := MkdirAllOf(t, target).value;
            Pending(t', Listing(ChildNames(t', source)), source, target)
  {
    var t' := MkdirAllOf(t, target).value;
    MkdirAllMakes(t, target);
    AbsentIsVacant(t, target);
    forall m ensures target + [m] !in t' {
      assert target <= target + [m];
      assert target + [m] <= target ==> false;
    }
  }

  lemma LeafIsQuiet(n: nat, t: Tree, source: Path, target: Path)
    requires WellFormed(t) && source in t && t[source] != Dir
    requires target != [] && target !in t && IsDir(t, Parent(target))
    ensures QuietAt(RunCopy(n, t, source, target), t, target)
  {
    var t' := t[target := File(t[source].data)];
    assert RunCopy(n, t, source, target) == Some((t', None));
    forall q | q in t' && q != [] ensures IsDir(t', Parent(q)) {
      assert q in t ==> IsDir(t, Parent(q));
    }
  }

  lemma {:induction false} CopyIsQuiet(n: nat, t: Tree, source: Path, target: Path)
    requires WellFormed(t) && source in t
    requires target != [] && target !in t && IsDir(t, Parent(target))
    ensures QuietAt(RunCopy(n, t, source, target), t, target)
    decreases n, 1, 0
  {
    MkdirAllMakes(t, target);
    if t[source] != Dir {
      LeafIsQuiet(n, t, source, target);
    } else if n > 0 {
      var t' := MkdirAllOf(t, target).value;
      PendingStart(t, source, target);
      EntriesAreQuiet(n - 1, t', Listing(ChildNames(t', source)), source, target);
    }
  }

  lemma {:induction false} EntriesAreQuiet(n: nat, t: Tree, names: seq<Name>, source: Path, target: Path)
    requires Pending(t, names, source, target)
    ensures QuietAt(RunEntries(n, t, names, source, target), t, target)
    decreases n, 2, |names|
  {
    if names != [] {
      var from, to := source + [names[0]], target + [names[0]];
      if t[from].Link? {
        PendingTail(t, t, names, source, target);
        EntriesAreQuiet(n, t, names[1..], source, target);
      } else {
        assert Parent(to) == target;
        CopyIsQuiet(n, t, from, to);
        var a := RunCopy(n, t, from, to);
        if a.Some? {
          PendingTail(t, a.value.0, names, source, target);
          EntriesAreQuiet(n, a.value.0, names[1..], source, target);
        }
      }
    }
  }

  /** A copy of a directory to a free place inside it exceeds every bound. */
  lemma {:induction false} CopyIntoItselfNeverReturns(n: nat, t: Tree, source: Path, target: Path)
    requires WellFormed(t) && IsDir(t, source) && Free(t, target) && source <= target
    ensures RunCopy(n, t, source, target) == None
    decreases n, 1, 0
  {
    MkdirAllMakes(t, target);
    var now := MkdirAllOf(t, target).value;
    if n > 0 {
      assert RunDirectory(n - 1, now, source, target) == None by {
        PendingStart(t, source, target);
        NextOnTheWay(now, source, target);
        NestedDirectoryNeverReturns(n - 1, now, source, target);
      }
    }
    if n > 0 {
      DirectoryAnswer(n, t, source, target, now, None);
    }
  }

  lemma {:induction false} NestedDirectoryNeverReturns(n: nat, t: Tree, source: Path, target: Path)
    requires Pending(t, Listing(ChildNames(t, source)), source, target)
    requires source <= target && source != target && target[|source|] in ChildNames(t, source)
    ensures RunDirectory(n, t, source, target) == None
    decreases n, 3, 0
  {
    NestedEntriesNeverReturn(n, t, Listing(ChildNames(t, source)), source, target);
  }

  lemma NextOnTheWay(t: Tree, source: Path, target: Path)
    requires WellFormed(t) && IsDir(t, target) && source <= target && source != target
    ensures var next := source + [target[|source|]];
            next <= target && IsDir(t, next) && target[|source|] in ChildNames(t, source)
  {
    var next := source + [target[|source|]];
    assert next == target[..|source| + 1];
    if next != target {
      AncestorIsDir(t, target, next);
    }
  }

  lemma {:induction false} NestedEntriesNeverReturn(n: nat, t: Tree, names: seq<Name>, source: Path, target: Path)
    requires Pending(t, names, source, target)
    requires source <= target && source != target && target[|source|] in names
    ensures RunEntries(n, t, names, source, target) == None
    decreases n, 2, |names|
  {
    var from, to := source + [names[0]], target + [names[0]];
    NextOnTheWay(t, source, target);
    assert Parent(to) == target;
    if names[0] == target[|source|] {
      PrefixThrough(from, target, to);
      CopyIntoItselfNeverReturns(n, t, from, to);
    } else if t[from].Link? {
      PendingTail(t, t, names, source, target);
      NestedEntriesNeverReturn(n, t, names[1..], source, target);
    } else {
      CopyIsQuiet(n, t, from, to);
      var a := RunCopy(n, t, from, to);
      if a.Some? {
        PendingTail(t, a.value.0, names, source, target);
        NestedEntriesNeverReturn(n, a.value.0, names[1..], source, target);
      }
    }
  }

  // ---------------------------------------------------------------------------------------------
  // Any other copy returns
  // ---------------------------------------------------------------------------------------------

  lemma BlockedReturns(n: nat, t: Tree, source: Path, target: Path)
    requires CanCopy(t, source, target) && IsDir(t, source) && MkdirAllOf(t, target).Err?
    ensures RunCopy(n, t, source, target) == Some(CopyOf(t, source, target, SkippingLinks(Subtree(t, source))))
  {
    MkdirTarget(t, target);
  }

  lemma LeafReturns(n: nat, t: Tree, source: Path, target: Path)
    requires CanCopy(t, source, target) && t[source] != Dir
    ensures RunCopy(n, t, source, target) == Some(CopyOf(t, source, target, SkippingLinks(Subtree(t, source))))
  {
    MkdirTarget(t, target);
    MkdirAllMakes(t, Parent(target));
    if MkdirAllOf(t, Parent(target)).Ok? {
      LeafCopied(t, source, target);
    }
  }

  lemma {:induction false} DirectoryReturns(n: nat, t: Tree, source: Path, target: Path, c: Tree, now: Tree)
    requires CopyUnderway(t, source, target, c) && |Below(t, source)| <= n && n > 0
    requires c == SkippingLinks(Subtree(t, source)) && now == Progress(t, target, c, {})
    ensures RunDirectory(n - 1, now, source, target) == Some((Copied(t, target, c), None))
    decreases n - 1, 3, 0
  {
    var names := Listing(ChildNames(now, source));
    CopyFinishes(t, source, target, c, names);
    assert names[..0] == [] && NameSet([]) == {} && names[0..] == names;
    EntriesElsewhereReturn(n - 1, t, names, 0, source, target);
  }

  lemma SomethingBelow(t: Tree, p: Path)
    requires p in t
    ensures |Below(t, p)| > 0
  {
    assert p in Below(t, p);
  }

  lemma CopyOfDirectory(t: Tree, source: Path, target: Path, c: Tree)
    requires CopyUnderway(t, source, target, c)
    ensures CopyOf(t, source, target, c) == (Copied(t, target, c), None)
  {
  }

  lemma {:induction false} DirectoryElsewhereReturns(n: nat, t: Tree, source: Path, target: Path, c: Tree, now: Tree)
    requires CopyUnderway(t, source, target, c) && |Below(t, source)| <= n
    requires c == SkippingLinks(Subtree(t, source)) && now == Progress(t, target, c, {})
    requires MkdirAllOf(t, target) == Ok(now)
    ensures RunCopy(n, t, source, target) == Some((Copied(t, target, c), None))
    decreases n, 0, 0
  {
    SomethingBelow(t, source);
    DirectoryReturns(n, t, source, target, c, now);
    DirectoryAnswer(n, t, source, target, now, Some((Copied(t, target, c), None)));
  }

  lemma {:induction false} CopyElsewhereReturns(n: nat, t: Tree, source: Path, target: Path)
    requires CanCopy(t, source, target) && |Below(t, source)| <= n
    ensures RunCopy(n, t, source, target) == Some(CopyOf(t, source, target, SkippingLinks(Subtree(t, source))))
    decreases n, 1, 0
  {
    if t[source] != Dir {
      LeafReturns(n, t, source, target);
    } else if MkdirAllOf(t, target).Err? {
      BlockedReturns(n, t, source, target);
    } else {
      var c := SkippingLinks(Subtree(t, source));
      CopyStarts(t, source, target, c);
      CopyOfDirectory(t, source, target, c);
      DirectoryElsewhereReturns(n, t, source, target, c, MkdirAllOf(t, target).value);
    }
  }

  lemma {:induction false} EntriesElsewhereReturn(n: nat, t: Tree, names: seq<Name>, i: nat, source: Path, target: Path)
    requires var c := SkippingLinks(Subtree(t, source)); CopyUnderway(t, source, target, c)
    requires |Below(t, source)| <= n + 1
    requires i <= |names| && Increasing(names) && forall m :: m in names ==> [m] in Subtree(t, source)
    ensures var c := SkippingLinks(Subtree(t, source));
            RunEntries(n, Progress(t, target, c, NameSet(names[..i])), names[i..], source, target) ==
            Some((Progress(t, target, c, NameSet(names)), None))
    decreases n, 2, |names| - i
  {
    var c := SkippingLinks(Subtree(t, source));
    if i == |names| {
      assert names[..i] == names;
    } else {
      var now := Progress(t, target, c, NameSet(names[..i]));
      ListingHasNoRepeats(names, i);
      RecursiveCopyAdvances(t, source, target, NameSet(names[..i]), names[i]);
      assert names[i..][1..] == names[i + 1..];
      if !now[source + [names[i]]].Link? {
        ProperSubsetIsSmaller(Below(now, source + [names[i]]), Below(t, source));
        CopyElsewhereReturns(n, now, source + [names[i]], target + [names[i]]);
      }
      EntriesElsewhereReturn(n, t, names, i + 1, source, target);
    }
  }

  /** A copy of a directory to a free place returns exactly when that place is not inside it. */
  lemma CopyReturnsIffApart(t: Tree, source: Path, target: Path)
    requires WellFormed(t) && IsDir(t, source) && Free(t, target)
    ensures (exists n: nat :: RunCopy(n, t, source, target).Some?) <==> !(source <= target)
  {
    if source <= target {
      forall n: nat ensures !RunCopy(n, t, source, target).Some? {
        CopyIntoItselfNeverReturns(n, t, source, target);
      }
    } else {
      CopyElsewhereReturns(|Below(t, source)|, t, source, target);
    }
  }

  // ---------------------------------------------------------------------------------------------
  // Copy requests
  // ---------------------------------------------------------------------------------------------

  /** The copy of one source of a request. */
  ghost function RunStep(n: nat, t: Tree, source: Path, destination: Path, policy: Policy): Option<(Tree, Outcome)> {
    match StatOf(t, source)
    case Failed(error) => Some((t, Fail(Failure(source, Os(error)))))
    case Found(_) =>
      match ResolveOf(t, TargetIn(destination, source), policy)
      case (t', Refused(error)) => Some((t', Fail(Failure(source, Unresolved(error)))))
      case (t', Skipped) => Some((t', Fail(Failure(source, SkippedExisting))))
      case (t', Target(to)) =>
        match RunCopy(n, t', source, to)
        case None => None
        case Some((t'', Some(error))) => Some((t'', Fail(Failure(source, Os(error)))))
        case Some((t'', None)) => Some((t'', Done(Transfer(source, to))))
  }

  /** The sources in order, each with its own bound. */
  ghost function RunAll(bounds: seq<nat>, t: Tree, sources: seq<Path>, destination: Path, policy: Policy)
    : Option<(Tree, Response)>
    requires |bounds| == |sources|
  {
    if sources == [] then Some((t, Response([], [])))
    else
      var n := |sources| - 1;
      match RunAll(bounds[..n], t, sources[..n], destination, policy)
      case None => None
      case Some((t', r)) =>
        match RunStep(bounds[n], t', sources[n], destination, policy)
        case None => None
        case Some((t'', o)) => Some((t'', Noted(r, o)))
  }

  /** Copying the storage root onto itself with overwrite removes everything first, and then finds no source. */
  predicate EmptiesStorage(source: Path, destination: Path, policy: Policy) {
    source == [] && destination == [] && policy == Overwrite
  }

  lemma NestedTarget(t: Tree, source: Path, destination: Path, policy: Policy)
    requires WellFormed(t) && IsDir(t, destination) && source <= destination
    requires !EmptiesStorage(source, destination, policy)
    ensures IsDir(t, source)
    ensures var (t', r) := ResolveOf(t, TargetIn(destination, source), policy);
            r.Target? ==> WellFormed(t') && IsDir(t', source) && Free(t', r.path) && source <= r.path
  {
    var target := TargetIn(destination, source);
    AnsweredPathIsFree(t, target, policy);
    if source != destination {
      AncestorIsDir(t, destination, source);
    }
    if source != [] {
      assert destination <= target && Parent(target) == destination;
      assert !(target <= source);
    }
  }

  /** With a target inside the source, the step exceeds every bound. */
  lemma NestedStepNeverReturns(n: nat, t: Tree, source: Path, destination: Path, policy: Policy)
    requires WellFormed(t) && IsDir(t, destination) && !EmptiesStorage(source, destination, policy)
    requires !StepReturns(t, source, destination, policy)
    ensures RunStep(n, t, source, destination, policy) == None
  {
    NestedTarget(t, source, destination, policy);
    var (t', r) := ResolveOf(t, TargetIn(destination, source), policy);
    CopyIntoItselfNeverReturns(n, t', source, r.path);
  }

  lemma StepRuns(t: Tree, source: Path, destination: Path, policy: Policy) returns (n: nat)
    requires WellFormed(t) && StepReturns(t, source, destination, policy)
    ensures RunStep(n, t, source, destination, policy) == Some(CopyStep(t, source, destination, policy))
  {
    n := 0;
    if source in t {
      CopyTarget(t, source, destination, policy);
      var (t', r) := ResolveOf(t, TargetIn(destination, source), policy);
      if r.Target? && source in t' {
        n := |Below(t', source)|;
        CopyElsewhereReturns(n, t', source, r.path);
      }
    }
  }

  lemma StepKeepsDestination(t: Tree, source: Path, destination: Path, policy: Policy)
    requires WellFormed(t) && IsDir(t, destination) && StepReturns(t, source, destination, policy)
    ensures var t' := CopyStep(t, source, destination, policy).0; WellFormed(t') && IsDir(t', destination)
  {
    if policy == Overwrite {
      OverwritingCopyStep(t, source, destination);
    } else {
      CopyStepAddsOne(t, source, destination, policy);
    }
  }

  lemma {:induction false} CopyAllKeepsDestination(t: Tree, sources: seq<Path>, destination: Path, policy: Policy)
    requires WellFormed(t) && IsDir(t, destination) && AllReturn(t, sources, destination, policy)
    ensures var t' := CopyAll(t, sources, destination, policy).0; WellFormed(t') && IsDir(t', destination)
  {
    if sources != [] {
      var n := |sources| - 1;
      CopyAllKeepsDestination(t, sources[..n], destination, policy);
      StepKeepsDestination(CopyAll(t, sources[..n], destination, policy).0, sources[n], destination, policy);
    }
  }

  lemma {:induction false} AllRun(t: Tree, sources: seq<Path>, destination: Path, policy: Policy)
    returns (bounds: seq<nat>)
    requires WellFormed(t) && IsDir(t, destination) && AllReturn(t, sources, destination, policy)
    ensures |bounds| == |sources|
    ensures RunAll(bounds, t, sources, destination, policy) == Some(CopyAll(t, sources, destination, policy))
  {
    bounds := [];
    if sources != [] {
      var n := |sources| - 1;
      var before := AllRun(t, sources[..n], destination, policy);
      CopyAllKeepsDestination(t, sources[..n], destination, policy);
      var last := StepRuns(CopyAll(t, sources[..n], destination, policy).0, sources[n], destination, policy);
      bounds := before + [last];
      assert bounds[..n] == before;
    }
  }

  /** A greater bound does not change an answer. */
  lemma {:induction false} CopyRunsOn(n: nat, m: nat, t: Tree, source: Path, target: Path)
    requires n <= m && RunCopy(n, t, source, target).Some?
    ensures RunCopy(m, t, source, target) == RunCopy(n, t, source, target)
    decreases n, 1, 0
  {
    if IsDir(t, source) && MkdirAllOf(t, target).Ok? && n > 0 {
      var t' := MkdirAllOf(t, target).value;
      EntriesRunOn(n - 1, m - 1, t', Listing(ChildNames(t', source)), source, target);
    }
  }

  lemma {:induction false} EntriesRunOn(n: nat, m: nat, t: Tree, names: seq<Name>, source: Path, target: Path)
    requires n <= m && RunEntries(n, t, names, source, target).Some?
    ensures RunEntries(m, t, names, source, target) == RunEntries(n, t, names, source, target)
    decreases n, 2, |names|
  {
    if names != [] {
      var from, to := source + [names[0]], target + [names[0]];
      if from in t && t[from].Link? {
        EntriesRunOn(n, m, t, names[1..], source, target);
      } else {
        CopyRunsOn(n, m, t, from, to);
        var a := RunCopy(n, t, from, to).value;
        if a.1 == None {
          EntriesRunOn(n, m, a.0, names[1..], source, target);
        }
      }
    }
  }

  lemma StepRunsOn(n: nat, m: nat, t: Tree, source: Path, destination: Path, policy: Policy)
    requires n <= m && RunStep(n, t, source, destination, policy).Some?
    ensures RunStep(m, t, source, destination, policy) == RunStep(n, t, source, destination, policy)
  {
    if source in t {
      var (t', r) := ResolveOf(t, TargetIn(destination, source), policy);
      if r.Target? {
        CopyRunsOn(n, m, t', source, r.path);
      }
    }
  }

  lemma StepRunsAlike(n: nat, t: Tree, source: Path, destination: Path, policy: Policy)
    requires WellFormed(t) && StepReturns(t, source, destination, policy)
    requires RunStep(n, t, source, destination, policy).Some?
    ensures RunStep(n, t, source, destination, policy) == Some(CopyStep(t, source, destination, policy))
  {
    var enough := StepRuns(t, source, destination, policy);
    if n <= enough {
      StepRunsOn(n, enough, t, source, destination, policy);
    } else {
      StepRunsOn(enough, n, t, source, destination, policy);
    }
  }

  lemma {:induction false} RunMeansReturn(bounds: seq<nat>, t: Tree, sources: seq<Path>, destination: Path,
                                          policy: Policy)
    requires WellFormed(t) && IsDir(t, destination) && |bounds| == |sources|
    requires forall s :: s in sources ==> !EmptiesStorage(s, destination, policy)
    requires RunAll(bounds, t, sources, destination, policy).Some?
    ensures AllReturn(t, sources, destination, policy)
    ensures RunAll(bounds, t, sources, destination, policy) == Some(CopyAll(t, sources, destination, policy))
  {
    if sources != [] {
      var n := |sources| - 1;
      assert sources[n] in sources;
      RunMeansReturn(bounds[..n], t, sources[..n], destination, policy);
      CopyAllKeepsDestination(t, sources[..n], destination, policy);
      var t' := CopyAll(t, sources[..n], destination, policy).0;
      if !StepReturns(t', sources[n], destination, policy) {
        NestedStepNeverReturns(bounds[n], t', sources[n], destination, policy);
      }
      StepRunsAlike(bounds[n], t', sources[n], destination, policy);
    }
  }

  /**
   A copy of any list of sources returns exactly when, of each source that contains the destination, the
   resolution of its target leads to none; and then its answer is the one that the copy promises.
   */
  lemma CopyRequestReturnsIff(t: Tree, sources: seq<Path>, destination: Path, policy: Policy)
    requires WellFormed(t) && IsDir(t, destination)
    requires forall s :: s in sources ==> !EmptiesStorage(s, destination, policy)
    ensures AllReturn(t, sources, destination, policy) <==>
            exists bounds :: |bounds| == |sources| && RunAll(bounds, t, sources, destination, policy).Some?
    ensures forall bounds :: |bounds| == |sources| && RunAll(bounds, t, sources, destination, policy).Some? ==>
              RunAll(bounds, t, sources, destination, policy) == Some(CopyAll(t, sources, destination, policy))
  {
    if AllReturn(t, sources, destination, policy) {
      var bounds := AllRun(t, sources, destination, policy);
    }
    forall bounds: seq<nat> | |bounds| == |sources| && RunAll(bounds, t, sources, destination, policy).Some?
      ensures AllReturn(t, sources, destination, policy)
      ensures RunAll(bounds, t, sources, destination, policy) == Some(CopyAll(t, sources, destination, policy))
    {
      RunMeansReturn(bounds, t, sources, destination, policy);
    }
  }
}
