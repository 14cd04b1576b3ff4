/** What moves and copies do and answer, source by source. */
module TransferAnswers {
  import opened Wrappers
  import opened Names
  import opened FileTree
  import opened Disks
  import opened Conflict
  import opened Copying
  import opened Outcomes
  import opened Operations
  import opened CopyTermination

  // ---------------------------------------------------------------------------------------------
  // Where an entry goes
  // ---------------------------------------------------------------------------------------------

  /** The k-th numbered name is the first one that no entry of the directory has. */
  ghost predicate FirstNewName(t: Tree, directory: Path, name: Name, k: nat) {
    && 1 <= k <= MAX_CANDIDATES && directory + [CandidateName(name, k)] !in t
    && forall j :: 1 <= j < k ==> directory + [CandidateName(name, j)] in t
  }

  /** There is a place for an entry of that name: its own, or under rename a numbered one. */
  ghost predicate HasPlace(t: Tree, directory: Path, name: Name, policy: Policy) {
    || policy == Overwrite || directory + [name] !in t
    || (policy == Rename && exists k :: FirstNewName(t, directory, name, k))
  }

  /** The place it gets: its own when that is free or made free, or the first numbered one. */
  ghost predicate IsPlace(t: Tree, directory: Path, name: Name, policy: Policy, to: Path) {
    if policy == Overwrite || directory + [name] !in t then to == directory + [name]
    else
      && policy == Rename
      && exists k :: FirstNewName(t, directory, name, k) && to == directory + [CandidateName(name, k)]
  }

  /** Under overwrite, what is at that name goes first. */
  ghost function Cleared(t: Tree, directory: Path, name: Name, policy: Policy): Tree {
    if policy == Overwrite then Without(t, directory + [name]) else t
  }

  lemma ClearedKeeps(t: Tree, directory: Path, name: Name, policy: Policy)
    requires WellFormed(t) && IsDir(t, directory)
    ensures var b := Cleared(t, directory, name, policy); WellFormed(b) && IsDir(b, directory)
  {
    RootedWithout(t, directory + [name]);
  }

  lemma FreeInDirectory(t: Tree, directory: Path, name: Name)
    requires WellFormed(t) && IsDir(t, directory)
    ensures Free(t, directory + [name]) <==> directory + [name] !in t
  {
    assert Parent(directory + [name]) == directory;
  }

  lemma LeastIsFirst(t: Tree, directory: Path, name: Name, k: nat)
    requires WellFormed(t) && IsDir(t, directory)
    ensures LeastFree(t, directory + [name], k) <==> FirstNewName(t, directory, name, k)
  {
    var desired := directory + [name];
    assert Place(desired) == (directory, name);
    forall j: nat ensures Free(t, Candidate(desired, j)) <==> directory + [CandidateName(name, j)] !in t {
      FreeInDirectory(t, directory, CandidateName(name, j));
    }
  }

  lemma RenamedPlace(t: Tree, directory: Path, name: Name)
    requires WellFormed(t) && IsDir(t, directory) && directory + [name] in t
    ensures var (t', r) := ResolveOf(t, directory + [name], Rename);
            && t' == t
            && (HasPlace(t, directory, name, Rename) ==> r.Target? && IsPlace(t, directory, name, Rename, r.path))
            && (!HasPlace(t, directory, name, Rename) ==> r == Refused(NoUniqueName))
  {
    var desired := directory + [name];
    FreeInDirectory(t, directory, name);
    forall k: nat ensures LeastFree(t, desired, k) <==> FirstNewName(t, directory, name, k) {
      LeastIsFirst(t, directory, name, k);
    }
    RenameTakesNone(t, desired);
    if k: nat :| FirstNewName(t, directory, name, k) {
      RenameTakes(t, desired, k);
      assert Candidate(desired, k) == directory + [CandidateName(name, k)];
    }
  }

  /** What the resolution of a conflict comes to in a directory. */
  lemma ResolvedPlace(t: Tree, directory: Path, name: Name, policy: Policy)
    requires WellFormed(t) && IsDir(t, directory)
    ensures var (t', r) := ResolveOf(t, directory + [name], policy);
            && t' == Cleared(t, directory, name, policy)
            && (HasPlace(t, directory, name, policy) ==> r.Target? && IsPlace(t, directory, name, policy, r.path))
            && (!HasPlace(t, directory, name, policy) ==>
                  r == if policy == Skip then Skipped else Refused(NoUniqueName))
  {
    var desired := directory + [name];
    FreeInDirectory(t, directory, name);
    if policy == Overwrite {
      assert Parent(desired) == directory;
      OverwriteResolution(t, desired);
    } else if policy == Rename && desired in t {
      RenamedPlace(t, directory, name);
    }
  }

  lemma PlaceIsNew(t: Tree, directory: Path, name: Name, policy: Policy, to: Path)
    requires WellFormed(t) && IsDir(t, directory) && IsPlace(t, directory, name, policy, to)
    ensures to != [] && Parent(to) == directory && to !in Cleared(t, directory, name, policy)
  {
  }

  // ---------------------------------------------------------------------------------------------
  // Moves
  // ---------------------------------------------------------------------------------------------

  /** The subtree of from lies at to; nothing else is new or changed. */
  ghost predicate IsMoved(t: Tree, t': Tree, from: Path, to: Path) {
    && Vacant(t', from) && Subtree(t', to) == Subtree(t, from)
    && forall q :: !(from <= q) && !(to <= q) ==> (q in t' <==> q in t) && (q in t ==> t'[q] == t[q])
  }

  /** One move from t to t': what it does and what it answers. */
  ghost predicate MoveTurn(t: Tree, t': Tree, source: Path, destination: Path, policy: Policy, o: Outcome) {
    if source == [] then t' == t && o == Fail(Failure([], RootPath))
    else if source == destination + [Last(source)] then t' == t && o == Done(Transfer(source, source))
    else
      var cleared := Cleared(t, destination, Last(source), policy);
      var placed := HasPlace(t, destination, Last(source), policy);
      && (o.Done? <==> source in cleared && !(source <= destination) && placed)
      && match o
         case Done(x) =>
           && x.from == source && IsPlace(t, destination, Last(source), policy, x.to)
           && IsMoved(cleared, t', source, x.to)
         case Fail(failure) =>
           && t' == cleared && failure.path == source
           && failure.reason == if !placed then if policy == Skip then SkippedExisting else Unresolved(NoUniqueName)
                                else if source !in cleared then Os(NotExist)
                                else Os(InvalidMove)
  }

  lemma MoveTurnIs(t: Tree, source: Path, destination: Path, policy: Policy)
    requires WellFormed(t) && IsDir(t, destination)
    ensures var (t', o) := MoveStep(t, source, destination, policy);
            && MoveTurn(t, t', source, destination, policy, o)
            && WellFormed(t') && IsDir(t', destination)
  {
    if source != [] && source != destination + [Last(source)] {
      var cleared := Cleared(t, destination, Last(source), policy);
      ClearedKeeps(t, destination, Last(source), policy);
      ResolvedPlace(t, destination, Last(source), policy);
      var r := ResolveOf(t, destination + [Last(source)], policy).1;
      if r.Target? {
        PlaceIsNew(t, destination, Last(source), policy, r.path);
        RenamedTo(cleared, source, r.path);
        PrefixOfChild(source, destination, Last(r.path));
        if source in cleared && !(source <= destination) {
          MovedAway(cleared, source, r.path);
        }
      }
    }
  }

  lemma DirectoryIsThere(t: Tree, directory: Path)
    requires IsDir(t, directory)
    ensures MkdirAllOf(t, directory) == Ok(t)
  {
  }

  lemma MovedAway(t: Tree, from: Path, to: Path)
    requires CanMove(t, from, to)
    ensures var t' := Moved(t, from, to);
            && WellFormed(t') && IsMoved(t, t', from, to)
            && (forall q :: IsDir(t, q) && !(from <= q) ==> IsDir(t', q))
  {
    MovedIsWellFormed(t, from, to);
    MovedContents(t, from, to);
    AbsentIsVacant(t, to);
  }

  /** The rename to a new place in a directory. */
  lemma RenamedTo(t: Tree, from: Path, to: Path)
    requires WellFormed(t) && to != [] && to !in t && IsDir(t, Parent(to)) && from != []
    ensures var (t', e) := StoreRename(t, from, to);
            if from in t && !(from <= to) then e == None && CanMove(t, from, to) && t' == Moved(t, from, to)
            else t' == t && e == Some(if from in t then InvalidMove else NotExist)
  {
    DirectoryIsThere(t, Parent(to));
    if from in t && !(from <= to) {
      RenameIsMoved(t, from, to);
    } else {
      FreeAt(t, to);
    }
  }

  lemma FreeAt(t: Tree, to: Path)
    requires WellFormed(t) && to != [] && to !in t && IsDir(t, Parent(to))
    ensures !Blocked(t, to) && !IsDir(t, to)
  {
  }

  /** The trees between the sources: each is one turn after the one before it. */
  ghost predicate MoveTurns(t: Tree, trees: seq<Tree>, sources: seq<Path>, destination: Path, policy: Policy,
                            outcomes: seq<Outcome>)
  {
    && |trees| == |sources| + 1 && |outcomes| == |sources|
    && if sources == [] then trees[0] == t
       else
         var n := |sources| - 1;
         && MoveTurns(t, trees[..n + 1], sources[..n], destination, policy, outcomes[..n])
         && MoveTurn(trees[n], trees[n + 1], sources[n], destination, policy, outcomes[n])
  }

  function TransfersAmong(outcomes: seq<Outcome>): seq<Transfer> {
    if outcomes == [] then []
    else
      var n := |outcomes| - 1;
      TransfersAmong(outcomes[..n]) + match outcomes[n] case Done(x) => [x] case Fail(_) => []
  }

  function FailuresAmong(outcomes: seq<Outcome>): seq<Failure<Path, Reason>> {
    if outcomes == [] then []
    else
      var n := |outcomes| - 1;
      FailuresAmong(outcomes[..n]) + match outcomes[n] case Done(_) => [] case Fail(failure) => [failure]
  }

  /** The answer lists exactly these outcomes, in order. */
  ghost predicate Answers(r: Response, outcomes: seq<Outcome>) {
    r.done == TransfersAmong(outcomes) && r.failed == FailuresAmong(outcomes)
  }

  lemma AnswersOneMore(r: Response, outcomes: seq<Outcome>, o: Outcome)
    requires Answers(r, outcomes)
    ensures Answers(Noted(r, o), outcomes + [o])
  {
    assert (outcomes + [o])[..|outcomes|] == outcomes;
  }

  lemma OneMoreMove(t: Tree, trees: seq<Tree>, next: Tree, sources: seq<Path>, destination: Path, policy: Policy,
                    outcomes: seq<Outcome>, o: Outcome)
    requires sources != []
    requires var n := |sources| - 1;
             && MoveTurns(t, trees, sources[..n], destination, policy, outcomes)
             && MoveTurn(trees[n], next, sources[n], destination, policy, o)
    ensures MoveTurns(t, trees + [next], sources, destination, policy, outcomes + [o])
  {
    var n := |sources| - 1;
    assert (trees + [next])[..n + 1] == trees && (outcomes + [o])[..n] == outcomes;
    assert (trees + [next])[n] == trees[n] && (trees + [next])[n + 1] == next && (outcomes + [o])[n] == o;
  }

  /**
   Moving any list of sources under any policy: a source is reported moved exactly when, at its turn, it
   was there, did not contain the destination, and had a place; then its subtree lies at that place, and
   the answer says so.  A source that is reported failed changed nothing but a target that was in its way
   under overwrite.
   */
  lemma {:induction false} MoveAnswers(t: Tree, sources: seq<Path>, destination: Path, policy: Policy)
    returns (trees: seq<Tree>, outcomes: seq<Outcome>)
    requires WellFormed(t) && IsDir(t, destination)
    ensures MoveTurns(t, trees, sources, destination, policy, outcomes)
    ensures var (t', r) := MoveAll(t, sources, destination, policy);
            && trees[0] == t && trees[|sources|] == t' && Answers(r, outcomes)
            && WellFormed(t') && IsDir(t', destination)
  {
    trees, outcomes := [t], [];
    if sources != [] {
      var n := |sources| - 1;
      var before, earlier := MoveAnswers(t, sources[..n], destination, policy);
      var (t1, r) := MoveAll(t, sources[..n], destination, policy);
      MoveTurnIs(t1, sources[n], destination, policy);
      var (t2, o) := MoveStep(t1, sources[n], destination, policy);
      OneMoreMove(t, before, t2, sources, destination, policy, earlier, o);
      AnswersOneMore(r, earlier, o);
      trees, outcomes := before + [t2], earlier + [o];
    }
  }

  /** A request is refused for its checks only, and otherwise makes the destination and moves the sources. */
  lemma MoveRequestAnswers(t: Tree, sources: seq<Path>, destination: Path, policy: Option<Policy>)
    returns (trees: seq<Tree>, outcomes: seq<Outcome>)
    requires WellFormed(t)
    ensures var (t', r) := MoveRequest(t, sources, destination, policy);
            if sources == [] then t' == t && r == Err(NoSources)
            else if policy == None then t' == t && r == Err(InvalidPolicy)
            else if !Free(t, destination) && !IsDir(t, destination) then
              t' == t && r.Err? && r.error.NoDestination?
            else
              && |trees| > 0 && OnlyAddsDirs(t, trees[0], destination) && IsDir(trees[0], destination)
              && MoveTurns(trees[0], trees, sources, destination, policy.value, outcomes)
              && trees[|sources|] == t' && r.Ok? && Answers(r.value, outcomes)
  {
    trees, outcomes := [], [];
    MkdirAllMakes(t, destination);
    if sources != [] && policy.Some? && MkdirAllOf(t, destination).Ok? {
      trees, outcomes := MoveAnswers(MkdirAllOf(t, destination).value, sources, destination, policy.value);
    }
  }

  // ---------------------------------------------------------------------------------------------
  // Copies
  // ---------------------------------------------------------------------------------------------

  /** The subtree of from lies at to, without the links below its root; nothing else is new or changed. */
  ghost predicate IsCopiedTo(t: Tree, t': Tree, from: Path, to: Path) {
    && Subtree(t', to) == SkippingLinks(Subtree(t, from))
    && forall q :: !(to <= q) ==> (q in t' <==> q in t) && (q in t ==> t'[q] == t[q])
  }

  /** One copy from t to t': what it does and what it answers. */
  ghost predicate CopyTurn(t: Tree, t': Tree, source: Path, destination: Path, policy: Policy, o: Outcome) {
    if source !in t then t' == t && o.Fail? && o.failure.path == source && o.failure.reason.Os?
    else if source == [] then
      t' == t && o == Fail(Failure([], if policy == Skip then SkippedExisting else Unresolved(NoUniqueName)))
    else
      var cleared := Cleared(t, destination, Last(source), policy);
      var placed := HasPlace(t, destination, Last(source), policy);
      && (o.Done? <==> source in cleared && placed)
      && match o
         case Done(x) =>
           && x.from == source && IsPlace(t, destination, Last(source), policy, x.to)
           && IsCopiedTo(cleared, t', source, x.to)
         case Fail(failure) =>
           && t' == cleared && failure.path == source
           && if placed then failure.reason.Os?
              else failure.reason == if policy == Skip then SkippedExisting else Unresolved(NoUniqueName)
  }

  lemma GraftedNext(t: Tree, to: Path, s: Tree)
    requires WellFormed(t) && to !in t
    ensures Subtree(Graft(t, to, s), to) == s
    ensures forall q :: !(to <= q) ==> (q in Graft(t, to, s) <==> q in t) && (q in t ==> Graft(t, to, s)[q] == t[q])
  {
    AbsentIsVacant(t, to);
    GraftThenCut(t, to, s);
  }

  /** The copy to a place in a directory, which is not inside the source. */
  lemma CopiedTo(t: Tree, from: Path, to: Path)
    requires WellFormed(t) && to != [] && to !in t && IsDir(t, Parent(to))
    ensures var (t', e) := CopyOf(t, from, to, SkippingLinks(Subtree(t, from)));
            if from in t then e == None && IsCopiedTo(t, t', from, to) else t' == t && e.Some?
  {
    DirectoryIsThere(t, Parent(to));
    if from in t {
      GraftedNext(t, to, SkippingLinks(Subtree(t, from)));
    }
  }

  /** The root leads to no target unless its copy never returns. */
  lemma RootIsNotCopied(t: Tree, destination: Path, policy: Policy)
    requires WellFormed(t) && IsDir(t, destination) && StepReturns(t, [], destination, policy)
    ensures var (t', o) := CopyStep(t, [], destination, policy);
            t' == t && o == Fail(Failure([], if policy == Skip then SkippedExisting else Unresolved(NoUniqueName)))
  {
    CopyTarget(t, [], destination, policy);
  }

  lemma CopyTurnIs(t: Tree, source: Path, destination: Path, policy: Policy)
    requires WellFormed(t) && IsDir(t, destination) && StepReturns(t, source, destination, policy)
    ensures var (t', o) := CopyStep(t, source, destination, policy);
            CopyTurn(t, t', source, destination, policy, o)
  {
    if source == [] {
      RootIsNotCopied(t, destination, policy);
    } else if source in t {
      var cleared := Cleared(t, destination, Last(source), policy);
      ClearedKeeps(t, destination, Last(source), policy);
      ResolvedPlace(t, destination, Last(source), policy);
      var r := ResolveOf(t, destination + [Last(source)], policy).1;
      if r.Target? {
        PlaceIsNew(t, destination, Last(source), policy, r.path);
        CopiedTo(cleared, source, r.path);
      }
    }
  }

  /** The trees between the sources: each is one turn after the one before it. */
  ghost predicate CopyTurns(t: Tree, trees: seq<Tree>, sources: seq<Path>, destination: Path, policy: Policy,
                            outcomes: seq<Outcome>)
  {
    && |trees| == |sources| + 1 && |outcomes| == |sources|
    && if sources == [] then trees[0] == t
       else
         var n := |sources| - 1;
         && CopyTurns(t, trees[..n + 1], sources[..n], destination, policy, outcomes[..n])
         && CopyTurn(trees[n], trees[n + 1], sources[n], destination, policy, outcomes[n])
  }

  lemma OneMoreCopy(t: Tree, trees: seq<Tree>, next: Tree, sources: seq<Path>, destination: Path, policy: Policy,
                    outcomes: seq<Outcome>, o: Outcome)
    requires sources != []
    requires var n := |sources| - 1;
             && CopyTurns(t, trees, sources[..n], destination, policy, outcomes)
             && CopyTurn(trees[n], next, sources[n], destination, policy, o)
    ensures CopyTurns(t, trees + [next], sources, destination, policy, outcomes + [o])
  {
    var n := |sources| - 1;
    assert (trees + [next])[..n + 1] == trees && (outcomes + [o])[..n] == outcomes;
    assert (trees + [next])[n] == trees[n] && (trees + [next])[n + 1] == next && (outcomes + [o])[n] == o;
  }

  /**
   Copying any list of sources under any policy, when it returns: a source is reported copied exactly
   when, at its turn, it was there, had a place, and was not what overwrite took away; then its copy lies
   at that place, and the answer says so.
   */
  lemma {:induction false} CopyAnswers(t: Tree, sources: seq<Path>, destination: Path, policy: Policy)
    returns (trees: seq<Tree>, outcomes: seq<Outcome>)
    requires WellFormed(t) && IsDir(t, destination) && AllReturn(t, sources, destination, policy)
    ensures CopyTurns(t, trees, sources, destination, policy, outcomes)
    ensures var (t', r) := CopyAll(t, sources, destination, policy);
            trees[0] == t && trees[|sources|] == t' && Answers(r, outcomes)
  {
    trees, outcomes := [t], [];
    if sources != [] {
      var n := |sources| - 1;
      var before, earlier := CopyAnswers(t, sources[..n], destination, policy);
      var (t1, r) := CopyAll(t, sources[..n], destination, policy);
      CopyAllKeepsDestination(t, sources[..n], destination, policy);
      CopyTurnIs(t1, sources[n], destination, policy);
      var (t2, o) := CopyStep(t1, sources[n], destination, policy);
      OneMoreCopy(t, before, t2, sources, destination, policy, earlier, o);
      AnswersOneMore(r, earlier, o);
      trees, outcomes := before + [t2], earlier + [o];
    }
  }

  /** A request is refused for its checks only, and otherwise makes the destination and copies the sources. */
  lemma CopyRequestAnswers(t: Tree, sources: seq<Path>, destination: Path, policy: Option<Policy>)
    returns (trees: seq<Tree>, outcomes: seq<Outcome>)
    requires WellFormed(t) && RequestReturns(t, sources, destination, policy)
    ensures var (t', r) := CopyRequest(t, sources, destination, policy);
            if sources == [] then t' == t && r == Err(NoSources)
            else if policy == None then t' == t && r == Err(InvalidPolicy)
            else if !Free(t, destination) && !IsDir(t, destination) then
              t' == t && r.Err? && r.error.NoDestination?
            else
              && |trees| > 0 && OnlyAddsDirs(t, trees[0], destination) && IsDir(trees[0], destination)
              && CopyTurns(trees[0], trees, sources, destination, policy.value, outcomes)
              && trees[|sources|] == t' && r.Ok? && Answers(r.value, outcomes)
  {
    trees, outcomes := [], [];
    MkdirAllMakes(t, destination);
    if sources != [] && policy.Some? && MkdirAllOf(t, destination).Ok? {
      trees, outcomes := CopyAnswers(MkdirAllOf(t, destination).value, sources, destination, policy.value);
    }
  }
}
