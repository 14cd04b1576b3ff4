/** The restore operation over a list of paths, as clients send them. */
module Restoring {
  import opened Wrappers
  import opened FileTree
  import opened Disks
  import opened Copying
  import opened Moving
  import opened Trash
  import opened TrashRuns
  import opened Resolving
  import Paths
  import opened Outcomes
  import Deleting

  datatype Why = RootPath | Restoring(error: TrashError)

  /** What the table may answer for a path: a newest unrestored record of it, if there is one. */
  ghost predicate TableAnswers(rows: Table, apiPath: string, id: Option<Id>) {
    if id.Some? then Latest(rows, apiPath, id.value) else !HasOpen(rows, apiPath)
  }

  /** The restore of an API path. */
  ghost function RestoreOne(root: Path, s: State, path: string, id: Option<Id>, env: RestoreEnv): (State, Option<Why>)
    requires Deleting.AskedFor(root, path)
  {
    if path == "/" then (s, Some(RootPath))
    else if id.None? || id.value !in s.rows then (s, Some(Restoring(TrashError.NotFound)))
    else
      match Resolved(path)
      case None => (s, Some(Restoring(Refused)))
      case Some(p) =>
        match RestoreOf(root, s, p, id.value, env.(apiPath := path))
        case (s', Some(error)) => (s', Some(Restoring(error)))
        case (s', None) => (s', None)
  }

  /** The paths in order, the i-th with the i-th answer of the table and the i-th environment. */
  ghost function RestoreAll(root: Path, s: State, paths: seq<string>, ids: seq<Option<Id>>, envs: seq<RestoreEnv>)
    : (State, Report<string, Why>)
    requires |paths| == |ids| == |envs| && Deleting.AllAsked(root, paths)
  {
    if paths == [] then (s, Report([], []))
    else
      var n := |paths| - 1;
      var path := Paths.NormalizeAPIPath(paths[n]);
      var (s1, r) := RestoreAll(root, s, paths[..n], ids[..n], envs[..n]);
      var (s2, failure) := RestoreOne(root, s1, path, ids[n], envs[n]);
      (s2, Reported(r, path, failure))
  }

  /** Each answer was the table's at that moment. */
  ghost predicate AllAnswered(root: Path, s: State, paths: seq<string>, ids: seq<Option<Id>>, envs: seq<RestoreEnv>)
    requires |paths| == |ids| == |envs| && Deleting.AllAsked(root, paths)
  {
    paths == [] ||
    var n := |paths| - 1;
    var path := Paths.NormalizeAPIPath(paths[n]);
    && AllAnswered(root, s, paths[..n], ids[..n], envs[..n])
    && (path == "/" || TableAnswers(RestoreAll(root, s, paths[..n], ids[..n], envs[..n]).0.rows, path, ids[n]))
  }

  /** There and back on either device, root stays a directory. */
  lemma MovesKeepDirectory(t: Tree, entry: Path, p: Path, crossDevice: bool, root: Path)
    requires CanMove(t, entry, p) && !(p <= entry) && IsDir(t, root) && !(entry <= root) && !(p <= root)
    ensures var t' := MovePathOf(t, entry, p, crossDevice).0;
            && MovePathOf(t, entry, p, crossDevice).1 == None && WellFormed(t') && IsDir(t', root)
            && WellFormed(MovePathOf(t', p, entry, crossDevice).0)
            && IsDir(MovePathOf(t', p, entry, crossDevice).0, root)
  {
    MovePathSucceeds(t, entry, p, crossDevice);
    var t' := MovePathOf(t, entry, p, crossDevice).0;
    assert !([] == entry);
    CanMoveBack(t, t', entry, p);
    Deleting.MoveKeepsDirectory(t, entry, p, crossDevice, root);
    Deleting.MoveKeepsDirectory(t', p, entry, crossDevice, root);
  }

  lemma MissingEntryStaysMissing(t: Tree, entry: Path, p: Path, crossDevice: bool)
    requires entry !in t && p != [] && IsDir(t, Parent(p))
    ensures MovePathOf(t, entry, p, crossDevice).0 == t && MovePathOf(t, entry, p, crossDevice).1.Some?
  {
  }

  lemma MarkedStayDistinct(rows: Table, id: Id, now: int)
    requires DistinctEntries(rows) && id in rows
    ensures DistinctEntries(Restored(rows, id, now))
  {
    assert forall i :: Open(Restored(rows, id, now), i) ==> Open(rows, i);
  }

  lemma RestoreKeepsValid(root: Path, s: State, p: Path, id: Id, env: RestoreEnv)
    requires WellFormed(s.tree) && IsDir(s.tree, root) && DistinctEntries(s.rows)
    requires UserPath(root, p) && Latest(s.rows, env.apiPath, id)
    ensures var s' := RestoreOf(root, s, p, id, env).0;
            WellFormed(s'.tree) && IsDir(s'.tree, root) && DistinctEntries(s'.rows)
  {
    if Free(s.tree, p) && MkdirAllOf(s.tree, Parent(p)).Ok? {
      MkdirAllMakes(s.tree, Parent(p));
      MarkedStayDistinct(s.rows, id, env.now);
      var t := MkdirAllOf(s.tree, Parent(p)).value;
      var entry := EntryPath(root, s.rows[id].trashName);
      EntryIsApart(root, s.rows[id].trashName, p);
      if entry in t {
        NewPlace(s.tree, t, p);
        PrefixOfChild(p, root, s.rows[id].trashName);
        MovesKeepDirectory(t, entry, p, env.crossDevice, root);
      } else {
        MissingEntryStaysMissing(t, entry, p, env.crossDevice);
      }
    }
  }

  lemma NewPlace(t: Tree, t': Tree, p: Path)
    requires p != [] && Free(t, p) && OnlyAddsDirs(t, t', Parent(p))
    ensures p !in t'
  {
  }

  lemma RestoreAllNext(root: Path, s: State, paths: seq<string>, ids: seq<Option<Id>>, id: Option<Id>,
                       envs: seq<RestoreEnv>)
    requires |ids| < |paths| == |envs| && Deleting.AllAsked(root, paths)
    ensures var i := |ids|;
            var path := Paths.NormalizeAPIPath(paths[i]);
            var (s1, r) := RestoreAll(root, s, paths[..i], ids, envs[..i]);
            var (s2, failure) := RestoreOne(root, s1, path, id, envs[i]);
            RestoreAll(root, s, paths[..i + 1], ids + [id], envs[..i + 1]) == (s2, Reported(r, path, failure))
    ensures var i := |ids|;
            var path := Paths.NormalizeAPIPath(paths[i]);
            AllAnswered(root, s, paths[..i], ids, envs[..i])
            && (path == "/" || TableAnswers(RestoreAll(root, s, paths[..i], ids, envs[..i]).0.rows, path, id)) ==>
              AllAnswered(root, s, paths[..i + 1], ids + [id], envs[..i + 1])
  {
    var i := |ids|;
    assert paths[..i + 1][..i] == paths[..i] && envs[..i + 1][..i] == envs[..i] && (ids + [id])[..i] == ids;
    assert paths[..i + 1][i] == paths[i] && envs[..i + 1][i] == envs[i] && (ids + [id])[i] == id;
  }

  method RestorePaths(service: TrashService, paths: seq<string>, envs: seq<RestoreEnv>)
    returns (r: Option<Report<string, Why>>, ids: seq<Option<Id>>)
    requires service.Valid() && |paths| == |envs| && Deleting.AllAsked(service.root, paths)
    modifies service.disk, service.repo
    ensures paths == [] ==> r == None && service.View() == old(service.View())
    ensures paths != [] ==>
              && r.Some? && |ids| == |paths|
              && AllAnswered(service.root, old(service.View()), paths, ids, envs)
              && (service.View(), r.value) == RestoreAll(service.root, old(service.View()), paths, ids, envs)
  {
    ids := [];
    if paths == [] {
      return None, ids;
    }
    ghost var s := service.View();
    var result := Report([], []);
    var i := 0;
    while i < |paths|
      invariant 0 <= i <= |paths| && |ids| == i
      invariant service.Valid()
      invariant AllAnswered(service.root, s, paths[..i], ids, envs[..i])
      invariant (service.View(), result) == RestoreAll(service.root, s, paths[..i], ids, envs[..i])
    {
      var path := Paths.NormalizeAPIPath(paths[i]);
      assert Deleting.AskedFor(service.root, path);
      var failure, id := RestorePath(service, path, envs[i]);
      RestoreAllNext(service.root, s, paths, ids, id, envs);
      result, ids := Reported(result, path, failure), ids + [id];
      i := i + 1;
    }
    assert paths[..|paths|] == paths && envs[..|envs|] == envs;
    r := Some(result);
  }

  method RestorePath(service: TrashService, path: string, env: RestoreEnv)
    returns (failure: Option<Why>, id: Option<Id>)
    requires service.Valid() && Deleting.AskedFor(service.root, path)
    modifies service.disk, service.repo
    ensures service.Valid()
    ensures path == "/" || TableAnswers(old(service.repo.rows), path, id)
    ensures (service.View(), failure) == RestoreOne(service.root, old(service.View()), path, id, env)
  {
    if path == "/" {
      return Some(RootPath), None;
    }
    var e;
    e, id := service.RestoreLatest(env.(apiPath := path));
    if id.Some? && Resolved(path).Some? {
      RestoreKeepsValid(service.root, old(service.View()), Resolved(path).value, id.value, env.(apiPath := path));
    }
    failure := if e.Some? then Some(Restoring(e.value)) else None;
  }

  /** Each path is reported restored or failed under its API path, once for each time it was asked for. */
  lemma {:induction false} RestoreRecordsEachPath(root: Path, s: State, paths: seq<string>, ids: seq<Option<Id>>,
                                                  envs: seq<RestoreEnv>)
    requires |paths| == |ids| == |envs| && Deleting.AllAsked(root, paths)
    ensures var r := RestoreAll(root, s, paths, ids, envs).1;
            OneOutcomeEach(Deleting.APIPaths(paths), r.done, FailedPaths(r.failed))
  {
    if paths != [] {
      var n := |paths| - 1;
      var path := Paths.NormalizeAPIPath(paths[n]);
      RestoreRecordsEachPath(root, s, paths[..n], ids[..n], envs[..n]);
      var (s1, r) := RestoreAll(root, s, paths[..n], ids[..n], envs[..n]);
      RecordedOnce(Deleting.APIPaths(paths[..n]), r, path, RestoreOne(root, s1, path, ids[n], envs[n]).1);
    }
  }

  /** What lies outside the trash stays as it was. */
  ghost predicate KeepsOutside(root: Path, t: Tree, t': Tree) {
    forall q :: q in t && !(root <= q) ==> q in t' && t'[q] == t[q]
  }

  lemma RestoreKeepsOutside(root: Path, w: World, p: Path, id: Id, env: RestoreEnv)
    requires Inv(root, w) && Possible(root, w, Restore(p, id, env))
    ensures KeepsOutside(root, w.state.tree, RestoreOf(root, w.state, p, id, env).0.tree)
  {
    RestoreEffect(root, w, p, id, env);
    if RestoreOf(root, w.state, p, id, env).1 == None {
      var t := MkdirAllOf(w.state.tree, Parent(p)).value;
      var entry := EntryPath(root, w.state.rows[id].trashName);
      AbsentIsVacant(t, p);
      forall q | q in w.state.tree && !(root <= q) ensures !(entry <= q) {
        PrefixThrough(root, entry, q);
      }
    }
  }

  /** One restore: the trash stays in order, nothing is overwritten, no file content is lost. */
  lemma RestoreLosesNothing(root: Path, w: World, p: Path, id: Id, env: RestoreEnv)
    requires Inv(root, w) && Resolved(env.apiPath) == Some(p) && UserPath(root, p)
    requires Latest(w.state.rows, env.apiPath, id)
    requires env.crossDevice ==> LinkFree(w.state.tree)
    ensures var s := RestoreOf(root, w.state, p, id, env).0;
            Inv(root, w.(state := s)) && KeepsOutside(root, w.state.tree, s.tree) && SameContents(w.state.tree, s.tree)
  {
    StepKeepsInv(root, w, Restore(p, id, env));
    RestoreKeepsOutside(root, w, p, id, env);
    forall v | v != Dir ensures Count(RestoreOf(root, w.state, p, id, env).0.tree, v) == Count(w.state.tree, v) {
      RestoreBalance(root, w, p, id, env, v);
    }
  }

  /** What restores come to: the trash is in order, nothing is overwritten, no file content is lost. */
  ghost predicate Unharmed(root: Path, w: World, s: State) {
    Inv(root, w.(state := s)) && KeepsOutside(root, w.state.tree, s.tree) && SameContents(w.state.tree, s.tree)
  }

  lemma UnharmedTogether(root: Path, w: World, s1: State, s2: State)
    requires Unharmed(root, w, s1) && Unharmed(root, w.(state := s1), s2)
    ensures Unharmed(root, w, s2)
  {
  }

  lemma UnharmedStep(root: Path, w: World, s: State, p: Path, id: Id, env: RestoreEnv)
    requires Unharmed(root, w, s) && Resolved(env.apiPath) == Some(p) && UserPath(root, p)
    requires Latest(s.rows, env.apiPath, id) && (env.crossDevice ==> LinkFree(w.state.tree))
    ensures Unharmed(root, w, RestoreOf(root, s, p, id, env).0)
  {
    if LinkFree(w.state.tree) {
      SameContentsKeepLinkFree(w.state.tree, s.tree);
    }
    RestoreLosesNothing(root, w.(state := s), p, id, env);
    UnharmedTogether(root, w, s, RestoreOf(root, s, p, id, env).0);
  }

  lemma RestoreOneIs(root: Path, s: State, path: string, id: Id, env: RestoreEnv)
    requires path != "/" && Resolved(path).Some? && Deleting.AskedFor(root, path) && id in s.rows
    ensures RestoreOne(root, s, path, Some(id), env).0
            == RestoreOf(root, s, Resolved(path).value, id, env.(apiPath := path)).0
  {
  }

  lemma OneMoreRestore(root: Path, w: World, s: State, path: string, id: Option<Id>, env: RestoreEnv)
    requires Unharmed(root, w, s) && Deleting.AskedFor(root, path)
    requires path == "/" || TableAnswers(s.rows, path, id)
    requires env.crossDevice ==> LinkFree(w.state.tree)
    ensures Unharmed(root, w, RestoreOne(root, s, path, id, env).0)
  {
    if path != "/" && Resolved(path).Some? && id.Some? {
      RestoreOneIs(root, s, path, id.value, env);
      UnharmedStep(root, w, s, Resolved(path).value, id.value, env.(apiPath := path));
    }
  }

  /**
   A restore of any list of paths, on one device or without symbolic links, keeps the trash in order,
   overwrites nothing, and neither loses nor duplicates file contents.
   */
  lemma {:induction false} RestoringLosesNothing(root: Path, w: World, paths: seq<string>, ids: seq<Option<Id>>,
                                                 envs: seq<RestoreEnv>)
    requires Inv(root, w) && |paths| == |ids| == |envs| && Deleting.AllAsked(root, paths)
    requires (forall env :: env in envs ==> !env.crossDevice) || LinkFree(w.state.tree)
    requires AllAnswered(root, w.state, paths, ids, envs)
    ensures Unharmed(root, w, RestoreAll(root, w.state, paths, ids, envs).0)
  {
    if paths != [] {
      var n := |paths| - 1;
      assert envs[n] in envs && forall env :: env in envs[..n] ==> env in envs;
      RestoringLosesNothing(root, w, paths[..n], ids[..n], envs[..n]);
      OneMoreRestore(root, w, RestoreAll(root, w.state, paths[..n], ids[..n], envs[..n]).0,
                     Paths.NormalizeAPIPath(paths[n]), ids[n], envs[n]);
    }
  }

  // ---------------------------------------------------------------------------------------------
  // What each answer means
  // ---------------------------------------------------------------------------------------------

  /** A restore works when a record is open, its path leads to a free place, and the mark is stored. */
  ghost predicate Restorable(s: State, path: string, id: Option<Id>, env: RestoreEnv) {
    && path != "/" && id.Some? && Resolved(path).Some?
    && Free(s.tree, Resolved(path).value) && !env.markFails
  }

  /** The tree that record id holds lies at p, the entry is gone, the rest is there, the record is marked. */
  ghost predicate IsBack(root: Path, w: World, s: State, p: Path, id: Id, now: int) {
    var rows := w.state.rows;
    && id in rows && id in w.held
    && Subtree(s.tree, p) == w.held[id] && EntryPath(root, rows[id].trashName) !in s.tree
    && (forall q :: q in w.state.tree && !(EntryPath(root, rows[id].trashName) <= q) ==>
          q in s.tree && s.tree[q] == w.state.tree[q])
    && s.rows == rows[id := Record(rows[id].apiPath, rows[id].trashName, rows[id].deletedAt, Some(now))]
  }

  /** Every entry stays as it was, at most directories on the way are new; the table is unchanged. */
  ghost predicate NothingHappened(s: State, s': State) {
    && s'.rows == s.rows
    && (forall q :: q in s.tree ==> q in s'.tree && s'.tree[q] == s.tree[q])
    && (forall q :: q in s'.tree && q !in s.tree ==> s'.tree[q] == Dir)
  }

  /** Why a restore fails. */
  ghost predicate Explains(s: State, path: string, id: Option<Id>, env: RestoreEnv, why: Why) {
    match why
    case RootPath => path == "/"
    case Restoring(error) =>
      && path != "/"
      && (id.None? ==> error == TrashError.NotFound)
      && (id.Some? && Resolved(path).None? ==> error == Refused)
      && (id.Some? && Resolved(path).Some? ==>
            var p := Resolved(path).value;
            && (p in s.tree ==> error == TargetExists)
            && (Free(s.tree, p) ==> error == Database))
  }

  /** One restore from w to s: what it does and what it answers. */
  ghost predicate RestoreTurn(root: Path, w: World, s: State, path: string, id: Option<Id>, env: RestoreEnv,
                              failure: Option<Why>) {
    && (path == "/" || TableAnswers(w.state.rows, path, id))
    && (failure.None? <==> Restorable(w.state, path, id, env))
    && s.thumbs == w.state.thumbs
    && match failure
       case None => id.Some? && Resolved(path).Some? && IsBack(root, w, s, Resolved(path).value, id.value, env.now)
       case Some(why) => NothingHappened(w.state, s) && Explains(w.state, path, id, env, why)
  }

  lemma BackAgain(root: Path, w: World, p: Path, id: Id, env: RestoreEnv)
    requires Inv(root, w) && Possible(root, w, Restore(p, id, env)) && RestoreOf(root, w.state, p, id, env).1 == None
    ensures IsBack(root, w, RestoreOf(root, w.state, p, id, env).0, p, id, env.now)
  {
    RestoreEffect(root, w, p, id, env);
    EntryStaysHeld(root, w, p, id);
    RestoredIsHeld(root, w, p, id, env);
    MovedBackOut(w.state.tree, MkdirAllOf(w.state.tree, Parent(p)).value,
                 EntryPath(root, w.state.rows[id].trashName), p);
  }

  lemma MovedBackOut(t: Tree, t1: Tree, entry: Path, p: Path)
    requires CanMove(t1, entry, p) && forall q :: q in t ==> q in t1 && t1[q] == t[q]
    ensures entry !in Moved(t1, entry, p)
    ensures forall q :: q in t && !(entry <= q) ==> q in Moved(t1, entry, p) && Moved(t1, entry, p)[q] == t[q]
  {
    MovedContents(t1, entry, p);
    AbsentIsVacant(t1, p);
  }

  lemma RestoreFails(root: Path, w: World, p: Path, id: Id, env: RestoreEnv)
    requires Inv(root, w) && Possible(root, w, Restore(p, id, env))
    requires RestoreOf(root, w.state, p, id, env).1 != None
    ensures NothingHappened(w.state, RestoreOf(root, w.state, p, id, env).0)
    ensures p in w.state.tree ==> RestoreOf(root, w.state, p, id, env).1 == Some(TargetExists)
    ensures Free(w.state.tree, p) ==> RestoreOf(root, w.state, p, id, env).1 == Some(Database)
  {
    RestoreEffect(root, w, p, id, env);
    if Free(w.state.tree, p) {
      var s, entry := w.state, EntryPath(root, w.state.rows[id].trashName);
      MkdirAllMakes(s.tree, Parent(p));
      var t := MkdirAllOf(s.tree, Parent(p)).value;
      EntryStaysHeld(root, w, p, id);
      EntryIsApart(root, s.rows[id].trashName, p);
      PrefixThrough(entry, Parent(p), p);
      SubtreeApart(s.tree, t, entry, Parent(p));
      assert Holds(root, w, id);
      RestoreMoves(t, entry, p, env.crossDevice);
    }
  }

  lemma RestoreTurnIs(root: Path, w: World, path: string, id: Option<Id>, env: RestoreEnv)
    requires Inv(root, w) && Deleting.AskedFor(root, path)
    requires path == "/" || TableAnswers(w.state.rows, path, id)
    requires env.crossDevice ==> LinkFree(w.state.tree)
    ensures var (s, failure) := RestoreOne(root, w.state, path, id, env);
            RestoreTurn(root, w, s, path, id, env, failure)
  {
    if path != "/" && id.Some? && Resolved(path).Some? {
      var p, e := Resolved(path).value, env.(apiPath := path);
      RestoreEffect(root, w, p, id.value, e);
      if RestoreOf(root, w.state, p, id.value, e).1 == None {
        BackAgain(root, w, p, id.value, e);
      } else {
        RestoreFails(root, w, p, id.value, e);
      }
    }
  }

  /** The states between the paths: each is one turn after the one before it. */
  ghost predicate RestoreTurns(root: Path, w: World, states: seq<State>, paths: seq<string>, ids: seq<Option<Id>>,
                               envs: seq<RestoreEnv>, failures: seq<Option<Why>>)
  {
    && |states| == |paths| + 1 && |ids| == |envs| == |failures| == |paths|
    && if paths == [] then states[0] == w.state
       else
         var n := |paths| - 1;
         && RestoreTurns(root, w, states[..n + 1], paths[..n], ids[..n], envs[..n], failures[..n])
         && RestoreTurn(root, w.(state := states[n]), states[n + 1], Paths.NormalizeAPIPath(paths[n]), ids[n],
                        envs[n], failures[n])
  }

  lemma OneMoreTurn(root: Path, w: World, states: seq<State>, s: State, paths: seq<string>, ids: seq<Option<Id>>,
                    envs: seq<RestoreEnv>, failures: seq<Option<Why>>, failure: Option<Why>)
    requires paths != [] && |ids| == |envs| == |paths|
    requires var n := |paths| - 1;
             && RestoreTurns(root, w, states, paths[..n], ids[..n], envs[..n], failures)
             && RestoreTurn(root, w.(state := states[n]), s, Paths.NormalizeAPIPath(paths[n]), ids[n], envs[n], failure)
    ensures RestoreTurns(root, w, states + [s], paths, ids, envs, failures + [failure])
  {
    var n := |paths| - 1;
    assert (states + [s])[..n + 1] == states && (failures + [failure])[..n] == failures;
    assert (states + [s])[n] == states[n] && (states + [s])[n + 1] == s && (failures + [failure])[n] == failure;
  }

  /**
   A request answers for each path what happened to it: a path is reported restored exactly when, at its
   turn, a record of it was open, it led to a free place, and the mark was stored; then the tree that
   the record held is back.  A path that is reported failed left everything as it was.
   */
  lemma {:induction false} RestoreAnswers(root: Path, w: World, paths: seq<string>, ids: seq<Option<Id>>,
                                          envs: seq<RestoreEnv>)
    returns (states: seq<State>, failures: seq<Option<Why>>)
    requires Inv(root, w) && |paths| == |ids| == |envs| && Deleting.AllAsked(root, paths)
    requires (forall env :: env in envs ==> !env.crossDevice) || LinkFree(w.state.tree)
    requires AllAnswered(root, w.state, paths, ids, envs)
    ensures RestoreTurns(root, w, states, paths, ids, envs, failures)
    ensures var (s, r) := RestoreAll(root, w.state, paths, ids, envs);
            states[|paths|] == s && Lists(r, Deleting.APIPaths(paths), failures)
  {
    states, failures := [w.state], [];
    if paths != [] {
      var n := |paths| - 1;
      var path := Paths.NormalizeAPIPath(paths[n]);
      assert envs[n] in envs && forall env :: env in envs[..n] ==> env in envs;
      var before, earlier := RestoreAnswers(root, w, paths[..n], ids[..n], envs[..n]);
      RestoringLosesNothing(root, w, paths[..n], ids[..n], envs[..n]);
      var (s1, r) := RestoreAll(root, w.state, paths[..n], ids[..n], envs[..n]);
      if LinkFree(w.state.tree) {
        SameContentsKeepLinkFree(w.state.tree, s1.tree);
      }
      RestoreTurnIs(root, w.(state := s1), path, ids[n], envs[n]);
      var (s2, failure) := RestoreOne(root, s1, path, ids[n], envs[n]);
      OneMoreTurn(root, w, before, s2, paths, ids, envs, earlier, failure);
      ListsOneMore(r, Deleting.APIPaths(paths[..n]), earlier, path, failure);
      states, failures := before + [s2], earlier + [failure];
    }
  }
}
