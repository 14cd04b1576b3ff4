/** The delete operation over a list of paths, as clients send them. */
module Deleting {
  import opened Wrappers
  import opened FileTree
  import opened Disks
  import opened Copying
  import opened Moving
  import opened Trash
  import opened TrashRuns
  import opened Resolving
  import Paths
  import opened Outcomes

  datatype Why = RootPath | Trashing(error: TrashError)

  /** An API path that is the root, or refused, or leads to a place clear of the trash. */
  predicate AskedFor(root: Path, path: string) {
    path == "/" || Resolved(path).None? || UserPath(root, Resolved(path).value)
  }

  predicate AllAsked(root: Path, paths: seq<string>) {
    forall i :: 0 <= i < |paths| ==> AskedFor(root, Paths.NormalizeAPIPath(paths[i]))
  }

  /** The deletion of an API path. */
  ghost function DeleteStep(root: Path, s: State, path: string, env: DeleteEnv): (State, Option<Why>)
    requires AskedFor(root, path)
  {
    if path == "/" then (s, Some(RootPath))
    else
      match Resolved(path)
      case None => (s, Some(Trashing(Refused)))
      case Some(p) =>
        match SoftDeleteOf(root, s, p, env.(apiPath := path))
        case (s', Some(error)) => (s', Some(Trashing(error)))
        case (s', None) => (s', None)
  }

  /** The paths in order, the i-th with the i-th environment. */
  ghost function DeleteAll(root: Path, s: State, paths: seq<string>, envs: seq<DeleteEnv>): (State, Report<string, Why>)
    requires |paths| == |envs| && AllAsked(root, paths)
  {
    if paths == [] then (s, Report([], []))
    else
      var n := |paths| - 1;
      var path := Paths.NormalizeAPIPath(paths[n]);
      var (s1, r) := DeleteAll(root, s, paths[..n], envs[..n]);
      var (s2, failure) := DeleteStep(root, s1, path, envs[n]);
      (s2, Reported(r, path, failure))
  }

  function APIPaths(paths: seq<string>): seq<string> {
    if paths == [] then [] else APIPaths(paths[..|paths| - 1]) + [Paths.NormalizeAPIPath(paths[|paths| - 1])]
  }

  /** A name and an id that no record and no entry has. */
  ghost predicate Fresh(root: Path, s: State, env: DeleteEnv) {
    && env.id !in s.rows
    && EntryPath(root, env.trashName) !in s.tree
    && forall i :: i in s.rows ==> s.rows[i].trashName != env.trashName
  }

  /** Each environment is fresh when it is used. */
  ghost predicate AllFresh(root: Path, s: State, paths: seq<string>, envs: seq<DeleteEnv>)
    requires |paths| == |envs| && AllAsked(root, paths)
  {
    forall i :: 0 <= i < |paths| ==> Fresh(root, DeleteAll(root, s, paths[..i], envs[..i]).0, envs[i])
  }

  lemma MoveKeepsDirectory(t: Tree, src: Path, dst: Path, crossDevice: bool, d: Path)
    requires CanMove(t, src, dst) && IsDir(t, d) && !(src <= d)
    ensures var t' := MovePathOf(t, src, dst, crossDevice).0; WellFormed(t') && IsDir(t', d)
  {
    MovePathSucceeds(t, src, dst, crossDevice);
  }

  /** Into the trash and back, its directory stays. */
  lemma TrashingKeepsDirectory(root: Path, t: Tree, p: Path, n: Name, crossDevice: bool)
    requires WellFormed(t) && IsDir(t, root) && UserPath(root, p) && p in t && EntryPath(root, n) !in t
    ensures var entry := EntryPath(root, n);
            var (t1, e) := MovePathOf(t, p, entry, crossDevice);
            var t2 := MovePathOf(t1, entry, p, crossDevice).0;
            && e == None && WellFormed(t1) && IsDir(t1, root) && WellFormed(t2) && IsDir(t2, root)
  {
    var entry := EntryPath(root, n);
    CanTrash(root, t, p, n);
    CanTrashAndBack(root, t, p, n, crossDevice);
    MoveKeepsDirectory(t, p, entry, crossDevice, root);
    MoveKeepsDirectory(MovePathOf(t, p, entry, crossDevice).0, entry, p, crossDevice, root);
  }

  lemma NewRecordStaysDistinct(rows: Table, id: Id, record: Record)
    requires DistinctEntries(rows) && forall i :: i in rows ==> rows[i].trashName != record.trashName
    ensures DistinctEntries(rows[id := record])
  {
  }

  lemma SoftDeleteKeepsValid(root: Path, s: State, p: Path, env: DeleteEnv)
    requires WellFormed(s.tree) && IsDir(s.tree, root) && DistinctEntries(s.rows)
    requires UserPath(root, p) && Fresh(root, s, env)
    ensures var s' := SoftDeleteOf(root, s, p, env).0;
            WellFormed(s'.tree) && IsDir(s'.tree, root) && DistinctEntries(s'.rows)
  {
    if p in s.tree {
      TrashingKeepsDirectory(root, s.tree, p, env.trashName, env.crossDevice);
      NewRecordStaysDistinct(s.rows, env.id, Record(env.apiPath, env.trashName, env.now, None));
    }
  }

  lemma DeleteAllNext(root: Path, s: State, paths: seq<string>, envs: seq<DeleteEnv>, i: nat)
    requires i < |paths| == |envs| && AllAsked(root, paths)
    ensures var path := Paths.NormalizeAPIPath(paths[i]);
            var (s1, r) := DeleteAll(root, s, paths[..i], envs[..i]);
            var (s2, failure) := DeleteStep(root, s1, path, envs[i]);
            DeleteAll(root, s, paths[..i + 1], envs[..i + 1]) == (s2, Reported(r, path, failure))
  {
    assert paths[..i + 1][..i] == paths[..i] && envs[..i + 1][..i] == envs[..i];
    assert paths[..i + 1][i] == paths[i] && envs[..i + 1][i] == envs[i];
  }

  method DeletePaths(service: TrashService, paths: seq<string>, envs: seq<DeleteEnv>)
    returns (r: Option<Report<string, Why>>)
    requires service.Valid() && |paths| == |envs| && AllAsked(service.root, paths)
    requires AllFresh(service.root, service.View(), paths, envs)
    modifies service.disk, service.repo
    ensures paths == [] ==> r == None && service.View() == old(service.View())
    ensures paths != [] ==>
              && r.Some?
              && (service.View(), r.value) == DeleteAll(service.root, old(service.View()), paths, envs)
  {
    if paths == [] {
      return None;
    }
    ghost var s := service.View();
    var result := Report([], []);
    var i := 0;
    while i < |paths|
      invariant 0 <= i <= |paths|
      invariant service.Valid()
      invariant (service.View(), result) == DeleteAll(service.root, s, paths[..i], envs[..i])
    {
      var path := Paths.NormalizeAPIPath(paths[i]);
      assert AskedFor(service.root, path) && Fresh(service.root, service.View(), envs[i]);
      DeleteAllNext(service.root, s, paths, envs, i);
      var failure := DeleteOne(service, path, envs[i]);
      result := Reported(result, path, failure);
      i := i + 1;
    }
    assert paths[..|paths|] == paths && envs[..|envs|] == envs;
    r := Some(result);
  }

  method DeleteOne(service: TrashService, path: string, env: DeleteEnv) returns (failure: Option<Why>)
    requires service.Valid() && AskedFor(service.root, path)
    requires Fresh(service.root, service.View(), env)
    modifies service.disk, service.repo
    ensures service.Valid()
    ensures (service.View(), failure) == DeleteStep(service.root, old(service.View()), path, env)
  {
    if path == "/" {
      return Some(RootPath);
    }
    if Resolved(path).Some? {
      SoftDeleteKeepsValid(service.root, service.View(), Resolved(path).value, env.(apiPath := path));
    }
    var e := service.SoftDelete(env.(apiPath := path));
    failure := if e.Some? then Some(Trashing(e.value)) else None;
  }

  /** Each path has exactly one outcome, under its API path. */
  lemma {:induction false} DeleteRecordsEachPath(root: Path, s: State, paths: seq<string>, envs: seq<DeleteEnv>)
    requires |paths| == |envs| && AllAsked(root, paths)
    ensures var r := DeleteAll(root, s, paths, envs).1; OneOutcomeEach(APIPaths(paths), r.done, FailedPaths(r.failed))
  {
    if paths != [] {
      var n := |paths| - 1;
      var path := Paths.NormalizeAPIPath(paths[n]);
      DeleteRecordsEachPath(root, s, paths[..n], envs[..n]);
      var (s1, r) := DeleteAll(root, s, paths[..n], envs[..n]);
      RecordedOnce(APIPaths(paths[..n]), r, path, DeleteStep(root, s1, path, envs[n]).1);
    }
  }

  /** q lies at or below what one of the paths resolves to. */
  ghost predicate Below(paths: seq<string>, q: Path) {
    exists path :: path in paths && Resolved(path).Some? && Resolved(path).value <= q
  }

  /** What is not below one of the given paths stays as it was. */
  ghost predicate KeepsRest(t: Tree, t': Tree, gone: seq<string>) {
    forall q :: q in t && !Below(gone, q) ==> q in t' && t'[q] == t[q]
  }

  lemma DeletionKeepsRest(root: Path, w: World, path: string, p: Path, env: DeleteEnv)
    requires Inv(root, w) && Possible(root, w, Delete(p, env)) && env.apiPath == path
    ensures var (s, e) := SoftDeleteOf(root, w.state, p, env);
            KeepsRest(w.state.tree, s.tree, if e.None? then [path] else [])
  {
    DeleteEffect(root, w, p, env);
    if SoftDeleteOf(root, w.state, p, env).1.None? {
      MovedAwayKeepsRest(w.state.tree, p, EntryPath(root, env.trashName), path);
    }
  }

  lemma MovedAwayKeepsRest(t: Tree, p: Path, entry: Path, path: string)
    requires CanMove(t, p, entry) && Resolved(path) == Some(p)
    ensures KeepsRest(t, Moved(t, p, entry), [path])
  {
    AbsentIsVacant(t, entry);
    assert path in [path];
    forall q | q in t && !Below([path], q) ensures q in Moved(t, p, entry) && Moved(t, p, entry)[q] == t[q] {
      assert !(p <= q) && !(entry <= q);
    }
  }

  /** What a deletion, or several, come to: the trash is in order and no file content is lost. */
  ghost predicate Orderly(root: Path, w: World, w': World) {
    && Inv(root, w') && SameContents(w.state.tree, w'.state.tree)
    && w'.held.Keys <= w.held.Keys + w'.state.rows.Keys && w.state.rows.Keys <= w'.state.rows.Keys
  }

  lemma DeletionIsOrderly(root: Path, w: World, p: Path, env: DeleteEnv)
    requires Inv(root, w) && Possible(root, w, Delete(p, env))
    ensures Orderly(root, w, Step(root, w, Delete(p, env)))
  {
    StepKeepsInv(root, w, Delete(p, env));
    DeleteEffect(root, w, p, env);
    forall v | v != Dir ensures Count(Step(root, w, Delete(p, env)).state.tree, v) == Count(w.state.tree, v) {
      DeleteBalance(root, w, p, env, v);
    }
  }

  lemma CanDelete(root: Path, w: World, w1: World, p: Path, env: DeleteEnv)
    requires Orderly(root, w, w1) && env.id !in w.held
    requires Resolved(env.apiPath) == Some(p) && UserPath(root, p) && Fresh(root, w1.state, env)
    requires !env.crossDevice || LinkFree(w.state.tree)
    ensures Possible(root, w1, Delete(p, env))
  {
    if LinkFree(w.state.tree) {
      SameContentsKeepLinkFree(w.state.tree, w1.state.tree);
    }
  }

  lemma OrderlyTogether(root: Path, w: World, w1: World, w2: World)
    requires Orderly(root, w, w1) && Orderly(root, w1, w2)
    ensures Orderly(root, w, w2)
  {
  }

  /**
   A delete request over any list of paths, on one device or without symbolic links, keeps the trash in
   order and the file contents, and leaves alone what is not below a deleted path.
   */
  lemma {:induction false} DeletingLosesNothing(root: Path, w: World, paths: seq<string>, envs: seq<DeleteEnv>)
    returns (w': World)
    requires Inv(root, w) && |paths| == |envs| && AllAsked(root, paths)
    requires AllFresh(root, w.state, paths, envs) && forall env :: env in envs ==> env.id !in w.held
    requires (forall env :: env in envs ==> !env.crossDevice) || LinkFree(w.state.tree)
    ensures var (s, r) := DeleteAll(root, w.state, paths, envs);
            w'.state == s && Orderly(root, w, w') && KeepsRest(w.state.tree, s.tree, r.done)
  {
    w' := w;
    if paths != [] {
      var n := |paths| - 1;
      assert envs[n] in envs;
      FreshBefore(root, w.state, paths, envs, n);
      var w1 := DeletingLosesNothing(root, w, paths[..n], envs[..n]);
      w' := OneMoreDeletion(root, w, w1, DeleteAll(root, w.state, paths[..n], envs[..n]).1,
                            Paths.NormalizeAPIPath(paths[n]), envs[n]);
    }
  }

  lemma OneMoreDeletion(root: Path, w: World, w1: World, r: Report<string, Why>, path: string, env: DeleteEnv)
    returns (w': World)
    requires Inv(root, w) && Orderly(root, w, w1) && KeepsRest(w.state.tree, w1.state.tree, r.done)
    requires AskedFor(root, path) && Fresh(root, w1.state, env) && env.id !in w.held
    requires !env.crossDevice || LinkFree(w.state.tree)
    ensures var (s, failure) := DeleteStep(root, w1.state, path, env);
            && w'.state == s && Orderly(root, w, w')
            && KeepsRest(w.state.tree, s.tree, Reported(r, path, failure).done)
  {
    w' := w1;
    if path != "/" && Resolved(path).Some? {
      var p, e := Resolved(path).value, env.(apiPath := path);
      CanDelete(root, w, w1, p, e);
      w' := Step(root, w1, Delete(p, e));
      DeletionIsOrderly(root, w1, p, e);
      OrderlyTogether(root, w, w1, w');
      DeletionKeepsRest(root, w1, path, p, e);
      RestKept(w.state.tree, w1.state.tree, w'.state.tree, r.done, path, SoftDeleteOf(root, w1.state, p, e).1.None?);
    }
  }

  lemma FreshAt(root: Path, s: State, paths: seq<string>, envs: seq<DeleteEnv>, n: nat, i: nat)
    requires |paths| == |envs| && i < n <= |paths| && AllAsked(root, paths) && AllFresh(root, s, paths, envs)
    ensures Fresh(root, DeleteAll(root, s, paths[..n][..i], envs[..n][..i]).0, envs[..n][i])
  {
    assert paths[..n][..i] == paths[..i] && envs[..n][..i] == envs[..i];
  }

  lemma FreshBefore(root: Path, s: State, paths: seq<string>, envs: seq<DeleteEnv>, n: nat)
    requires |paths| == |envs| && n <= |paths| && AllAsked(root, paths) && AllFresh(root, s, paths, envs)
    ensures AllFresh(root, s, paths[..n], envs[..n])
  {
    forall i | 0 <= i < n ensures Fresh(root, DeleteAll(root, s, paths[..n][..i], envs[..n][..i]).0, envs[..n][i]) {
      FreshAt(root, s, paths, envs, n, i);
    }
  }

  lemma BelowMore(gone: seq<string>, path: string, q: Path)
    ensures Below(gone, q) || Below([path], q) ==> Below(gone + [path], q)
  {
    assert path in gone + [path];
    assert forall x :: x in gone ==> x in gone + [path];
  }

  lemma RestKept(t: Tree, t1: Tree, t2: Tree, gone: seq<string>, path: string, deleted: bool)
    requires KeepsRest(t, t1, gone) && KeepsRest(t1, t2, if deleted then [path] else [])
    ensures KeepsRest(t, t2, if deleted then gone + [path] else gone)
  {
    forall q ensures Below(gone, q) || Below([path], q) ==> Below(gone + [path], q) {
      BelowMore(gone, path, q);
    }
  }

  // ---------------------------------------------------------------------------------------------
  // What each answer means
  // ---------------------------------------------------------------------------------------------

  /** A deletion works when the path leads to an entry and the record can be stored. */
  ghost predicate Deletable(s: State, path: string, env: DeleteEnv) {
    path != "/" && Resolved(path).Some? && Resolved(path).value in s.tree && !env.createFails
  }

  /** Nothing at p or at the entry and below is new or changed. */
  ghost predicate SameElsewhere(t: Tree, t': Tree, p: Path, entry: Path) {
    forall q :: !(p <= q) && !(entry <= q) ==> (q in t' <==> q in t) && (q in t ==> t'[q] == t[q])
  }

  /** The subtree of p lies in the trash under the new name, with a record of its path; the rest is as before. */
  ghost predicate IsTrashed(root: Path, s: State, s': State, p: Path, path: string, env: DeleteEnv) {
    var entry := root + [env.trashName];
    && Vacant(s'.tree, p) && Subtree(s'.tree, entry) == Subtree(s.tree, p)
    && SameElsewhere(s.tree, s'.tree, p, entry)
    && s'.rows == s.rows[env.id := Record(path, env.trashName, env.now, None)]
    && s'.thumbs == s.thumbs
  }

  /** Why a deletion fails. */
  ghost predicate Explains(s: State, path: string, why: Why) {
    match why
    case RootPath => path == "/"
    case Trashing(error) =>
      && path != "/"
      && (Resolved(path).None? ==> error == Refused)
      && (Resolved(path).Some? && Resolved(path).value in s.tree ==> error == Database)
      && (Resolved(path).Some? && Free(s.tree, Resolved(path).value) ==> error == Os(NotExist))
  }

  /** One deletion from s to s': what it does and what it answers. */
  ghost predicate DeleteTurn(root: Path, s: State, s': State, path: string, env: DeleteEnv, failure: Option<Why>) {
    && (failure.None? <==> Deletable(s, path, env))
    && match failure
       case None => Resolved(path).Some? && IsTrashed(root, s, s', Resolved(path).value, path, env)
       case Some(why) => s' == s && Explains(s, path, why)
  }

  lemma TrashedAway(root: Path, w: World, p: Path, env: DeleteEnv)
    requires Inv(root, w) && Possible(root, w, Delete(p, env)) && SoftDeleteOf(root, w.state, p, env).1 == None
    ensures IsTrashed(root, w.state, SoftDeleteOf(root, w.state, p, env).0, p, env.apiPath, env)
  {
    DeleteEffect(root, w, p, env);
    MovedContents(w.state.tree, p, EntryPath(root, env.trashName));
  }

  lemma DeletionFails(root: Path, w: World, p: Path, env: DeleteEnv)
    requires Inv(root, w) && Possible(root, w, Delete(p, env)) && SoftDeleteOf(root, w.state, p, env).1 != None
    ensures SoftDeleteOf(root, w.state, p, env).0 == w.state
    ensures p in w.state.tree ==> SoftDeleteOf(root, w.state, p, env).1 == Some(Database)
    ensures Free(w.state.tree, p) ==> SoftDeleteOf(root, w.state, p, env).1 == Some(Os(NotExist))
  {
    DeleteEffect(root, w, p, env);
    if p in w.state.tree {
      CanTrashAndBack(root, w.state.tree, p, env.trashName, env.crossDevice);
    }
  }

  lemma DeleteTurnIs(root: Path, w: World, path: string, env: DeleteEnv)
    requires Inv(root, w) && AskedFor(root, path) && Fresh(root, w.state, env) && env.id !in w.held
    requires !env.crossDevice || LinkFree(w.state.tree)
    ensures var (s, failure) := DeleteStep(root, w.state, path, env);
            DeleteTurn(root, w.state, s, path, env, failure)
  {
    if path != "/" && Resolved(path).Some? {
      var p, e := Resolved(path).value, env.(apiPath := path);
      assert Possible(root, w, Delete(p, e));
      DeleteEffect(root, w, p, e);
      if SoftDeleteOf(root, w.state, p, e).1 == None {
        TrashedAway(root, w, p, e);
      } else {
        DeletionFails(root, w, p, e);
      }
    }
  }

  /** The states between the paths: each is one turn after the one before it. */
  ghost predicate DeleteTurns(root: Path, s: State, states: seq<State>, paths: seq<string>, envs: seq<DeleteEnv>,
                              failures: seq<Option<Why>>)
  {
    && |states| == |paths| + 1 && |envs| == |failures| == |paths|
    && if paths == [] then states[0] == s
       else
         var n := |paths| - 1;
         && DeleteTurns(root, s, states[..n + 1], paths[..n], envs[..n], failures[..n])
         && DeleteTurn(root, states[n], states[n + 1], Paths.NormalizeAPIPath(paths[n]), envs[n], failures[n])
  }

  lemma OneMoreTurn(root: Path, s: State, states: seq<State>, next: State, paths: seq<string>, envs: seq<DeleteEnv>,
                    failures: seq<Option<Why>>, failure: Option<Why>)
    requires paths != [] && |envs| == |paths|
    requires var n := |paths| - 1;
             && DeleteTurns(root, s, states, paths[..n], envs[..n], failures)
             && DeleteTurn(root, states[n], next, Paths.NormalizeAPIPath(paths[n]), envs[n], failure)
    ensures DeleteTurns(root, s, states + [next], paths, envs, failures + [failure])
  {
    var n := |paths| - 1;
    assert (states + [next])[..n + 1] == states && (failures + [failure])[..n] == failures;
    assert (states + [next])[n] == states[n] && (states + [next])[n + 1] == next;
    assert (failures + [failure])[n] == failure;
  }

  /**
   A request answers for each path what happened to it: a path is reported deleted exactly when, at its
   turn, it led to an entry and the record was stored; then the entry lies in the trash as it was.  A path
   that is reported failed changed nothing.
   */
  lemma {:induction false} DeleteAnswers(root: Path, w: World, paths: seq<string>, envs: seq<DeleteEnv>)
    returns (states: seq<State>, failures: seq<Option<Why>>)
    requires Inv(root, w) && |paths| == |envs| && AllAsked(root, paths)
    requires AllFresh(root, w.state, paths, envs) && forall env :: env in envs ==> env.id !in w.held
    requires (forall env :: env in envs ==> !env.crossDevice) || LinkFree(w.state.tree)
    ensures DeleteTurns(root, w.state, states, paths, envs, failures)
    ensures var (s, r) := DeleteAll(root, w.state, paths, envs);
            states[|paths|] == s && Lists(r, APIPaths(paths), failures)
  {
    states, failures := [w.state], [];
    if paths != [] {
      var n := |paths| - 1;
      var path := Paths.NormalizeAPIPath(paths[n]);
      assert envs[n] in envs;
      FreshBefore(root, w.state, paths, envs, n);
      var before, earlier := DeleteAnswers(root, w, paths[..n], envs[..n]);
      var w1 := DeletingLosesNothing(root, w, paths[..n], envs[..n]);
      var (s1, r) := DeleteAll(root, w.state, paths[..n], envs[..n]);
      NextTurn(root, w, w1, path, envs[n]);
      var (s2, failure) := DeleteStep(root, s1, path, envs[n]);
      OneMoreTurn(root, w.state, before, s2, paths, envs, earlier, failure);
      ListsOneMore(r, APIPaths(paths[..n]), earlier, path, failure);
      states, failures := before + [s2], earlier + [failure];
    }
  }

  lemma NextTurn(root: Path, w: World, w1: World, path: string, env: DeleteEnv)
    requires Orderly(root, w, w1) && AskedFor(root, path) && Fresh(root, w1.state, env) && env.id !in w.held
    requires !env.crossDevice || LinkFree(w.state.tree)
    ensures var (s, failure) := DeleteStep(root, w1.state, path, env);
            DeleteTurn(root, w1.state, s, path, env, failure)
  {
    if LinkFree(w.state.tree) {
      SameContentsKeepLinkFree(w.state.tree, w1.state.tree);
    }
    DeleteTurnIs(root, w1, path, env);
  }
}
