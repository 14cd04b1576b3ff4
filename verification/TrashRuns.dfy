/**
 Runs of the trash: what every operation keeps, what a restore brings back, and the balance of file
 contents over a whole run.
 */
module TrashRuns {
  import opened Wrappers
  import opened FileTree
  import opened Disks
  import opened Copying
  import opened Moving
  import opened Trash
  import opened Resolving
  import opened TrashPaths

  /**
   One step of a run.  Restore carries the record the table answers with; Edit stands for anything
   else that happens to the tree outside the trash.
   */
  datatype Action =
    | Delete(path: Path, del: DeleteEnv)
    | Restore(path: Path, record: Id, res: RestoreEnv)
    | Purge(record: Id)
    | Empty
    | Edit(tree: Tree)

  /** A state together with what each record's path held when it was deleted. */
  datatype World = World(state: State, held: map<Id, Tree>)

  /** What the surroundings guarantee: fresh names, the answer of the query, links only on one device. */
  ghost predicate Possible(root: Path, w: World, a: Action) {
    var s := w.state;
    match a
    case Delete(p, env) =>
      && Resolved(env.apiPath) == Some(p) && UserPath(root, p)
      && env.id !in s.rows && env.id !in w.held && EntryPath(root, env.trashName) !in s.tree
      && (env.crossDevice ==> LinkFree(Subtree(s.tree, p)))
    case Restore(p, id, env) =>
      && Resolved(env.apiPath) == Some(p) && UserPath(root, p) && Latest(s.rows, env.apiPath, id)
      && (env.crossDevice ==> LinkFree(Subtree(s.tree, EntryPath(root, s.rows[id].trashName))))
    case Purge(_) => true
    case Empty => true
    case Edit(t) => WellFormed(t) && IsDir(t, root) && Subtree(t, root) == Subtree(s.tree, root)
  }

  ghost function Step(root: Path, w: World, a: Action): World
    requires Possible(root, w, a)
  {
    var s := w.state;
    match a
    case Delete(p, env) =>
      var (s', e) := SoftDeleteOf(root, s, p, env);
      World(s', if e == None then w.held[env.id := Subtree(s.tree, p)] else w.held)
    case Restore(p, id, env) => w.(state := RestoreOf(root, s, p, id, env).0)
    case Purge(id) => w.(state := PurgeOf(root, s, id).0)
    case Empty => w.(state := EmptyOf(root, s, {}))
    case Edit(t) => w.(state := s.(tree := t))
  }

  /**
   Unrestored records and trash entries are one to one, and each entry equals the tree its original
   path held at deletion.
   */
  ghost predicate Inv(root: Path, w: World) {
    var s := w.state;
    && WellFormed(s.tree) && IsDir(s.tree, root)
    && DistinctEntries(s.rows)
    && (forall id :: Open(s.rows, id) ==> Located(root, s.rows[id]))
    && (forall n :: EntryPath(root, n) in s.tree ==> Listed(s.rows, n))
    && (forall id :: Open(s.rows, id) ==> Holds(root, w, id))
  }

  /** The record's API path resolves to a place outside the trash. */
  predicate Located(root: Path, record: Record) {
    Resolved(record.apiPath).Some? && UserPath(root, Origin(record))
  }

  /** Some unrestored record names the entry n. */
  ghost predicate Listed(rows: Table, n: Name) {
    exists id :: Open(rows, id) && rows[id].trashName == n
  }

  /** The entry of a record is in the trash and equals what was deleted. */
  ghost predicate Holds(root: Path, w: World, id: Id)
    requires id in w.state.rows
  {
    var entry := EntryPath(root, w.state.rows[id].trashName);
    && entry in w.state.tree
    && id in w.held && Subtree(w.state.tree, entry) == w.held[id]
  }

  // ---------------------------------------------------------------------------------------------
  // Moves in and out of the trash
  // ---------------------------------------------------------------------------------------------

  /** A move leaves every place that is apart from both its ends. */
  lemma MovedElsewhere(t: Tree, src: Path, dst: Path, p: Path)
    requires !(src <= p) && !(p <= src) && !(dst <= p) && !(p <= dst)
    ensures Subtree(Moved(t, src, dst), p) == Subtree(t, p)
    ensures p in Moved(t, src, dst) <==> p in t
  {
    SubtreeOutside(t, src, p);
    GraftElsewhere(Without(t, src), dst, Subtree(t, src), p);
  }

  lemma EntriesApart(root: Path, m: Name, n: Name)
    requires m != n
    ensures !(EntryPath(root, m) <= EntryPath(root, n))
  {
    assert EntryPath(root, m)[|root|] != EntryPath(root, n)[|root|];
  }

  /** A deletion that is recorded moves the subtree; any other leaves the tree as it was. */
  lemma DeleteEffect(root: Path, w: World, p: Path, env: DeleteEnv)
    requires WellFormed(w.state.tree) && IsDir(w.state.tree, root) && Possible(root, w, Delete(p, env))
    ensures var s := w.state;
            var (s', e) := SoftDeleteOf(root, s, p, env);
            var entry := EntryPath(root, env.trashName);
            if e == None
            then && CanMove(s.tree, p, entry) && s'.tree == Moved(s.tree, p, entry)
                 && s'.rows == s.rows[env.id := Record(env.apiPath, env.trashName, env.now, None)]
                 && s'.thumbs == s.thumbs
            else s' == s
    ensures SoftDeleteOf(root, w.state, p, env).1 == None <==> p in w.state.tree && !env.createFails
  {
    var s := w.state;
    if p in s.tree {
      var entry := EntryPath(root, env.trashName);
      CanTrash(root, s.tree, p, env.trashName);
      CanTrashAndBack(root, s.tree, p, env.trashName, env.crossDevice);
      MovePathSucceeds(s.tree, p, entry, env.crossDevice);
      MovedContents(s.tree, p, entry);
      MovePathSucceeds(Moved(s.tree, p, entry), entry, p, env.crossDevice);
      MovedBack(s.tree, p, entry);
    }
  }

  /** The entry equals what the path held exactly when no link was carried across devices. */
  lemma EntryIsExactIff(root: Path, t: Tree, p: Path, n: Name, crossDevice: bool)
    requires WellFormed(t) && IsDir(t, root) && UserPath(root, p) && p in t && EntryPath(root, n) !in t
    ensures var (t', e) := MovePathOf(t, p, EntryPath(root, n), crossDevice);
            && e == None
            && (Subtree(t', EntryPath(root, n)) == Subtree(t, p) <==> !crossDevice || LinkFree(Subtree(t, p)))
  {
    var entry := EntryPath(root, n);
    CanTrash(root, t, p, n);
    MovePathSucceeds(t, p, entry, crossDevice);
    FallbackIsRename(t, p, entry);
    MovedContents(t, p, entry);
    if crossDevice {
      RemovableSource(t, p, entry);
      AbsentIsVacant(t, entry);
      CutAfterGraft(t, p, entry, ThroughLinks(Subtree(t, p)));
      MovedIsWellFormed(t, p, entry);
      GraftThenCut(Without(t, p), entry, ThroughLinks(Subtree(t, p)));
      ThroughLinksIsIdentity(Subtree(t, p));
    }
  }

  /**
   A restore that is recorded moves the entry to the path, which was free; any other leaves every
   file where it was and at most adds directories.
   */
  lemma RestoreEffect(root: Path, w: World, p: Path, id: Id, env: RestoreEnv)
    requires Inv(root, w) && Possible(root, w, Restore(p, id, env))
    ensures var s := w.state;
            var (s', e) := RestoreOf(root, s, p, id, env);
            var entry := EntryPath(root, s.rows[id].trashName);
            && s'.thumbs == s.thumbs
            && (e == None <==> Free(s.tree, p) && !env.markFails)
            && (e == None ==>
                  && MkdirAllOf(s.tree, Parent(p)).Ok?
                  && var t := MkdirAllOf(s.tree, Parent(p)).value;
                     && OnlyAddsDirs(s.tree, t, Parent(p)) && CanMove(t, entry, p)
                     && s'.tree == Moved(t, entry, p) && s'.rows == Restored(s.rows, id, env.now))
            && (e != None ==>
                  s'.rows == s.rows && WellFormed(s'.tree) && OnlyAddsDirs(s.tree, s'.tree, Parent(p)))
            && (p in s.tree ==> s' == s)
  {
    var s := w.state;
    var entry := EntryPath(root, s.rows[id].trashName);
    if Free(s.tree, p) {
      MkdirAllMakes(s.tree, Parent(p));
      var t := MkdirAllOf(s.tree, Parent(p)).value;
      assert Holds(root, w, id);
      EntryIsApart(root, s.rows[id].trashName, p);
      PrefixThrough(entry, Parent(p), p);
      SubtreeApart(s.tree, t, entry, Parent(p));
      RestoreMoves(t, entry, p, env.crossDevice);
    }
  }

  /** Moving to a vacant place and back, on either device when the subtree has no link. */
  lemma RestoreMoves(t: Tree, entry: Path, p: Path, crossDevice: bool)
    requires CanMove(t, entry, p) && !(p <= entry) && entry != []
    requires crossDevice ==> LinkFree(Subtree(t, entry))
    ensures MovePathOf(t, entry, p, crossDevice) == (Moved(t, entry, p), None)
    ensures MovePathOf(Moved(t, entry, p), p, entry, crossDevice) == (t, None)
  {
    MovePathSucceeds(t, entry, p, crossDevice);
    CanMoveBack(t, Moved(t, entry, p), entry, p);
    MovedContents(t, entry, p);
    MovePathSucceeds(Moved(t, entry, p), p, entry, crossDevice);
    MovedBack(t, entry, p);
  }

  // ---------------------------------------------------------------------------------------------
  // The invariant
  // ---------------------------------------------------------------------------------------------

  lemma EntryFarFrom(root: Path, n: Name, m: Name, p: Path)
    requires UserPath(root, p) && n != m
    ensures var e, f := EntryPath(root, n), EntryPath(root, m);
            !(e <= f) && !(f <= e) && !(e <= p) && !(p <= e)
  {
    EntriesApart(root, n, m);
    EntriesApart(root, m, n);
    EntryIsApart(root, n, p);
  }

  lemma RootStays(root: Path, t: Tree, src: Path, dst: Path)
    requires CanMove(t, src, dst) && IsDir(t, root) && !(src <= root) && !(dst <= root)
    ensures IsDir(Moved(t, src, dst), root)
  {
    MovedContents(t, src, dst);
  }

  /** w' is w after a recorded deletion. */
  ghost predicate Deleted(root: Path, w: World, w': World, p: Path, env: DeleteEnv) {
    var s, s' := w.state, w'.state;
    && CanMove(s.tree, p, EntryPath(root, env.trashName))
    && s'.tree == Moved(s.tree, p, EntryPath(root, env.trashName))
    && s'.rows == s.rows[env.id := Record(env.apiPath, env.trashName, env.now, None)]
    && w'.held == w.held[env.id := Subtree(s.tree, p)]
  }

  lemma NewEntryHolds(root: Path, w: World, w': World, p: Path, env: DeleteEnv)
    requires Deleted(root, w, w', p, env)
    ensures Holds(root, w', env.id)
  {
    var entry := EntryPath(root, env.trashName);
    MovedContents(w.state.tree, p, entry);
    SubtreeRoot(w.state.tree, p);
    assert entry[|entry|..] == [];
  }

  lemma OldEntryHolds(root: Path, w: World, w': World, p: Path, env: DeleteEnv, id: Id)
    requires UserPath(root, p) && EntryPath(root, env.trashName) !in w.state.tree && env.id !in w.held
    requires Deleted(root, w, w', p, env) && id in w.state.rows && Holds(root, w, id)
    ensures id in w'.state.rows && Holds(root, w', id)
  {
    var n := w.state.rows[id].trashName;
    EntryFarFrom(root, n, env.trashName, p);
    MovedElsewhere(w.state.tree, p, EntryPath(root, env.trashName), EntryPath(root, n));
  }

  lemma DeletedHolds(root: Path, w: World, w': World, p: Path, env: DeleteEnv, id: Id)
    requires Inv(root, w) && Possible(root, w, Delete(p, env)) && Deleted(root, w, w', p, env)
    requires Open(w'.state.rows, id)
    ensures Holds(root, w', id)
  {
    if id == env.id {
      NewEntryHolds(root, w, w', p, env);
    } else {
      assert Holds(root, w, id);
      OldEntryHolds(root, w, w', p, env, id);
    }
  }

  lemma DeletedListed(root: Path, w: World, w': World, p: Path, env: DeleteEnv, n: Name)
    requires Inv(root, w) && Possible(root, w, Delete(p, env)) && Deleted(root, w, w', p, env)
    requires EntryPath(root, n) in w'.state.tree
    ensures Listed(w'.state.rows, n)
  {
    if n == env.trashName {
      assert Open(w'.state.rows, env.id);
    } else {
      EntryFarFrom(root, n, env.trashName, p);
      MovedElsewhere(w.state.tree, p, EntryPath(root, env.trashName), EntryPath(root, n));
      StaysListed(w.state.rows, n, env.id, Record(env.apiPath, env.trashName, env.now, None));
    }
  }

  lemma StaysListed(rows: Table, n: Name, id: Id, r: Record)
    requires Listed(rows, n) && (Open(rows, id) ==> rows[id].trashName != n)
    ensures Listed(rows[id := r], n)
  {
    var i :| Open(rows, i) && rows[i].trashName == n;
    assert Open(rows[id := r], i);
  }

  lemma DeletedDistinct(root: Path, w: World, w': World, p: Path, env: DeleteEnv)
    requires Inv(root, w) && Possible(root, w, Delete(p, env)) && Deleted(root, w, w', p, env)
    ensures DistinctEntries(w'.state.rows)
    ensures WellFormed(w'.state.tree) && IsDir(w'.state.tree, root)
  {
    MovedIsWellFormed(w.state.tree, p, EntryPath(root, env.trashName));
    EntryIsApart(root, env.trashName, p);
    RootStays(root, w.state.tree, p, EntryPath(root, env.trashName));
    forall i | Open(w.state.rows, i) ensures w.state.rows[i].trashName != env.trashName {
      assert Holds(root, w, i);
    }
  }

  lemma DeleteKeepsInv(root: Path, w: World, p: Path, env: DeleteEnv)
    requires Inv(root, w) && Possible(root, w, Delete(p, env))
    ensures Inv(root, Step(root, w, Delete(p, env)))
  {
    var w' := Step(root, w, Delete(p, env));
    DeleteEffect(root, w, p, env);
    if SoftDeleteOf(root, w.state, p, env).1 == None {
      assert Deleted(root, w, w', p, env);
      DeletedDistinct(root, w, w', p, env);
      forall id | Open(w'.state.rows, id) ensures Holds(root, w', id) {
        DeletedHolds(root, w, w', p, env, id);
      }
      forall n | EntryPath(root, n) in w'.state.tree
        ensures Listed(w'.state.rows, n)
      {
        DeletedListed(root, w, w', p, env, n);
      }
    } else {
      assert w' == w;
    }
  }

  /** s' is the state of w after a recorded restore, t being the tree in between. */
  ghost predicate Restoring(root: Path, w: World, s': State, p: Path, id: Id, t: Tree) {
    var s := w.state;
    && UserPath(root, p) && Open(s.rows, id)
    && OnlyAddsDirs(s.tree, t, Parent(p)) && CanMove(t, EntryPath(root, s.rows[id].trashName), p)
    && s'.tree == Moved(t, EntryPath(root, s.rows[id].trashName), p)
    && (exists now :: s'.rows == Restored(s.rows, id, now))
  }

  lemma RestoredHolds(root: Path, w: World, s': State, p: Path, id: Id, t: Tree, i: Id)
    requires Inv(root, w) && Restoring(root, w, s', p, id, t) && Open(s'.rows, i)
    ensures Holds(root, w.(state := s'), i)
  {
    assert Open(w.state.rows, i) && i != id && Holds(root, w, i);
    OtherEntryAfterRestore(root, w.state.tree, t, p, w.state.rows[i].trashName, w.state.rows[id].trashName);
  }

  lemma RestoredListed(root: Path, w: World, s': State, p: Path, id: Id, t: Tree, n: Name)
    requires Inv(root, w) && Restoring(root, w, s', p, id, t) && EntryPath(root, n) in s'.tree
    ensures Listed(s'.rows, n)
  {
    var rows, m := w.state.rows, w.state.rows[id].trashName;
    assert n != m by {
      MovedContents(t, EntryPath(root, m), p);
      assert EntryPath(root, m) <= EntryPath(root, m);
    }
    OtherEntryAfterRestore(root, w.state.tree, t, p, n, m);
    var now :| s'.rows == Restored(rows, id, now);
    StaysListed(rows, n, id, rows[id].(restoredAt := Some(now)));
  }

  lemma RestoredWell(root: Path, w: World, s': State, p: Path, id: Id, t: Tree)
    requires Inv(root, w) && Restoring(root, w, s', p, id, t)
    ensures WellFormed(s'.tree) && IsDir(s'.tree, root) && DistinctEntries(s'.rows)
    ensures forall i :: Open(s'.rows, i) ==> Located(root, s'.rows[i])
  {
    var entry := EntryPath(root, w.state.rows[id].trashName);
    MovedIsWellFormed(t, entry, p);
    EntryIsApart(root, w.state.rows[id].trashName, p);
    RootStays(root, t, entry, p);
    forall i | Open(s'.rows, i) ensures Open(w.state.rows, i) && s'.rows[i] == w.state.rows[i] {
    }
  }

  lemma RestoreKeepsInv(root: Path, w: World, p: Path, id: Id, env: RestoreEnv)
    requires Inv(root, w) && Possible(root, w, Restore(p, id, env))
    ensures Inv(root, Step(root, w, Restore(p, id, env)))
  {
    var (s', e) := RestoreOf(root, w.state, p, id, env);
    RestoreEffect(root, w, p, id, env);
    if e == None {
      var t := MkdirAllOf(w.state.tree, Parent(p)).value;
      assert Restoring(root, w, s', p, id, t);
      RestoredWell(root, w, s', p, id, t);
      forall i | Open(s'.rows, i) ensures Holds(root, w.(state := s'), i) {
        RestoredHolds(root, w, s', p, id, t, i);
      }
      forall n | EntryPath(root, n) in s'.tree ensures Listed(s'.rows, n) {
        RestoredListed(root, w, s', p, id, t, n);
      }
    } else {
      AddedDirsKeepInv(root, w, s'.tree, Parent(p), p);
    }
  }

  lemma OtherEntryAfterRestore(root: Path, t0: Tree, t: Tree, p: Path, n: Name, m: Name)
    requires UserPath(root, p) && n != m && OnlyAddsDirs(t0, t, Parent(p))
    ensures var e := EntryPath(root, n);
            var t' := Moved(t, EntryPath(root, m), p);
            && Subtree(t', e) == Subtree(t0, e)
            && (e in t' <==> e in t0)
  {
    EntryFarFrom(root, n, m, p);
    MovedElsewhere(t, EntryPath(root, m), p, EntryPath(root, n));
    PrefixThrough(EntryPath(root, n), Parent(p), p);
    SubtreeApart(t0, t, EntryPath(root, n), Parent(p));
  }

  lemma AddedDirsKeepInv(root: Path, w: World, t: Tree, up: Path, p: Path)
    requires Inv(root, w) && UserPath(root, p) && up <= p
    requires WellFormed(t) && OnlyAddsDirs(w.state.tree, t, up)
    ensures Inv(root, w.(state := w.state.(tree := t)))
  {
    var s := w.state;
    var w' := w.(state := s.(tree := t));
    forall n ensures var e := EntryPath(root, n); Subtree(t, e) == Subtree(s.tree, e) && (e in t <==> e in s.tree) {
      EntryIsApart(root, n, p);
      PrefixThrough(EntryPath(root, n), up, p);
      SubtreeApart(s.tree, t, EntryPath(root, n), up);
    }
    forall id | Open(s.rows, id) ensures Holds(root, w', id) {
      assert Holds(root, w, id);
    }
  }

  lemma PurgeKeepsInv(root: Path, w: World, id: Id)
    requires Inv(root, w)
    ensures Inv(root, Step(root, w, Purge(id)))
  {
    var s := w.state;
    var w' := Step(root, w, Purge(id));
    var s' := w'.state;
    if Open(s.rows, id) {
      var entry := EntryPath(root, s.rows[id].trashName);
      assert Parent(entry) == root && !(entry <= root);
      RootedWithout(s.tree, entry);
      forall i | Open(s'.rows, i) ensures Holds(root, w', i) {
        assert Open(s.rows, i) && Holds(root, w, i);
        EntriesApart(root, s.rows[i].trashName, s.rows[id].trashName);
        EntriesApart(root, s.rows[id].trashName, s.rows[i].trashName);
        SubtreeOutside(s.tree, entry, EntryPath(root, s.rows[i].trashName));
      }
      forall n | EntryPath(root, n) in s'.tree ensures Listed(s'.rows, n) {
        assert entry <= entry;
        var i :| Open(s.rows, i) && s.rows[i].trashName == n;
        assert Open(s'.rows, i);
      }
    }
  }

  lemma RootedWithoutEntries(root: Path, rows: Table, ids: set<Id>, t: Tree)
    requires Rooted(t) && IsDir(t, root)
    ensures Rooted(WithoutEntries(root, rows, ids, t)) && IsDir(WithoutEntries(root, rows, ids, t), root)
    ensures t[[]] == Dir ==> WithoutEntries(root, rows, ids, t)[[]] == Dir
  {
    var t' := WithoutEntries(root, rows, ids, t);
    forall q | q in t' && q != [] ensures IsDir(t', Parent(q)) {
      if id :| id in ids && id in rows && EntryPath(root, rows[id].trashName) <= Parent(q) {
        PrefixThrough(EntryPath(root, rows[id].trashName), Parent(q), q);
        assert false;
      }
    }
    assert !InEntry(root, rows, ids, root);
    assert !InEntry(root, rows, ids, []);
  }

  /**
   Emptying the trash keeps the invariant exactly when every entry could be removed: the records of
   the others go all the same, and their entries are left without one.
   */
  lemma EmptyKeepsInvIff(root: Path, w: World, failing: set<Id>)
    requires Inv(root, w)
    ensures Inv(root, w.(state := EmptyOf(root, w.state, failing))) <==> failing !! OpenIds(w.state.rows)
  {
    var s := w.state;
    var s' := EmptyOf(root, s, failing);
    var ids := OpenIds(s.rows) - failing;
    RootedWithoutEntries(root, s.rows, ids, s.tree);
    forall id ensures !Open(s'.rows, id) {}
    forall id | Open(s.rows, id) ensures EntryPath(root, s.rows[id].trashName) in s'.tree <==> id in failing {
      assert Holds(root, w, id);
      EntryGoneIff(root, s.rows, ids, id);
    }
    if failing !! OpenIds(s.rows) {
      forall n ensures EntryPath(root, n) !in s'.tree {
        if EntryPath(root, n) in s.tree {
          var id :| Open(s.rows, id) && s.rows[id].trashName == n;
        }
      }
    } else {
      var id :| id in failing && id in OpenIds(s.rows);
      assert EntryPath(root, s.rows[id].trashName) in s'.tree;
    }
  }

  lemma EntryGoneIff(root: Path, rows: Table, ids: set<Id>, id: Id)
    requires DistinctEntries(rows) && ids <= OpenIds(rows) && Open(rows, id)
    ensures InEntry(root, rows, ids, EntryPath(root, rows[id].trashName)) <==> id in ids
  {
    var e := EntryPath(root, rows[id].trashName);
    if i :| i in ids && i in rows && EntryPath(root, rows[i].trashName) <= e {
      if rows[i].trashName != rows[id].trashName {
        EntriesApart(root, rows[i].trashName, rows[id].trashName);
      }
    }
    if id in ids {
      assert e <= e;
    }
  }

  lemma EditKeepsInv(root: Path, w: World, t: Tree)
    requires Inv(root, w) && Possible(root, w, Edit(t))
    ensures Inv(root, Step(root, w, Edit(t)))
  {
    var s := w.state;
    var w' := Step(root, w, Edit(t));
    forall n ensures var e := EntryPath(root, n); Subtree(t, e) == Subtree(s.tree, e) && (e in t <==> e in s.tree) {
      SubtreeNested(t, root, [n]);
      SubtreeNested(s.tree, root, [n]);
      assert [n] in Subtree(t, root) <==> [n] in Subtree(s.tree, root);
    }
    forall id | Open(s.rows, id) ensures Holds(root, w', id) {
      assert Holds(root, w, id);
    }
  }

  lemma StepKeepsInv(root: Path, w: World, a: Action)
    requires Inv(root, w) && Possible(root, w, a)
    ensures Inv(root, Step(root, w, a))
  {
    match a
    case Delete(p, env) => DeleteKeepsInv(root, w, p, env);
    case Restore(p, id, env) => RestoreKeepsInv(root, w, p, id, env);
    case Purge(id) => PurgeKeepsInv(root, w, id);
    case Empty => EmptyKeepsInvIff(root, w, {});
    case Edit(t) => EditKeepsInv(root, w, t);
  }

  // ---------------------------------------------------------------------------------------------
  // Runs
  // ---------------------------------------------------------------------------------------------

  ghost predicate PossibleRun(root: Path, w: World, run: seq<Action>)
    decreases |run|
  {
    run == [] || (Possible(root, w, run[0]) && PossibleRun(root, Step(root, w, run[0]), run[1..]))
  }

  ghost function Run(root: Path, w: World, run: seq<Action>): World
    requires PossibleRun(root, w, run)
    decreases |run|
  {
    if run == [] then w else Run(root, Step(root, w, run[0]), run[1..])
  }

  /** In every run, records and entries stay one to one, and each entry is what was deleted. */
  lemma {:induction false} RunKeepsInv(root: Path, w: World, run: seq<Action>)
    requires Inv(root, w) && PossibleRun(root, w, run)
    ensures Inv(root, Run(root, w, run))
    decreases |run|
  {
    if run != [] {
      StepKeepsInv(root, w, run[0]);
      RunKeepsInv(root, Step(root, w, run[0]), run[1..]);
    }
  }

  lemma {:induction false} HeldIsKept(root: Path, w: World, run: seq<Action>, id: Id)
    requires PossibleRun(root, w, run) && id in w.held
    ensures id in Run(root, w, run).held && Run(root, w, run).held[id] == w.held[id]
    decreases |run|
  {
    if run != [] {
      HeldIsKept(root, Step(root, w, run[0]), run[1..], id);
    }
  }

  /** What a step takes out of the world for good. */
  ghost function Discarded(root: Path, s: State, a: Action, v: Node): nat {
    match a
    case Purge(id) =>
      if Open(s.rows, id) then Count(Subtree(s.tree, EntryPath(root, s.rows[id].trashName)), v) else 0
    case Empty => Count(Subtree(s.tree, root), v)
    case _ => 0
  }

  lemma DeleteBalance(root: Path, w: World, p: Path, env: DeleteEnv, v: Node)
    requires Inv(root, w) && Possible(root, w, Delete(p, env))
    ensures Count(Step(root, w, Delete(p, env)).state.tree, v) == Count(w.state.tree, v)
  {
    DeleteEffect(root, w, p, env);
    if SoftDeleteOf(root, w.state, p, env).1 == None {
      MovedKeepsCount(w.state.tree, p, EntryPath(root, env.trashName), v);
    }
  }

  lemma RestoreBalance(root: Path, w: World, p: Path, id: Id, env: RestoreEnv, v: Node)
    requires Inv(root, w) && Possible(root, w, Restore(p, id, env)) && v != Dir
    ensures Count(Step(root, w, Restore(p, id, env)).state.tree, v) == Count(w.state.tree, v)
  {
    var (s', e) := RestoreOf(root, w.state, p, id, env);
    RestoreEffect(root, w, p, id, env);
    if e == None {
      var t := MkdirAllOf(w.state.tree, Parent(p)).value;
      OnlyAddsDirsKeepsCount(w.state.tree, t, Parent(p), v);
      MovedKeepsCount(t, EntryPath(root, w.state.rows[id].trashName), p, v);
    } else {
      OnlyAddsDirsKeepsCount(w.state.tree, s'.tree, Parent(p), v);
    }
  }

  lemma BelowRootIsInEntry(root: Path, w: World, q: Path)
    requires Inv(root, w) && q in w.state.tree && root <= q && q != root
    ensures InEntry(root, w.state.rows, OpenIds(w.state.rows), q)
  {
    var n := q[|root|];
    assert EntryPath(root, n) == q[..|root| + 1];
    if EntryPath(root, n) != q {
      AncestorIsDir(w.state.tree, q, EntryPath(root, n));
    }
    assert Listed(w.state.rows, n);
    var id :| Open(w.state.rows, id) && w.state.rows[id].trashName == n;
    assert id in OpenIds(w.state.rows);
  }

  lemma EmptyBalance(root: Path, w: World, v: Node)
    requires Inv(root, w) && v != Dir
    ensures Count(Step(root, w, Empty).state.tree, v) + Count(Subtree(w.state.tree, root), v) == Count(w.state.tree, v)
  {
    var s := w.state;
    var t' := Step(root, w, Empty).state.tree;
    assert OpenIds(s.rows) - {} == OpenIds(s.rows);
    CountSplit(s.tree, root, v);
    forall q | q in s.tree && s.tree[q] == v ensures q in t' <==> !(root <= q) {
      if root <= q {
        BelowRootIsInEntry(root, w, q);
      } else if id :| id in OpenIds(s.rows) && id in s.rows && EntryPath(root, s.rows[id].trashName) <= q {
        PrefixThrough(root, EntryPath(root, s.rows[id].trashName), q);
      }
    }
    assert Holding(t', v) == Holding(Without(s.tree, root), v);
  }

  lemma StepBalance(root: Path, w: World, a: Action, v: Node)
    requires Inv(root, w) && Possible(root, w, a) && !a.Edit? && v != Dir
    ensures Count(Step(root, w, a).state.tree, v) + Discarded(root, w.state, a, v) == Count(w.state.tree, v)
  {
    match a
    case Delete(p, env) => DeleteBalance(root, w, p, env, v);
    case Restore(p, id, env) => RestoreBalance(root, w, p, id, env, v);
    case Purge(id) =>
      if Open(w.state.rows, id) {
        CountSplit(w.state.tree, EntryPath(root, w.state.rows[id].trashName), v);
      }
    case Empty => EmptyBalance(root, w, v);
  }

  ghost function AllDiscarded(root: Path, w: World, run: seq<Action>, v: Node): nat
    requires PossibleRun(root, w, run)
    decreases |run|
  {
    if run == [] then 0
    else Discarded(root, w.state, run[0], v) + AllDiscarded(root, Step(root, w, run[0]), run[1..], v)
  }

  /**
   Over a whole run of the trash operations no file content is lost or duplicated, except what
   permanent deletes and emptying discard.
   */
  lemma {:induction false} RunBalance(root: Path, w: World, run: seq<Action>, v: Node)
    requires Inv(root, w) && PossibleRun(root, w, run) && v != Dir
    requires forall a :: a in run ==> !a.Edit?
    ensures Count(Run(root, w, run).state.tree, v) + AllDiscarded(root, w, run, v) == Count(w.state.tree, v)
    decreases |run|
  {
    if run != [] {
      StepBalance(root, w, run[0], v);
      StepKeepsInv(root, w, run[0]);
      RunBalance(root, Step(root, w, run[0]), run[1..], v);
    }
  }

  ghost predicate SameContents(t: Tree, t': Tree) {
    forall v :: v != Dir ==> Count(t', v) == Count(t, v)
  }

  lemma SameContentsKeepLinkFree(t: Tree, t': Tree)
    requires SameContents(t, t') && LinkFree(t)
    ensures LinkFree(t')
  {
    forall q | q in t' ensures !t'[q].Link? {
      var v := t'[q];
      assert q in Holding(t', v);
      if v != Dir {
        assert Count(t, v) == Count(t', v) > 0;
        var p :| p in Holding(t, v);
      }
    }
  }

  // ---------------------------------------------------------------------------------------------
  // Deleting and restoring
  // ---------------------------------------------------------------------------------------------

  /** A restore that succeeds puts back what the record's path held when it was deleted. */
  lemma RestoreBringsBackTheVersion(root: Path, w: World, p: Path, id: Id, env: RestoreEnv)
    requires Inv(root, w) && Possible(root, w, Restore(p, id, env))
    ensures id in w.held
    ensures RestoreOf(root, w.state, p, id, env).1 == None ==>
              Subtree(Step(root, w, Restore(p, id, env)).state.tree, p) == w.held[id]
  {
    assert Holds(root, w, id);
    if RestoreOf(root, w.state, p, id, env).1 == None {
      RestoredIsHeld(root, w, p, id, env);
    }
  }

  /** Making the directory of a restored path leaves the entry as it is held. */
  lemma EntryStaysHeld(root: Path, w: World, p: Path, id: Id)
    requires Inv(root, w) && Open(w.state.rows, id) && UserPath(root, p) && MkdirAllOf(w.state.tree, Parent(p)).Ok?
    ensures var entry := EntryPath(root, w.state.rows[id].trashName);
            id in w.held && Subtree(MkdirAllOf(w.state.tree, Parent(p)).value, entry) == w.held[id]
  {
    var n := w.state.rows[id].trashName;
    assert Holds(root, w, id);
    MkdirAllMakes(w.state.tree, Parent(p));
    EntryIsApart(root, n, p);
    PrefixThrough(EntryPath(root, n), Parent(p), p);
    SubtreeApart(w.state.tree, MkdirAllOf(w.state.tree, Parent(p)).value, EntryPath(root, n), Parent(p));
  }

  lemma RestoredIsHeld(root: Path, w: World, p: Path, id: Id, env: RestoreEnv)
    requires Inv(root, w) && Possible(root, w, Restore(p, id, env)) && id in w.held
    requires RestoreOf(root, w.state, p, id, env).1 == None
    ensures Subtree(Step(root, w, Restore(p, id, env)).state.tree, p) == w.held[id]
  {
    RestoreEffect(root, w, p, id, env);
    EntryStaysHeld(root, w, p, id);
    MovedContents(MkdirAllOf(w.state.tree, Parent(p)).value, EntryPath(root, w.state.rows[id].trashName), p);
  }

  /**
   Deleting a path and restoring it, whatever happened in between, gives back the same tree, if the
   path is free then and the deleted version is the one the table answers with.
   */
  lemma DeletedComesBack(root: Path, w: World, p: Path, del: DeleteEnv, run: seq<Action>, res: RestoreEnv)
    requires Inv(root, w) && Possible(root, w, Delete(p, del)) && p in w.state.tree && !del.createFails
    requires PossibleRun(root, Step(root, w, Delete(p, del)), run)
    ensures var w' := Run(root, Step(root, w, Delete(p, del)), run);
            Possible(root, w', Restore(p, del.id, res)) && Free(w'.state.tree, p) && !res.markFails ==>
              Subtree(Step(root, w', Restore(p, del.id, res)).state.tree, p) == Subtree(w.state.tree, p)
  {
    var w1 := Step(root, w, Delete(p, del));
    var w2 := Run(root, w1, run);
    DeleteEffect(root, w, p, del);
    StepKeepsInv(root, w, Delete(p, del));
    RunKeepsInv(root, w1, run);
    HeldIsKept(root, w1, run, del.id);
    if Possible(root, w2, Restore(p, del.id, res)) && Free(w2.state.tree, p) && !res.markFails {
      RestoreEffect(root, w2, p, del.id, res);
      RestoreBringsBackTheVersion(root, w2, p, del.id, res);
    }
  }

  /** The step does not concern the record id of a path: no deletion of it, and id is not taken out. */
  predicate LeavesAlone(a: Action, apiPath: string, id: Id) {
    match a
    case Delete(_, env) => env.apiPath != apiPath
    case Restore(_, record, _) => record != id
    case Purge(record) => record != id
    case Empty => false
    case Edit(_) => true
  }

  lemma NewRecordKeepsLatest(rows: Table, added: Id, record: Record, apiPath: string, id: Id)
    requires Latest(rows, apiPath, id) && added !in rows && record.apiPath != apiPath
    ensures Latest(rows[added := record], apiPath, id)
  {
  }

  lemma DeleteKeepsLatest(root: Path, w: World, q: Path, env: DeleteEnv, apiPath: string, id: Id)
    requires Inv(root, w) && Possible(root, w, Delete(q, env)) && LeavesAlone(Delete(q, env), apiPath, id)
    requires Latest(w.state.rows, apiPath, id)
    ensures Latest(Step(root, w, Delete(q, env)).state.rows, apiPath, id)
  {
    DeleteEffect(root, w, q, env);
    if SoftDeleteOf(root, w.state, q, env).1 == None {
      NewRecordKeepsLatest(w.state.rows, env.id, Record(env.apiPath, env.trashName, env.now, None), apiPath, id);
    }
  }

  lemma MarkedKeepsLatest(rows: Table, record: Id, now: int, apiPath: string, id: Id)
    requires Latest(rows, apiPath, id) && record in rows && record != id
    ensures Latest(Restored(rows, record, now), apiPath, id)
  {
    assert forall j :: Open(Restored(rows, record, now), j) ==> Open(rows, j);
  }

  lemma RestoreKeepsLatest(root: Path, w: World, q: Path, record: Id, env: RestoreEnv, apiPath: string, id: Id)
    requires Inv(root, w) && Possible(root, w, Restore(q, record, env))
    requires LeavesAlone(Restore(q, record, env), apiPath, id) && Latest(w.state.rows, apiPath, id)
    ensures Latest(Step(root, w, Restore(q, record, env)).state.rows, apiPath, id)
  {
    RestoreEffect(root, w, q, record, env);
    if RestoreOf(root, w.state, q, record, env).1 == None {
      MarkedKeepsLatest(w.state.rows, record, env.now, apiPath, id);
    }
  }

  lemma StepKeepsLatest(root: Path, w: World, a: Action, apiPath: string, id: Id)
    requires Inv(root, w) && Possible(root, w, a) && LeavesAlone(a, apiPath, id) && Latest(w.state.rows, apiPath, id)
    ensures Latest(Step(root, w, a).state.rows, apiPath, id)
  {
    match a
    case Delete(q, env) => DeleteKeepsLatest(root, w, q, env, apiPath, id);
    case Restore(q, record, env) => RestoreKeepsLatest(root, w, q, record, env, apiPath, id);
    case Purge(record) =>
    case Empty =>
    case Edit(t) =>
  }

  lemma {:induction false} RunKeepsLatest(root: Path, w: World, run: seq<Action>, apiPath: string, id: Id)
    requires Inv(root, w) && PossibleRun(root, w, run) && Latest(w.state.rows, apiPath, id)
    requires forall a :: a in run ==> LeavesAlone(a, apiPath, id)
    ensures Latest(Run(root, w, run).state.rows, apiPath, id)
    decreases |run|
  {
    if run != [] {
      assert run[0] in run;
      StepKeepsLatest(root, w, run[0], apiPath, id);
      StepKeepsInv(root, w, run[0]);
      RunKeepsLatest(root, Step(root, w, run[0]), run[1..], apiPath, id);
    }
  }

  /**
   Whatever happens elsewhere after a deletion that is later than those recorded, the deleted version
   is the one that comes back once the path is free.
   */
  lemma DeletedComesBackWhateverElse(root: Path, w: World, p: Path, del: DeleteEnv, run: seq<Action>, res: RestoreEnv)
    requires Inv(root, w) && Possible(root, w, Delete(p, del)) && p in w.state.tree && !del.createFails
    requires forall i :: i in w.state.rows ==> w.state.rows[i].deletedAt < del.now
    requires PossibleRun(root, Step(root, w, Delete(p, del)), run)
    requires forall a :: a in run ==> LeavesAlone(a, del.apiPath, del.id)
    requires res.apiPath == del.apiPath && !res.markFails && (res.crossDevice ==> LinkFree(Subtree(w.state.tree, p)))
    ensures var w' := Run(root, Step(root, w, Delete(p, del)), run);
            && Possible(root, w', Restore(p, del.id, res))
            && (Free(w'.state.tree, p) ==>
                  Subtree(Step(root, w', Restore(p, del.id, res)).state.tree, p) == Subtree(w.state.tree, p))
  {
    var w1 := Step(root, w, Delete(p, del));
    DeleteEffect(root, w, p, del);
    StepKeepsInv(root, w, Delete(p, del));
    assert Latest(w1.state.rows, del.apiPath, del.id);
    RunKeepsLatest(root, w1, run, del.apiPath, del.id);
    RunKeepsInv(root, w1, run);
    HeldIsKept(root, w1, run, del.id);
    assert Holds(root, Run(root, w1, run), del.id);
    DeletedComesBack(root, w, p, del, run, res);
  }

  /** With nothing in between, the whole tree comes back. */
  lemma DeleteThenRestoreIsIdentity(root: Path, w: World, p: Path, del: DeleteEnv, res: RestoreEnv)
    requires Inv(root, w) && Possible(root, w, Delete(p, del)) && p in w.state.tree && !del.createFails
    requires var w' := Step(root, w, Delete(p, del));
             Possible(root, w', Restore(p, del.id, res)) && !res.markFails
    ensures Step(root, Step(root, w, Delete(p, del)), Restore(p, del.id, res)).state.tree == w.state.tree
  {
    var w1 := Step(root, w, Delete(p, del));
    var entry := EntryPath(root, del.trashName);
    DeleteEffect(root, w, p, del);
    StepKeepsInv(root, w, Delete(p, del));
    MovedContents(w.state.tree, p, entry);
    MovedBack(w.state.tree, p, entry);
    assert IsDir(w1.state.tree, Parent(p)) && p !in w1.state.tree by {
      assert p <= p && !(p <= Parent(p));
      EntryIsApart(root, del.trashName, p);
      PrefixThrough(entry, Parent(p), p);
    }
    RestoreEffect(root, w1, p, del.id, res);
  }

  /** Each deletion comes later than all recorded ones. */
  ghost predicate Clocked(root: Path, w: World, run: seq<Action>)
    requires PossibleRun(root, w, run)
    decreases |run|
  {
    run == [] ||
    (&& (run[0].Delete? ==> forall i :: i in w.state.rows ==> w.state.rows[i].deletedAt < run[0].del.now)
     && Clocked(root, Step(root, w, run[0]), run[1..]))
  }

  ghost predicate DistinctTimes(rows: Table) {
    forall i, j :: i in rows && j in rows && i != j ==> rows[i].deletedAt != rows[j].deletedAt
  }

  lemma {:induction false} ClockKeepsTimesDistinct(root: Path, w: World, run: seq<Action>)
    requires Inv(root, w) && PossibleRun(root, w, run) && Clocked(root, w, run) && DistinctTimes(w.state.rows)
    ensures DistinctTimes(Run(root, w, run).state.rows)
    decreases |run|
  {
    if run != [] {
      StepKeepsInv(root, w, run[0]);
      StepKeepsTimesDistinct(root, w, run[0]);
      ClockKeepsTimesDistinct(root, Step(root, w, run[0]), run[1..]);
    }
  }

  lemma StepKeepsTimesDistinct(root: Path, w: World, a: Action)
    requires Inv(root, w) && Possible(root, w, a) && DistinctTimes(w.state.rows)
    requires a.Delete? ==> forall i :: i in w.state.rows ==> w.state.rows[i].deletedAt < a.del.now
    ensures DistinctTimes(Step(root, w, a).state.rows)
  {
    match a
    case Delete(p, env) => DeleteEffect(root, w, p, env);
    case Restore(p, id, env) => RestoreEffect(root, w, p, id, env);
    case Purge(id) =>
    case Empty =>
    case Edit(t) =>
  }

  /**
   In a run whose deletions have increasing times, a restore that succeeds brings back the newest
   version of the path that was not restored yet, and no other record could have been answered.
   */
  lemma NewestComesBack(root: Path, w: World, run: seq<Action>, p: Path, id: Id, res: RestoreEnv)
    requires Inv(root, w) && PossibleRun(root, w, run) && Clocked(root, w, run) && DistinctTimes(w.state.rows)
    ensures var w' := Run(root, w, run);
            Possible(root, w', Restore(p, id, res)) ==>
              && (forall j :: Open(w'.state.rows, j) && w'.state.rows[j].apiPath == res.apiPath && j != id ==>
                                w'.state.rows[j].deletedAt < w'.state.rows[id].deletedAt
                                && !Latest(w'.state.rows, res.apiPath, j))
              && (RestoreOf(root, w'.state, p, id, res).1 == None ==>
                    && p !in w'.state.tree
                    && id in w'.held && Subtree(Step(root, w', Restore(p, id, res)).state.tree, p) == w'.held[id])
  {
    var w' := Run(root, w, run);
    RunKeepsInv(root, w, run);
    ClockKeepsTimesDistinct(root, w, run);
    if Possible(root, w', Restore(p, id, res)) {
      RestoreBringsBackTheVersion(root, w', p, id, res);
      RestoreEffect(root, w', p, id, res);
    }
  }
}
