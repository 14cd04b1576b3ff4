/**
 The trash: deleted entries are moved into a directory of their own, and a table of records says
 where each came from, as the API path of the deletion.  Trees work on resolved paths, thumbnails are
 known by the resolved path of their image; `root` is the trash directory.
 */
module Trash {
  import opened Wrappers
  import opened FileTree
  import opened Disks
  import opened Copying
  import opened Moving
  import opened Resolving
  import opened TrashPaths

  type Id = nat

  datatype Record = Record(apiPath: string, trashName: Name, deletedAt: int, restoredAt: Option<int>)

  type Table = map<Id, Record>

  /** A cached thumbnail is known by the path of its image and its size. */
  datatype Thumb = Thumb(path: Path, size: int)

  const MIN_SIZE := 32
  const MAX_SIZE := 2048

  datatype TrashError = Os(error: OsError) | NotFound | TargetExists | Database | Refused | Unremovable

  datatype State = State(tree: Tree, rows: Table, thumbs: set<Thumb>)

  predicate Open(rows: Table, id: Id) {
    id in rows && rows[id].restoredAt == None
  }

  function EntryPath(root: Path, trashName: Name): Path {
    root + [trashName]
  }

  /** User operations stay clear of the trash directory and of the directories it lies in. */
  predicate UserPath(root: Path, p: Path) {
    p != [] && !(root <= p) && !(p <= root)
  }

  // ---------------------------------------------------------------------------------------------
  // The record table
  // ---------------------------------------------------------------------------------------------

  /** The answer of the query for the newest unrestored record of a path. */
  ghost predicate Latest(rows: Table, apiPath: string, id: Id) {
    && Open(rows, id) && rows[id].apiPath == apiPath
    && forall j :: Open(rows, j) && rows[j].apiPath == apiPath ==> rows[j].deletedAt <= rows[id].deletedAt
  }

  ghost predicate HasOpen(rows: Table, apiPath: string) {
    exists j :: Open(rows, j) && rows[j].apiPath == apiPath
  }

  class TrashRepository {
    var rows: Table

    constructor (rows: Table)
      ensures this.rows == rows
    {
      this.rows := rows;
    }

    method Create(id: Id, record: Record, fails: bool) returns (ok: bool)
      requires id !in rows
      modifies this
      ensures ok == !fails
      ensures rows == if ok then old(rows)[id := record] else old(rows)
    {
      ok := !fails;
      if ok {
        rows := rows[id := record];
      }
    }

    method FindLatestByPath(apiPath: string) returns (id: Option<Id>)
      ensures id.Some? ==> Latest(rows, apiPath, id.value)
      ensures id.Some? <==> HasOpen(rows, apiPath)
    {
      id := None;
      var todo := rows.Keys;
      while todo != {}
        invariant todo <= rows.Keys
        invariant id.Some? ==>
                    && Open(rows, id.value) && rows[id.value].apiPath == apiPath
                    && forall j :: Open(rows, j) && j !in todo && rows[j].apiPath == apiPath ==>
                                     rows[j].deletedAt <= rows[id.value].deletedAt
        invariant id.None? ==> forall j :: Open(rows, j) && j !in todo ==> rows[j].apiPath != apiPath
      {
        var j :| j in todo;
        todo := todo - {j};
        if Open(rows, j) && rows[j].apiPath == apiPath {
          if id.None? || rows[id.value].deletedAt < rows[j].deletedAt {
            id := Some(j);
          }
        }
      }
    }

    method FindByID(id: Id) returns (r: Option<Record>)
      ensures r == if Open(rows, id) then Some(rows[id]) else None
    {
      r := if Open(rows, id) then Some(rows[id]) else None;
    }

    method MarkRestored(id: Id, now: int, fails: bool) returns (ok: bool)
      modifies this
      ensures ok == (!fails && Open(old(rows), id))
      ensures rows == if ok then Restored(old(rows), id, now) else old(rows)
    {
      ok := !fails && Open(rows, id);
      if ok {
        rows := Restored(rows, id, now);
      }
    }

    method Delete(id: Id) returns (ok: bool)
      modifies this
      ensures ok == (id in old(rows))
      ensures rows == old(rows) - {id}
    {
      ok := id in rows;
      rows := rows - {id};
    }

    method ListOpen() returns (ids: set<Id>)
      ensures ids == OpenIds(rows)
    {
      ids := OpenIds(rows);
    }

    method DeleteAllNotRestored()
      modifies this
      ensures rows == old(rows) - OpenIds(old(rows))
    {
      rows := rows - OpenIds(rows);
    }
  }

  function Restored(rows: Table, id: Id, now: int): Table
    requires id in rows
  {
    rows[id := rows[id].(restoredAt := Some(now))]
  }

  function OpenIds(rows: Table): set<Id> {
    set id | id in rows && Open(rows, id)
  }

  // ---------------------------------------------------------------------------------------------
  // The operations as functions
  // ---------------------------------------------------------------------------------------------

  /** What a deletion is asked for, and what it draws from its surroundings. */
  datatype DeleteEnv = DeleteEnv(apiPath: string, id: Id, trashName: Name, now: int,
                                 createFails: bool, crossDevice: bool)

  datatype RestoreEnv = RestoreEnv(apiPath: string, now: int, markFails: bool, crossDevice: bool)

  ghost function SoftDeleteOf(root: Path, s: State, p: Path, env: DeleteEnv): (State, Option<TrashError>)
    requires p != []
  {
    match StatOf(s.tree, p)
    case Failed(error) => (s, Some(Os(error)))
    case Found(_) =>
      var entry := EntryPath(root, env.trashName);
      match MovePathOf(s.tree, p, entry, env.crossDevice)
      case (t, Some(error)) => (s.(tree := t), Some(Os(error)))
      case (t, None) =>
        if env.createFails
        then (s.(tree := MovePathOf(t, entry, p, env.crossDevice).0), Some(Database))
        else (s.(tree := t, rows := s.rows[env.id := Record(env.apiPath, env.trashName, env.now, None)]), None)
  }

  /** The entry moved to p, whose directory is there, and the record marked; or everything as before. */
  ghost function BroughtBack(root: Path, s: State, p: Path, id: Id, env: RestoreEnv): (State, Option<TrashError>)
    requires p != [] && id in s.rows
  {
    var entry := EntryPath(root, s.rows[id].trashName);
    match MovePathOf(s.tree, entry, p, env.crossDevice)
    case (t, Some(error)) => (s.(tree := t), Some(Os(error)))
    case (t, None) =>
      if env.markFails || !Open(s.rows, id)
      then (s.(tree := MovePathOf(t, p, entry, env.crossDevice).0), Some(Database))
      else (s.(tree := t, rows := Restored(s.rows, id, env.now)), None)
  }

  /** Restoring the record id, the answer of the table for path p. */
  ghost function RestoreOf(root: Path, s: State, p: Path, id: Id, env: RestoreEnv): (State, Option<TrashError>)
    requires p != [] && id in s.rows
  {
    match StatOf(s.tree, p)
    case Found(_) => (s, Some(TargetExists))
    case Failed(NotExist) =>
      (match MkdirAllOf(s.tree, Parent(p))
       case Err(error) => (s, Some(Os(error)))
       case Ok(t) => BroughtBack(root, s.(tree := t), p, id, env))
    case Failed(error) => (s, Some(Os(error)))
  }

  /** Where a record says its entry came from. */
  function Origin(record: Record): Path {
    match Resolved(record.apiPath)
    case Some(p) => p
    case None => []
  }

  /** The paths of the files of a tree that lies at p. */
  function FilesAt(t: Tree, p: Path): set<Path> {
    set r | r in t && t[r] != Dir :: p + r
  }

  /** The paths collected for the files at rels in an entry deleted as apiPath. */
  function Collected(apiPath: string, rels: set<Path>): set<string> {
    set r | r in rels :: CollectedPath(apiPath, r)
  }

  /** What API paths resolve to; those that are refused lead nowhere. */
  function ResolvedAll(apiPaths: set<string>): set<Path> {
    set c | c in apiPaths && Resolved(c).Some? :: Resolved(c).value
  }

  lemma ResolvedOne(apiPath: string)
    ensures ResolvedAll({apiPath}) == if Resolved(apiPath).Some? then {Resolved(apiPath).value} else {}
  {
    assert apiPath in {apiPath};
  }

  /** The images whose thumbnails go when an entry goes. */
  function ImagesOf(apiPath: string, entry: Tree): set<Path> {
    ResolvedAll(Collected(apiPath, FilesAt(entry, [])))
  }

  /** The thumbnails of the sizes the server makes, for the given images. */
  predicate ThumbOf(thumb: Thumb, files: set<Path>) {
    thumb.path in files && MIN_SIZE <= thumb.size <= MAX_SIZE
  }

  function WithoutThumbs(thumbs: set<Thumb>, files: set<Path>): set<Thumb> {
    set x | x in thumbs && !ThumbOf(x, files)
  }

  ghost function PurgeOf(root: Path, s: State, id: Id): (State, Option<TrashError>) {
    if !Open(s.rows, id) then (s, Some(NotFound))
    else
      var entry := EntryPath(root, s.rows[id].trashName);
      var files := ImagesOf(s.rows[id].apiPath, Subtree(s.tree, entry));
      (State(Without(s.tree, entry), s.rows - {id}, WithoutThumbs(s.thumbs, files)), None)
  }

  /** The paths at or below the trash entry of an id in ids. */
  ghost predicate InEntry(root: Path, rows: Table, ids: set<Id>, q: Path) {
    exists id :: id in ids && id in rows && EntryPath(root, rows[id].trashName) <= q
  }

  ghost function WithoutEntries(root: Path, rows: Table, ids: set<Id>, t: Tree): Tree {
    map q | q in t && !InEntry(root, rows, ids, q) :: t[q]
  }

  ghost function EmptyOf(root: Path, s: State, failing: set<Id>): State {
    var ids := OpenIds(s.rows) - failing;
    State(WithoutEntries(root, s.rows, ids, s.tree), s.rows - OpenIds(s.rows), WithoutThumbsOf(root, s, ids))
  }

  ghost function WithoutThumbsOf(root: Path, s: State, ids: set<Id>): set<Thumb> {
    set x | x in s.thumbs && !(exists id :: id in ids && id in s.rows && ThumbOf(x, FilesOf(root, s, id)))
  }

  ghost function FilesOf(root: Path, s: State, id: Id): set<Path>
    requires id in s.rows
  {
    ImagesOf(s.rows[id].apiPath, Subtree(s.tree, EntryPath(root, s.rows[id].trashName)))
  }

  /** Unrestored records name different entries. */
  ghost predicate DistinctEntries(rows: Table) {
    forall i, j :: Open(rows, i) && Open(rows, j) && rows[i].trashName == rows[j].trashName ==> i == j
  }

  // ---------------------------------------------------------------------------------------------
  // Moving in and out
  // ---------------------------------------------------------------------------------------------

  /** The tree after a move that can be made, whose subtree arrives as c. */
  lemma ArrivedAs(t: Tree, src: Path, dst: Path, c: Tree)
    requires CanMove(t, src, dst) && Rooted(c)
    ensures var t' := Graft(Without(t, src), dst, c);
            && WellFormed(t') && Vacant(t', src) && dst in t'
            && (forall q :: q in t && !(src <= q) ==> q in t' && t'[q] == t[q])
  {
    MovedIsWellFormed(t, src, dst);
    NotAncestor(t, src, dst);
    RootedParts(t, src);
    RootedGraft(Without(t, src), dst, c);
    assert dst[|dst|..] == [];
    ApartForever(t, src, dst, c);
  }

  lemma ApartForever(t: Tree, src: Path, dst: Path, c: Tree)
    requires !(src <= dst) && !(dst <= src)
    ensures Vacant(Graft(Without(t, src), dst, c), src)
  {
    forall q | q in Graft(Without(t, src), dst, c) ensures !(src <= q) {
      PrefixesCompare(src, dst, q);
    }
  }

  /** A move that can be made succeeds on either device and vacates its source. */
  lemma MovePathSucceeds(t: Tree, src: Path, dst: Path, crossDevice: bool)
    requires CanMove(t, src, dst)
    ensures var (t', e) := MovePathOf(t, src, dst, crossDevice);
            && e == None && WellFormed(t') && Vacant(t', src) && dst in t'
            && (forall q :: q in t && !(src <= q) ==> q in t' && t'[q] == t[q])
            && (!crossDevice || LinkFree(Subtree(t, src)) ==> t' == Moved(t, src, dst))
  {
    FallbackIsRename(t, src, dst);
    RootedSubtree(t, src);
    RootedCopies(Subtree(t, src));
    ArrivedAs(t, src, dst, if crossDevice then ThroughLinks(Subtree(t, src)) else Subtree(t, src));
    if crossDevice {
      NotAncestor(t, src, dst);
      CutApart(t, src, dst, ThroughLinks(Subtree(t, src)));
      assert RenameOf(t, src, dst).Ok? by { RenameIsMoved(t, src, dst); }
    }
  }

  lemma NotAncestor(t: Tree, src: Path, dst: Path)
    requires Rooted(t) && src in t && dst !in t
    ensures !(dst <= src)
  {
    AbsentIsVacant(t, dst);
  }

  lemma EntryIsApart(root: Path, n: Name, p: Path)
    requires UserPath(root, p)
    ensures var entry := EntryPath(root, n);
            !(entry <= p) && !(p <= entry) && entry != [] && Parent(entry) == root
  {
    PrefixOfChild(p, root, n);
    PrefixThrough(root, EntryPath(root, n), p);
  }

  lemma CanTrash(root: Path, t: Tree, p: Path, n: Name)
    requires WellFormed(t) && IsDir(t, root) && UserPath(root, p) && p in t && EntryPath(root, n) !in t
    ensures CanMove(t, p, EntryPath(root, n))
  {
    EntryIsApart(root, n, p);
  }

  /** After the move into the trash, the way back is open. */
  lemma CanMoveBack(t: Tree, t': Tree, src: Path, dst: Path)
    requires CanMove(t, src, dst) && !(dst <= src) && src != []
    requires WellFormed(t') && Vacant(t', src) && dst in t'
    requires forall q :: q in t && !(src <= q) ==> q in t' && t'[q] == t[q]
    ensures CanMove(t', dst, src)
  {
    assert IsDir(t, Parent(src)) && !(src <= Parent(src));
    assert src <= src;
  }

  lemma CanTrashAndBack(root: Path, t: Tree, p: Path, n: Name, crossDevice: bool)
    requires WellFormed(t) && IsDir(t, root) && UserPath(root, p) && p in t && EntryPath(root, n) !in t
    ensures var entry := EntryPath(root, n);
            && entry != [] && !(p <= entry) && !(entry <= p)
            && MovePathOf(t, p, entry, crossDevice).1 == None
            && CanMove(MovePathOf(t, p, entry, crossDevice).0, entry, p)
  {
    var entry := EntryPath(root, n);
    CanTrash(root, t, p, n);
    EntryIsApart(root, n, p);
    MovePathSucceeds(t, p, entry, crossDevice);
    CanMoveBack(t, MovePathOf(t, p, entry, crossDevice).0, p, entry);
  }

  // ---------------------------------------------------------------------------------------------
  // The service
  // ---------------------------------------------------------------------------------------------

  function PathSet(paths: seq<string>): set<string> {
    set p | p in paths
  }

  lemma FilesUpTo(s: Tree, at: Path, done: set<Name>, n: Name)
    ensures FilesAt(Upto(s, done + {n}), at) ==
            FilesAt(Upto(s, done), at) + FilesAt(Subtree(s, [n]), at + [n])
  {
    var left := FilesAt(Upto(s, done + {n}), at);
    var below := FilesAt(Subtree(s, [n]), at + [n]);
    forall q | q in left ensures q in FilesAt(Upto(s, done), at) + below {
      var r :| r in Upto(s, done + {n}) && s[r] != Dir && q == at + r;
      if r != [] && r[0] == n {
        assert r == [n] + r[1..] && q == at + [n] + r[1..];
      }
    }
    forall q | q in below ensures q in left {
      var r :| r in Subtree(s, [n]) && Subtree(s, [n])[r] != Dir && q == at + [n] + r;
      assert q == at + ([n] + r) && ([n] + r)[0] == n;
    }
    forall q | q in FilesAt(Upto(s, done), at) ensures q in left {
      var r :| r in Upto(s, done) && s[r] != Dir && q == at + r;
      assert r in Upto(s, done + {n});
    }
  }

  lemma LeafFiles(t: Tree, p: Path, at: Path)
    requires Rooted(t) && p in t && t[p] != Dir
    ensures FilesAt(Subtree(t, p), at) == {at}
  {
    LeafSubtree(t, p);
    assert at + [] == at;
  }

  lemma CollectFinishes(t: Tree, dir: Path, names: seq<Name>)
    requires Rooted(t) && IsDir(t, dir) && IsListing(t, dir, names)
    ensures Upto(Subtree(t, dir), NameSet(names)) == Subtree(t, dir)
  {
    var s := Subtree(t, dir);
    RootedSubtree(t, dir);
    forall r | r in s && r != [] ensures r[0] in NameSet(names) {
      FirstNameIsChild(s, r);
      assert dir + [r[0]] in t;
    }
    UptoAll(s, NameSet(names));
  }

  lemma CollectStarts(t: Tree, dir: Path, at: Path)
    requires IsDir(t, dir)
    ensures FilesAt(Upto(Subtree(t, dir), {}), at) == {}
  {
    SubtreeRoot(t, dir);
    UptoNone(Subtree(t, dir));
  }

  lemma CollectedTogether(apiPath: string, a: set<Path>, b: set<Path>)
    ensures Collected(apiPath, a + b) == Collected(apiPath, a) + Collected(apiPath, b)
  {
  }

  /** The walk over a trash entry: current lies in the entry at rel. */
  method CollectOriginalFilePaths(disk: Disk, current: Path, rel: Path, apiPath: string) returns (paths: seq<string>)
    requires WellFormed(disk.tree) && current in disk.tree
    ensures PathSet(paths) == Collected(apiPath, FilesAt(Subtree(disk.tree, current), rel))
    decreases Below(disk.tree, current)
  {
    if disk.tree[current] != Dir {
      LeafFiles(disk.tree, current, rel);
      return [CollectedPath(apiPath, rel)];
    }
    paths := [];
    var names := disk.ReadDir(current);
    ghost var s := Subtree(disk.tree, current);
    var i := 0;
    CollectStarts(disk.tree, current, rel);
    assert NameSet(names[..0]) == {};
    while i < |names|
      invariant 0 <= i <= |names|
      invariant PathSet(paths) == Collected(apiPath, FilesAt(Upto(s, NameSet(names[..i])), rel))
    {
      ListingHasNoRepeats(names, i);
      assert names[i] in names;
      ChildBelow(disk.tree, current, names[i]);
      var more := CollectOriginalFilePaths(disk, current + [names[i]], rel + [names[i]], apiPath);
      FilesUpTo(s, rel, NameSet(names[..i]), names[i]);
      SubtreeNested(disk.tree, current, [names[i]]);
      CollectedTogether(apiPath, FilesAt(Upto(s, NameSet(names[..i])), rel),
                        FilesAt(Subtree(s, [names[i]]), rel + [names[i]]));
      assert PathSet(paths + more) == PathSet(paths) + PathSet(more);
      paths := paths + more;
      i := i + 1;
    }
    CollectFinishes(disk.tree, current, names);
    assert names[..|names|] == names;
  }

  class TrashService {
    const root: Path
    const disk: Disk
    const repo: TrashRepository
    var thumbs: set<Thumb>

    constructor (root: Path, disk: Disk, repo: TrashRepository)
      ensures this.root == root && this.disk == disk && this.repo == repo && thumbs == {}
    {
      this.root, this.disk, this.repo, this.thumbs := root, disk, repo, {};
    }

    ghost function View(): State
      reads this, disk, repo
    {
      State(disk.tree, repo.rows, thumbs)
    }

    ghost predicate Valid()
      reads this, disk, repo
    {
      WellFormed(disk.tree) && IsDir(disk.tree, root) && DistinctEntries(repo.rows)
    }

    method SoftDelete(env: DeleteEnv) returns (e: Option<TrashError>)
      requires Valid() && (Resolved(env.apiPath).Some? ==> UserPath(root, Resolved(env.apiPath).value))
      requires env.id !in repo.rows && EntryPath(root, env.trashName) !in disk.tree
      modifies disk, repo
      ensures match Resolved(env.apiPath)
              case None => View() == old(View()) && e == Some(Refused)
              case Some(p) => (View(), e) == SoftDeleteOf(root, old(View()), p, env)
    {
      var resolved := Resolved(env.apiPath);
      if resolved.None? {
        return Some(Refused);
      }
      var p := resolved.value;
      var info := disk.Stat(p);
      if info.Failed? {
        return Some(Os(info.error));
      }
      var entry := EntryPath(root, env.trashName);
      ghost var t := disk.tree;
      CanTrashAndBack(root, t, p, env.trashName, env.crossDevice);
      var moved := MovePath(disk, p, entry, env.crossDevice);
      match moved {
        case Some(error) => return Some(Os(error));
        case None =>
      }
      var created := repo.Create(env.id, Record(env.apiPath, env.trashName, env.now, None), env.createFails);
      if !created {
        var undone := MovePath(disk, entry, p, env.crossDevice);
        return Some(Database);
      }
      e := None;
    }

    method RestoreLatest(env: RestoreEnv) returns (e: Option<TrashError>, id: Option<Id>)
      requires Valid() && (Resolved(env.apiPath).Some? ==> UserPath(root, Resolved(env.apiPath).value))
      modifies disk, repo
      ensures id.Some? <==> HasOpen(old(repo.rows), env.apiPath)
      ensures id.None? ==> e == Some(NotFound) && View() == old(View())
      ensures id.Some? ==>
                && Latest(old(repo.rows), env.apiPath, id.value)
                && match Resolved(env.apiPath)
                   case None => View() == old(View()) && e == Some(Refused)
                   case Some(p) => (View(), e) == RestoreOf(root, old(View()), p, id.value, env)
    {
      id := repo.FindLatestByPath(env.apiPath);
      if id.None? {
        return Some(NotFound), None;
      }
      var resolved := Resolved(env.apiPath);
      if resolved.None? {
        return Some(Refused), id;
      }
      var p := resolved.value;
      var info := disk.Stat(p);
      if info.Found? {
        return Some(TargetExists), id;
      }
      if info.error != NotExist {
        return Some(Os(info.error)), id;
      }
      MkdirAllMakes(disk.tree, Parent(p));
      var made := disk.MkdirAll(Parent(p));
      match made {
        case Some(error) => return Some(Os(error)), id;
        case None =>
      }
      e := BringBack(id.value, p, env);
    }

    /** The move out of the trash and the mark on the record, which is taken back when the mark fails. */
    method BringBack(id: Id, p: Path, env: RestoreEnv) returns (e: Option<TrashError>)
      requires Valid() && UserPath(root, p) && id in repo.rows
      requires p !in disk.tree && IsDir(disk.tree, Parent(p))
      modifies disk, repo
      ensures (View(), e) == BroughtBack(root, old(View()), p, id, env)
    {
      var entry := EntryPath(root, repo.rows[id].trashName);
      EntryIsApart(root, repo.rows[id].trashName, p);
      ghost var t := disk.tree;
      if entry in t {
        MovePathSucceeds(t, entry, p, env.crossDevice);
      }
      var moved := MovePath(disk, entry, p, env.crossDevice);
      match moved {
        case Some(error) => return Some(Os(error));
        case None =>
      }
      MoveNeedsSource(t, entry, p, env.crossDevice);
      var marked := repo.MarkRestored(id, env.now, env.markFails);
      if !marked {
        CanMoveBack(t, disk.tree, entry, p);
        var undone := MovePath(disk, p, entry, env.crossDevice);
        return Some(Database);
      }
      e := None;
    }

    /** A path that the validator refuses has no thumbnails. */
    method RemoveThumbnailsForPath(apiPath: string)
      modifies this`thumbs
      ensures thumbs == WithoutThumbs(old(thumbs), ResolvedAll({apiPath}))
    {
      ResolvedOne(apiPath);
      var resolved := Resolved(apiPath);
      if resolved.None? {
        return;
      }
      var p := resolved.value;
      var size := MIN_SIZE;
      while size <= MAX_SIZE
        invariant MIN_SIZE <= size <= MAX_SIZE + 1
        invariant forall x :: x in thumbs <==> x in old(thumbs) && !(x.path == p && MIN_SIZE <= x.size < size)
      {
        thumbs := thumbs - {Thumb(p, size)};
        size := size + 1;
      }
    }

    /** Removes the thumbnails of all the given paths. */
    method RemoveThumbnails(paths: seq<string>)
      modifies this`thumbs
      ensures thumbs == WithoutThumbs(old(thumbs), ResolvedAll(PathSet(paths)))
    {
      var i := 0;
      while i < |paths|
        invariant 0 <= i <= |paths|
        invariant thumbs == WithoutThumbs(old(thumbs), ResolvedAll(PathSet(paths[..i])))
      {
        RemoveThumbnailsForPath(paths[i]);
        assert PathSet(paths[..i + 1]) == PathSet(paths[..i]) + {paths[i]};
        ResolvedTogether(PathSet(paths[..i]), {paths[i]});
        i := i + 1;
      }
      assert paths[..|paths|] == paths;
    }

    /** Removes a trash entry and the thumbnails of the files in it; a missing entry is no error. */
    method RemoveEntry(record: Record)
      requires Valid()
      modifies disk, this`thumbs
      ensures var entry := EntryPath(root, record.trashName);
              && disk.tree == Without(old(disk.tree), entry)
              && thumbs == WithoutThumbs(old(thumbs), ImagesOf(record.apiPath, Subtree(old(disk.tree), entry)))
      ensures Valid()
    {
      var entry := EntryPath(root, record.trashName);
      var paths := [];
      assert Parent(entry) == root;
      RootedWithout(disk.tree, entry);
      if entry in disk.tree {
        paths := CollectOriginalFilePaths(disk, entry, [], record.apiPath);
      } else {
        NothingThere(disk.tree, entry);
      }
      var e := disk.RemoveAll(entry);
      RemoveThumbnails(paths);
    }

    /** fails says that the entry cannot be removed; then nothing else happens. */
    method PermanentDelete(id: Id, fails: bool) returns (e: Option<TrashError>)
      requires Valid()
      modifies this`thumbs, disk, repo
      ensures fails && Open(old(repo.rows), id) ==> View() == old(View()) && e == Some(Unremovable)
      ensures !(fails && Open(old(repo.rows), id)) ==> (View(), e) == PurgeOf(root, old(View()), id)
    {
      var record := repo.FindByID(id);
      if record.None? {
        return Some(NotFound);
      }
      if fails {
        return Some(Unremovable);
      }
      RemoveEntry(record.value);
      var deleted := repo.Delete(id);
      e := None;
    }

    /** The entries in gone have been removed from the state s. */
    ghost predicate Emptied(s: State, gone: set<Id>)
      reads this, disk, repo
    {
      && Valid() && repo.rows == s.rows
      && disk.tree == WithoutEntries(root, s.rows, gone, s.tree)
      && thumbs == WithoutThumbsOf(root, s, gone)
    }

    /** One turn of the loop of EmptyTrash. */
    method EmptyOne(id: Id, fails: bool, ghost s: State, ghost gone: set<Id>) returns (removed: bool)
      requires Emptied(s, gone) && gone <= OpenIds(s.rows) && Open(s.rows, id) && id !in gone
      modifies this`thumbs, disk
      ensures removed == !fails
      ensures Emptied(s, if removed then gone + {id} else gone)
    {
      removed := !fails;
      if removed {
        OneMoreEntryGone(root, s, gone, id);
        RemoveEntry(repo.rows[id]);
      }
    }

    /** The loop of EmptyTrash; failing holds the records whose entry cannot be removed. */
    method EmptyEntries(ids: set<Id>, failing: set<Id>) returns (count: nat)
      requires Valid() && ids == OpenIds(repo.rows)
      modifies this`thumbs, disk
      ensures Emptied(old(View()), ids - failing)
      ensures count == |ids - failing|
    {
      ghost var s := View();
      var todo := ids;
      ghost var gone: set<Id> := {};
      count := 0;
      NothingGone(root, s);
      while todo != {}
        invariant todo <= ids && count == |gone|
        invariant forall id :: id in gone <==> id in ids && id !in todo && id !in failing
        invariant Emptied(s, gone)
      {
        var id :| id in todo;
        todo := todo - {id};
        var removed := EmptyOne(id, id in failing, s, gone);
        if removed {
          count := count + 1;
          gone := gone + {id};
        }
      }
      assert gone == ids - failing;
    }

    /** Every unrestored record goes, also those whose entry could not be removed. */
    method EmptyTrash(failing: set<Id>) returns (count: nat)
      requires Valid()
      modifies this`thumbs, disk, repo
      ensures View() == EmptyOf(root, old(View()), failing)
      ensures count == |OpenIds(old(repo.rows)) - failing|
    {
      var ids := repo.ListOpen();
      count := EmptyEntries(ids, failing);
      repo.DeleteAllNotRestored();
    }
  }

  lemma NothingGone(root: Path, s: State)
    ensures WithoutEntries(root, s.rows, {}, s.tree) == s.tree
    ensures WithoutThumbsOf(root, s, {}) == s.thumbs
  {
  }

  lemma OneMoreEntryGone(root: Path, s: State, gone: set<Id>, id: Id)
    requires DistinctEntries(s.rows) && gone <= OpenIds(s.rows) && Open(s.rows, id) && id !in gone
    ensures var entry := EntryPath(root, s.rows[id].trashName);
            var t := WithoutEntries(root, s.rows, gone, s.tree);
            && Without(t, entry) == WithoutEntries(root, s.rows, gone + {id}, s.tree)
            && ImagesOf(s.rows[id].apiPath, Subtree(t, entry)) == FilesOf(root, s, id)
            && WithoutThumbs(WithoutThumbsOf(root, s, gone), FilesOf(root, s, id)) ==
               WithoutThumbsOf(root, s, gone + {id})
  {
    var entry := EntryPath(root, s.rows[id].trashName);
    var t := WithoutEntries(root, s.rows, gone, s.tree);
    forall q ensures InEntry(root, s.rows, gone + {id}, q) <==> InEntry(root, s.rows, gone, q) || entry <= q {
      if entry <= q {
        assert id in gone + {id};
      }
    }
    forall r ensures !InEntry(root, s.rows, gone, entry + r) {
      if i :| i in gone && i in s.rows && EntryPath(root, s.rows[i].trashName) <= entry + r {
        SameEntry(root, s.rows[i].trashName, s.rows[id].trashName, r);
        assert false;
      }
    }
    assert Subtree(t, entry) == Subtree(s.tree, entry);
  }

  lemma SameEntry(root: Path, m: Name, n: Name, r: Path)
    ensures EntryPath(root, m) <= EntryPath(root, n) + r ==> m == n
  {
    if EntryPath(root, m) <= EntryPath(root, n) + r {
      assert EntryPath(root, m)[|root|] == (EntryPath(root, n) + r)[|root|];
    }
  }

  lemma NothingThere(t: Tree, p: Path)
    requires Rooted(t) && p !in t
    ensures FilesAt(Subtree(t, p), []) == {}
  {
    AbsentIsVacant(t, p);
    assert forall r :: p <= p + r;
  }

  lemma ResolvedTogether(a: set<string>, b: set<string>)
    ensures ResolvedAll(a + b) == ResolvedAll(a) + ResolvedAll(b)
  {
  }

  lemma MoveNeedsSource(t: Tree, src: Path, dst: Path, crossDevice: bool)
    requires WellFormed(t) && dst != [] && IsDir(t, Parent(dst))
    requires MovePathOf(t, src, dst, crossDevice).1 == None
    ensures src in t
  {
  }
}
