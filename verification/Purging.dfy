/** Which cached thumbnails a permanent delete takes along. */
module Purging {
  import opened Wrappers
  import opened FileTree
  import opened Paths
  import opened Resolving
  import opened TrashPaths
  import opened Trash
  import opened TrashRuns

  /** The names are names that files can have. */
  predicate RealNames(t: Tree) {
    forall r :: r in t ==> IsClean(r)
  }

  /** The server makes thumbnails of 32 to 2048 pixels; none of these files has one. */
  ghost predicate NoneOf(thumbs: set<Thumb>, files: set<Path>) {
    forall x :: x in thumbs && 32 <= x.size <= 2048 ==> x.path !in files
  }

  predicate AllPlain(files: set<Path>) {
    forall f :: f in files ==> Plain(f)
  }

  lemma FileAt(t: Tree, p: Path, f: Path) returns (r: Path)
    requires f in FilesAt(t, p)
    ensures r in t && t[r] != Dir && f == p + r
  {
    r :| r in t && t[r] != Dir && f == p + r;
  }

  /** An image whose thumbnails go has been collected for a file of the entry. */
  lemma ImageFrom(apiPath: string, entry: Tree, image: Path) returns (r: Path)
    requires image in ImagesOf(apiPath, entry)
    ensures r in entry && entry[r] != Dir && Resolved(CollectedPath(apiPath, r)) == Some(image)
  {
    var c :| c in Collected(apiPath, FilesAt(entry, [])) && Resolved(c).Some? && Resolved(c).value == image;
    var f :| f in FilesAt(entry, []) && CollectedPath(apiPath, f) == c;
    r := FileAt(entry, [], f);
    assert [] + r == r;
  }

  lemma FileGivesImage(apiPath: string, entry: Tree, r: Path)
    requires r in entry && entry[r] != Dir && Resolved(CollectedPath(apiPath, r)).Some?
    ensures Resolved(CollectedPath(apiPath, r)).value in ImagesOf(apiPath, entry)
  {
    assert [] + r == r;
    assert r in FilesAt(entry, []);
    assert CollectedPath(apiPath, r) in Collected(apiPath, FilesAt(entry, []));
  }

  /** When all files are plain, the thumbnails that go are those of the files. */
  lemma PlainImages(apiPath: string, p: Path, entry: Tree)
    requires Resolved(apiPath) == Some(p) && RealNames(entry) && AllPlain(FilesAt(entry, p))
    ensures ImagesOf(apiPath, entry) == FilesAt(entry, p)
  {
    forall f | f in FilesAt(entry, p) ensures f in ImagesOf(apiPath, entry) {
      var r := FileAt(entry, p, f);
      CollectedResolvesIff(apiPath, r);
      FileGivesImage(apiPath, entry, r);
    }
    forall f | f in ImagesOf(apiPath, entry) ensures f in FilesAt(entry, p) {
      var r := ImageFrom(apiPath, entry, f);
      assert p + r in FilesAt(entry, p);
      CollectedResolvesIff(apiPath, r);
    }
  }

  /** A file whose name has a backslash makes the trash take along the thumbnails of another image. */
  ghost predicate HitByBackslash(apiPath: string, entry: Tree, image: Path) {
    exists r :: r in entry && entry[r] != Dir && !Bare(r) && Resolved(CollectedPath(apiPath, r)) == Some(image)
  }

  /** The files of an entry that requests can name are images exactly when they are plain, or hit by chance. */
  lemma NameableImages(apiPath: string, p: Path, entry: Tree, f: Path)
    requires Resolved(apiPath) == Some(p) && RealNames(entry) && FileTree.Rooted(entry)
    requires p != [] && f in FilesAt(entry, p) && Nameable(f)
    ensures f in ImagesOf(apiPath, entry) <==> Plain(f) || HitByBackslash(apiPath, entry, f)
  {
    var at := FileAt(entry, p, f);
    CollectedResolvesIff(apiPath, at);
    if Plain(f) {
      FileGivesImage(apiPath, entry, at);
    } else if HitByBackslash(apiPath, entry, f) {
      var r :| r in entry && entry[r] != Dir && !Bare(r) && Resolved(CollectedPath(apiPath, r)) == Some(f);
      FileGivesImage(apiPath, entry, r);
    } else if f in ImagesOf(apiPath, entry) {
      var r := ImageFrom(apiPath, entry, f);
      AboveIsNoFile(apiPath, p, entry, at, r);
      assert false;
    }
  }

  /** A file without a backslash never leads to another file whose name ends in white space. */
  lemma AboveIsNoFile(apiPath: string, p: Path, entry: Tree, at: Path, r: Path)
    requires Resolved(apiPath) == Some(p) && RealNames(entry) && FileTree.Rooted(entry) && p != []
    requires at in entry && entry[at] != Dir && r in entry && Bare(r)
    requires Nameable(p + at) && !Plain(p + at)
    ensures Resolved(CollectedPath(apiPath, r)) != Some(p + at)
  {
    ResolvedIsNameable(apiPath);
    AbsOfClean(p + at);
    CollectedLeads(apiPath, r);
    var above := (p + r)[..|p + r| - 1];
    if p + at <= above {
      StrictlyAbove(p, at, r);
      AncestorIsDir(entry, r, at);
    }
  }

  lemma StrictlyAbove(p: Path, at: Path, r: Path)
    requires |p + r| > 0 && p + at <= (p + r)[..|p + r| - 1]
    ensures at <= r && at != r
  {
    assert (p + r)[..|p| + |at|] == p + at;
    assert r[..|at|] == (p + r)[|p|..|p| + |at|];
    assert at == (p + at)[|p|..];
  }

  lemma {:induction false} AncestorIsDir(t: Tree, p: Path, above: Path)
    requires FileTree.Rooted(t) && p in t && above <= p && above != p
    ensures IsDir(t, above)
    decreases |p|
  {
    assert IsDir(t, Parent(p));
    if Parent(p) != above {
      AncestorIsDir(t, Parent(p), above);
    }
  }

  /** What a cache holds after a permanent delete. */
  ghost function CacheAfter(root: Path, w: World, id: Id, cache: set<Thumb>): set<Thumb> {
    PurgeOf(root, w.state.(thumbs := cache), id).0.thumbs
  }

  lemma PurgedCache(root: Path, w: World, id: Id, cache: set<Thumb>)
    requires Inv(root, w) && Open(w.state.rows, id)
    ensures id in w.held
    ensures CacheAfter(root, w, id, cache) == WithoutThumbs(cache, ImagesOf(w.state.rows[id].apiPath, w.held[id]))
  {
    assert Holds(root, w, id);
  }

  /** What the cache can hold: thumbnails are made for images that a request named. */
  predicate Cacheable(cache: set<Thumb>) {
    forall x :: x in cache ==> Nameable(x.path)
  }

  /** Every file of the entry that a request can name is plain, or hit by chance. */
  ghost predicate AllFound(apiPath: string, entry: Tree, files: set<Path>) {
    forall f :: f in files && Nameable(f) ==> Plain(f) || HitByBackslash(apiPath, entry, f)
  }

  lemma ImagesAreCleared(images: set<Path>, files: set<Path>)
    ensures (forall cache :: Cacheable(cache) ==> NoneOf(WithoutThumbs(cache, images), files))
            <==> forall f :: f in files && Nameable(f) ==> f in images
  {
    if f :| f in files && Nameable(f) && f !in images {
      var cache := {Thumb(f, MIN_SIZE)};
      assert Thumb(f, MIN_SIZE) in WithoutThumbs(cache, images);
      assert Cacheable(cache) && !NoneOf(WithoutThumbs(cache, images), files);
    }
  }

  /**
   After a permanent delete no thumbnail of the files of the entry is left, whatever was cached, exactly
   when every file that a request can name has an old path that does not end in white space, or is
   hit by the collected path of a file with a backslash.
   */
  lemma PurgeLeavesNoThumbnailsIff(root: Path, w: World, id: Id)
    requires Inv(root, w) && Open(w.state.rows, id)
    ensures id in w.held
    ensures RealNames(w.held[id]) ==>
              var record := w.state.rows[id];
              var files := FilesAt(w.held[id], Origin(record));
              (forall cache :: Cacheable(cache) ==> NoneOf(CacheAfter(root, w, id, cache), files))
              <==> AllFound(record.apiPath, w.held[id], files)
  {
    var apiPath := w.state.rows[id].apiPath;
    assert Located(root, w.state.rows[id]);
    var p := Origin(w.state.rows[id]);
    PurgedCache(root, w, id, {});
    if RealNames(w.held[id]) {
      var entry := w.held[id];
      var files := FilesAt(entry, p);
      assert Holds(root, w, id);
      RootedSubtree(w.state.tree, EntryPath(root, w.state.rows[id].trashName));
      forall f | f in files && Nameable(f)
        ensures f in ImagesOf(apiPath, entry) <==> Plain(f) || HitByBackslash(apiPath, entry, f)
      {
        NameableImages(apiPath, p, entry, f);
      }
      ImagesAreCleared(ImagesOf(apiPath, entry), files);
      forall cache ensures CacheAfter(root, w, id, cache) == WithoutThumbs(cache, ImagesOf(apiPath, entry)) {
        PurgedCache(root, w, id, cache);
      }
    }
  }

  /** Without backslashes in the entry: exactly when no file that can be named ends in white space. */
  lemma AllFoundWithoutBackslashes(apiPath: string, p: Path, entry: Tree)
    requires Resolved(apiPath) == Some(p) && forall r :: r in entry ==> Bare(r)
    ensures AllFound(apiPath, entry, FilesAt(entry, p))
            <==> forall f :: f in FilesAt(entry, p) && Nameable(f) ==> !LastEndsInSpace(f)
  {
    forall f | Nameable(f) ensures Plain(f) <==> !LastEndsInSpace(f) {
      AbsOfClean(f);
    }
    forall f ensures !HitByBackslash(apiPath, entry, f) {
    }
  }

  /** A neighbour with the right name lets the purge find a file whose name ends in white space. */
  lemma ShadowedIsFound(apiPath: string, entry: Tree, front: Path, name: string)
    requires Resolved(apiPath).Some? && Nameable(Resolved(apiPath).value + front + [name])
    requires front + [Shadowing(name)] in entry && entry[front + [Shadowing(name)]] != Dir
    ensures HitByBackslash(apiPath, entry, Resolved(apiPath).value + front + [name])
  {
    BackslashHitsANeighbour(apiPath, front, name);
    var r := front + [Shadowing(name)];
    assert Shadowing(name) in r && '\\' in Shadowing(name) by {
      assert r[|front|] == Shadowing(name) && Shadowing(name)[|name|] == '\\';
    }
  }

  /** When all files are plain, all other thumbnails stay. */
  lemma PurgeTakesOnlyItsThumbnails(root: Path, w: World, id: Id)
    requires Inv(root, w) && Open(w.state.rows, id)
    ensures id in w.held
    ensures var files := FilesAt(w.held[id], Origin(w.state.rows[id]));
            RealNames(w.held[id]) && AllPlain(files) ==>
              forall x :: x in Step(root, w, Purge(id)).state.thumbs <==>
                            x in w.state.thumbs && !(x.path in files && 32 <= x.size <= 2048)
  {
    assert Located(root, w.state.rows[id]);
    PurgedCache(root, w, id, w.state.thumbs);
    assert w.state.(thumbs := w.state.thumbs) == w.state;
    if RealNames(w.held[id]) && AllPlain(FilesAt(w.held[id], Origin(w.state.rows[id]))) {
      PlainImages(w.state.rows[id].apiPath, Origin(w.state.rows[id]), w.held[id]);
    }
  }

  /** Only the entry of an open record can be purged; then the entry and its record go, and nothing else does. */
  lemma PurgeEffect(root: Path, w: World, id: Id)
    requires Inv(root, w)
    ensures var (s, e) := PurgeOf(root, w.state, id);
            if id in w.state.rows && w.state.rows[id].restoredAt == None then
              var entry := root + [w.state.rows[id].trashName];
              && e == None && entry in w.state.tree && s.rows == w.state.rows - {id}
              && (forall q :: q in s.tree <==> q in w.state.tree && !(entry <= q))
              && (forall q :: q in s.tree ==> s.tree[q] == w.state.tree[q])
            else e == Some(NotFound) && s == w.state
  {
    if Open(w.state.rows, id) {
      assert Holds(root, w, id);
    }
  }

  /**
   Emptying the trash takes every open record and the entries that can be removed.  The entries that cannot be
   removed stay as they were deleted, and so does everything outside the trash.
   */
  lemma EmptyEffect(root: Path, w: World, failing: set<Id>)
    requires Inv(root, w)
    ensures var s := EmptyOf(root, w.state, failing);
            && (forall id :: id in s.rows <==> id in w.state.rows && w.state.rows[id].restoredAt != None)
            && (forall id :: id in s.rows ==> s.rows[id] == w.state.rows[id])
            && (forall id :: Open(w.state.rows, id) ==>
                  id in w.held &&
                  Subtree(s.tree, root + [w.state.rows[id].trashName]) == if id in failing then w.held[id] else map[])
            && (forall q :: !(root < q) ==> (q in s.tree <==> q in w.state.tree))
            && (forall q :: q in s.tree ==> s.tree[q] == w.state.tree[q])
  {
    var rows, ids := w.state.rows, OpenIds(w.state.rows) - failing;
    forall id | Open(rows, id)
      ensures id in w.held
      ensures Subtree(EmptyOf(root, w.state, failing).tree, root + [rows[id].trashName])
              == if id in failing then w.held[id] else map[]
    {
      assert Holds(root, w, id);
      EmptiedEntry(root, w, ids, id);
    }
    forall q | InEntry(root, rows, ids, q) ensures root < q {
      var id :| id in ids && id in rows && EntryPath(root, rows[id].trashName) <= q;
      assert q[..|root|] == root;
    }
  }

  lemma EmptiedEntry(root: Path, w: World, ids: set<Id>, id: Id)
    requires DistinctEntries(w.state.rows) && ids <= OpenIds(w.state.rows) && Open(w.state.rows, id)
    ensures var entry := EntryPath(root, w.state.rows[id].trashName);
            Subtree(WithoutEntries(root, w.state.rows, ids, w.state.tree), entry)
            == if id in ids then map[] else Subtree(w.state.tree, entry)
  {
    var rows, entry := w.state.rows, EntryPath(root, w.state.rows[id].trashName);
    forall r ensures InEntry(root, rows, ids, entry + r) <==> id in ids {
      if i :| i in ids && i in rows && EntryPath(root, rows[i].trashName) <= entry + r {
        SameEntry(root, rows[i].trashName, rows[id].trashName, r);
      }
      assert entry <= entry + r;
    }
  }
}
