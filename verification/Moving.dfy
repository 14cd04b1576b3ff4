/** Moving a path into or out of the trash: a rename, or a copy and a removal across devices. */
module Moving {
  import opened Wrappers
  import opened FileTree
  import opened Disks
  import opened Copying

  /** The whole effect of a move to a vacant place. */
  ghost function MovePathOf(t: Tree, source: Path, destination: Path, crossDevice: bool): (Tree, Option<OsError>)
    requires destination != []
  {
    match MkdirAllOf(t, Parent(destination))
    case Err(error) => (t, Some(error))
    case Ok(t') =>
      match RenameOf(t', source, destination)
      case Err(error) => (t', Some(error))
      case Ok(renamed) =>
        if crossDevice
        then (Without(Graft(t', destination, ThroughLinks(Subtree(t', source))), source), None)
        else (renamed, None)
  }

  /** crossDevice says whether a rename that is otherwise possible fails because it crosses devices. */
  method MovePath(disk: Disk, source: Path, destination: Path, crossDevice: bool) returns (e: Option<OsError>)
    requires WellFormed(disk.tree) && destination !in disk.tree && !(source <= destination)
    modifies disk
    ensures destination != []
    ensures (disk.tree, e) == MovePathOf(old(disk.tree), source, destination, crossDevice)
  {
    MkdirAllMakes(disk.tree, Parent(destination));
    e := disk.MkdirAll(Parent(destination));
    if e.Some? {
      return;
    }
    var renamable := RenameOf(disk.tree, source, destination).Ok?;
    if !(renamable && crossDevice) {
      e := disk.Rename(source, destination);
      return;
    }
    ghost var t := disk.tree;
    RemovableSource(t, source, destination);
    e := CopyPathRecursive(disk, source, destination);
    if e.None? {
      e := disk.RemoveAll(source);
    }
  }

  lemma RemovableSource(t: Tree, source: Path, destination: Path)
    requires CanCopy(t, source, destination) && destination != [] && IsDir(t, Parent(destination))
    ensures MkdirAllOf(t, Parent(destination)) == Ok(t)
    ensures Rooted(Graft(t, destination, ThroughLinks(Subtree(t, source))))
    ensures !Blocked(Graft(t, destination, ThroughLinks(Subtree(t, source))), source)
  {
    var g := Graft(t, destination, ThroughLinks(Subtree(t, source)));
    AbsentIsVacant(t, destination);
    RootedParts(t, source);
    RootedCopies(Subtree(t, source));
    SubtreeRoot(t, source);
    RootedGraft(t, destination, ThroughLinks(Subtree(t, source)));
    assert source in g;
  }

  /**
   Across devices the move ends in the same tree as a rename exactly when the moved subtree has no
   symbolic link: a link comes out as a regular file.
   */
  lemma FallbackIsRename(t: Tree, source: Path, destination: Path)
    requires CanMove(t, source, destination)
    ensures MovePathOf(t, source, destination, false) == (Moved(t, source, destination), None)
    ensures MovePathOf(t, source, destination, true) == MovePathOf(t, source, destination, false)
            <==> LinkFree(Subtree(t, source))
  {
    var s := Subtree(t, source);
    RenameIsMoved(t, source, destination);
    RemovableSource(t, source, destination);
    MovedIsWellFormed(t, source, destination);
    CutAfterGraft(t, source, destination, ThroughLinks(s));
    GraftThenCut(Without(t, source), destination, s);
    GraftThenCut(Without(t, source), destination, ThroughLinks(s));
    ThroughLinksIsIdentity(s);
  }

  lemma ThroughLinksIsIdentity(s: Tree)
    ensures ThroughLinks(s) == s <==> LinkFree(s)
  {
    if ThroughLinks(s) == s {
      forall r | r in s ensures !s[r].Link? {
        assert ThroughLinks(s)[r] == Opened(s[r]);
      }
    }
  }

  lemma CutAfterGraft(t: Tree, source: Path, destination: Path, c: Tree)
    requires CanMove(t, source, destination)
    ensures Without(Graft(t, destination, c), source) == Graft(Without(t, source), destination, c)
  {
    assert !(destination <= source) by {
      if destination <= source {
        AncestorIsDir(t, source, destination);
      }
    }
    CutApart(t, source, destination, c);
  }

  /** Cutting and grafting at places that are apart commute. */
  lemma CutApart(t: Tree, source: Path, destination: Path, c: Tree)
    requires !(source <= destination) && !(destination <= source)
    ensures Without(Graft(t, destination, c), source) == Graft(Without(t, source), destination, c)
  {
    var left, right := Without(Graft(t, destination, c), source), Graft(Without(t, source), destination, c);
    forall q ensures (q in left <==> q in right) && (q in left ==> left[q] == right[q]) {
      PrefixesCompare(source, destination, q);
      if destination <= q {
        assert !(source <= q);
      }
    }
  }

  /** The two copies of a subtree are the same exactly when it has no link below its root. */
  lemma CopiesAgree(t: Tree, source: Path, target: Path)
    requires CanCopy(t, source, target) && target != [] && MkdirAllOf(t, Parent(target)).Ok?
    ensures var s := Subtree(t, source);
            Copied(t, target, SkippingLinks(s)) == Copied(t, target, ThroughLinks(s)) <==>
            forall r :: r in s && r != [] ==> !s[r].Link?
  {
    var s := Subtree(t, source);
    var base := MkdirAllOf(t, Parent(target)).value;
    MkdirAllMakes(t, Parent(target));
    AbsentIsVacant(base, target);
    GraftThenCut(base, target, SkippingLinks(s));
    GraftThenCut(base, target, ThroughLinks(s));
    if SkippingLinks(s) == ThroughLinks(s) {
      forall r | r in s && r != [] ensures !s[r].Link? {
        assert r in ThroughLinks(s);
      }
    }
  }
}
