/**
 The operating system calls the services make, as functions on trees, and a Disk object that applies
 them in place.  Failing calls leave the tree as it was.  Device errors are not modelled.
 */
module Disks {
  import opened Wrappers
  import opened Names
  import opened FileTree

  datatype OsError = NotExist | NotDirectory | IsDirectory | AlreadyExists | InvalidMove

  // ---------------------------------------------------------------------------------------------
  // Stat and directory listings
  // ---------------------------------------------------------------------------------------------

  /** The nearest existing ancestor of p is a file. */
  predicate Blocked(t: Tree, p: Path)
    decreases |p|
  {
    p != [] && if Parent(p) in t then t[Parent(p)] != Dir else Blocked(t, Parent(p))
  }

  datatype StatResult = Found(node: Node) | Failed(error: OsError)

  function StatOf(t: Tree, p: Path): StatResult {
    if p in t then Found(t[p])
    else if Blocked(t, p) then Failed(NotDirectory)
    else Failed(NotExist)
  }

  /** What os.IsNotExist says of a stat: the path is missing and could be created. */
  predicate Free(t: Tree, p: Path) {
    StatOf(t, p) == Failed(NotExist)
  }

  function ChildNames(t: Tree, dir: Path): (names: set<Name>)
    ensures forall n :: n in names <==> dir + [n] in t
  {
    var names := set p | p in t && p != [] && Parent(p) == dir :: Last(p);
    assert forall n :: n in names <==> dir + [n] in t by {
      forall n | dir + [n] in t ensures n in names {
        assert Parent(dir + [n]) == dir && Last(dir + [n]) == n;
      }
      forall p | p in t && p != [] && Parent(p) == dir ensures dir + [Last(p)] == p {
      }
    }
    names
  }

  /** names lists a directory the way os.ReadDir does: each entry once, in increasing order. */
  ghost predicate IsListing(t: Tree, dir: Path, names: seq<Name>) {
    && Increasing(names)
    && forall n :: n in names <==> dir + [n] in t
  }

  /** The increasing listing of a set of names. */
  ghost function Listing(names: set<Name>): (s: seq<Name>)
    ensures Increasing(s)
    ensures forall n :: n in s <==> n in names
  {
    ListingExists(names);
    var s :| Increasing(s) && forall n :: n in s <==> n in names;
    s
  }

  lemma {:induction false} ListingExists(names: set<Name>)
    ensures exists s :: Increasing(s) && forall n :: n in s <==> n in names
  {
    if names == {} {
      assert Increasing([]);
    } else {
      var x :| x in names;
      ListingExists(names - {x});
      var rest :| Increasing(rest) && forall n :: n in rest <==> n in names - {x};
      InsertKeepsIncreasing(rest, x);
      assert Increasing(Insert(rest, x));
    }
  }

  // ---------------------------------------------------------------------------------------------
  // Making directories
  // ---------------------------------------------------------------------------------------------

  function MkdirAllOf(t: Tree, p: Path): Result<Tree, OsError>
    decreases |p|
  {
    if p in t then if t[p] == Dir then Ok(t) else Err(NotDirectory)
    else if p == [] then Ok(t[p := Dir])
    else
      match MkdirAllOf(t, Parent(p))
      case Err(error) => Err(error)
      case Ok(t') => Ok(t'[p := Dir])
  }

  /** t' is t with some new directories, all of them on the way to p. */
  ghost predicate OnlyAddsDirs(t: Tree, t': Tree, p: Path) {
    && (forall q :: q in t ==> q in t' && t'[q] == t[q])
    && (forall q :: q in t' && q !in t ==> t'[q] == Dir && q <= p)
  }

  lemma {:induction false} MkdirAllMakes(t: Tree, p: Path)
    requires WellFormed(t)
    ensures MkdirAllOf(t, p).Ok? <==> (Free(t, p) || IsDir(t, p))
    ensures MkdirAllOf(t, p).Err? ==> MkdirAllOf(t, p).error == NotDirectory
    ensures MkdirAllOf(t, p).Ok? ==>
              var t' := MkdirAllOf(t, p).value;
              WellFormed(t') && IsDir(t', p) && OnlyAddsDirs(t, t', p)
    decreases |p|
  {
    if p !in t {
      MkdirAllMakes(t, Parent(p));
    }
  }

  lemma OnlyAddsDirsKeepsCount(t: Tree, t': Tree, p: Path, v: Node)
    requires OnlyAddsDirs(t, t', p) && v != Dir
    ensures Count(t', v) == Count(t, v)
  {
    assert Holding(t', v) == Holding(t, v);
  }

  /** New directories on the way to p do not show in a subtree that p is not below. */
  lemma SubtreeApart(t: Tree, t1: Tree, from: Path, p: Path)
    requires OnlyAddsDirs(t, t1, p) && !(from <= p)
    ensures Subtree(t1, from) == Subtree(t, from)
  {
    forall r ensures from + r in t1 <==> from + r in t {
      assert from <= from + r;
      PrefixThrough(from, from + r, p);
    }
  }

  // ---------------------------------------------------------------------------------------------
  // Removing, reading and writing
  // ---------------------------------------------------------------------------------------------

  function RemoveAllOf(t: Tree, p: Path): Result<Tree, OsError> {
    if Blocked(t, p) then Err(NotDirectory) else Ok(Without(t, p))
  }

  function ReadFileOf(t: Tree, p: Path): Result<Bytes, OsError> {
    match StatOf(t, p)
    case Failed(error) => Err(error)
    case Found(Dir) => Err(IsDirectory)
    case Found(File(data)) => Ok(data)
    case Found(Link(data)) => Ok(data)
  }

  function WriteFileOf(t: Tree, p: Path, data: Bytes): Result<Tree, OsError> {
    if IsDir(t, p) then Err(IsDirectory)
    else if Blocked(t, p) then Err(NotDirectory)
    else if p == [] || Parent(p) !in t then Err(NotExist)
    else if p in t && t[p].Link? then Ok(t[p := Link(data)])
    else Ok(t[p := File(data)])
  }

  // ---------------------------------------------------------------------------------------------
  // Renaming
  // ---------------------------------------------------------------------------------------------

  /** The subtree at src put in the place of whatever leaf was at dst. */
  function Relocated(t: Tree, src: Path, dst: Path): Tree {
    Graft(Without(Without(t, src), dst), dst, Subtree(t, src))
  }

  function RenameOf(t: Tree, src: Path, dst: Path): Result<Tree, OsError> {
    if src !in t then Err(NotExist)
    else if IsDir(t, dst) then Err(AlreadyExists)
    else if src == dst then Ok(t)
    else if src <= dst then Err(InvalidMove)
    else if Blocked(t, dst) then Err(NotDirectory)
    else if dst != [] && Parent(dst) !in t then Err(NotExist)
    else if dst in t && t[src] == Dir then Err(NotDirectory)
    else Ok(Relocated(t, src, dst))
  }

  /** The subtree at src moved to dst. */
  ghost function Moved(t: Tree, src: Path, dst: Path): Tree {
    Graft(Without(t, src), dst, Subtree(t, src))
  }

  /** dst is a vacant place in a directory, and not inside src, which exists. */
  ghost predicate CanMove(t: Tree, src: Path, dst: Path) {
    && WellFormed(t)
    && src in t
    && dst != [] && dst !in t && IsDir(t, Parent(dst))
    && !(src <= dst)
  }

  lemma RenameIsMoved(t: Tree, src: Path, dst: Path)
    requires CanMove(t, src, dst)
    ensures RenameOf(t, src, dst) == Ok(Moved(t, src, dst))
  {
    AbsentIsVacant(t, dst);
    assert Without(Without(t, src), dst) == Without(t, src);
  }

  lemma MovedIsWellFormed(t: Tree, src: Path, dst: Path)
    requires CanMove(t, src, dst)
    ensures WellFormed(Moved(t, src, dst))
    ensures Vacant(Without(t, src), dst)
    ensures src != []
  {
    AbsentIsVacant(t, dst);
    assert src != [] && !(src <= Parent(dst));
    RootedParts(t, src);
    RootedGraft(Without(t, src), dst, Subtree(t, src));
  }

  /** A move takes the whole subtree along, vacates its old place and changes nothing elsewhere. */
  lemma MovedContents(t: Tree, src: Path, dst: Path)
    requires CanMove(t, src, dst)
    ensures var t' := Moved(t, src, dst);
            && Vacant(t', src)
            && Subtree(t', dst) == Subtree(t, src)
            && (forall q :: !(src <= q) && !(dst <= q) ==> (q in t' <==> q in t) && (q in t ==> t'[q] == t[q]))
  {
    MovedIsWellFormed(t, src, dst);
    var t' := Moved(t, src, dst);
    GraftThenCut(Without(t, src), dst, Subtree(t, src));
    forall q | q in t' ensures !(src <= q) {
      if dst <= q && src <= q {
        assert dst <= src;
        AncestorIsDir(t, src, dst);
      }
    }
  }

  lemma MovedKeepsCount(t: Tree, src: Path, dst: Path, v: Node)
    requires CanMove(t, src, dst)
    ensures Count(Moved(t, src, dst), v) == Count(t, v)
  {
    MovedIsWellFormed(t, src, dst);
    CountSplit(t, src, v);
    CountGraft(Without(t, src), dst, Subtree(t, src), v);
  }

  /** Moving back undoes a move. */
  lemma MovedBack(t: Tree, src: Path, dst: Path)
    requires CanMove(t, src, dst)
    ensures Moved(Moved(t, src, dst), dst, src) == t
  {
    MovedIsWellFormed(t, src, dst);
    GraftThenCut(Without(t, src), dst, Subtree(t, src));
    CutThenGraft(t, src);
  }

  // ---------------------------------------------------------------------------------------------
  // The disk
  // ---------------------------------------------------------------------------------------------

  class Disk {
    var tree: Tree

    constructor (tree: Tree)
      ensures this.tree == tree
    {
      this.tree := tree;
    }

    method Stat(p: Path) returns (r: StatResult)
      ensures r == StatOf(tree, p)
    {
      r := StatOf(tree, p);
    }

    /** The names in a directory, in increasing order. */
    method ReadDir(dir: Path) returns (names: seq<Name>)
      ensures IsListing(tree, dir, names)
    {
      names := [];
      var todo := ChildNames(tree, dir);
      while todo != {}
        invariant todo <= ChildNames(tree, dir)
        invariant Increasing(names)
        invariant forall n :: n in names <==> n in ChildNames(tree, dir) - todo
      {
        var x :| x in todo;
        InsertKeepsIncreasing(names, x);
        names := Insert(names, x);
        todo := todo - {x};
      }
    }

    method MkdirAll(p: Path) returns (e: Option<OsError>)
      modifies this
      ensures MkdirAllOf(old(tree), p).Ok? ==> e.None? && tree == MkdirAllOf(old(tree), p).value
      ensures MkdirAllOf(old(tree), p).Err? ==>
                e == Some(MkdirAllOf(old(tree), p).error) && tree == old(tree)
    {
      match MkdirAllOf(tree, p)
      case Ok(t) => tree := t; e := None;
      case Err(error) => e := Some(error);
    }

    method RemoveAll(p: Path) returns (e: Option<OsError>)
      modifies this
      ensures RemoveAllOf(old(tree), p).Ok? ==> e.None? && tree == RemoveAllOf(old(tree), p).value
      ensures RemoveAllOf(old(tree), p).Err? ==>
                e == Some(RemoveAllOf(old(tree), p).error) && tree == old(tree)
    {
      match RemoveAllOf(tree, p)
      case Ok(t) => tree := t; e := None;
      case Err(error) => e := Some(error);
    }

    method ReadFile(p: Path) returns (r: Result<Bytes, OsError>)
      ensures r == ReadFileOf(tree, p)
    {
      r := ReadFileOf(tree, p);
    }

    /** Opens with create and truncate, then writes all the bytes. */
    method WriteFile(p: Path, data: Bytes) returns (e: Option<OsError>)
      modifies this
      ensures WriteFileOf(old(tree), p, data).Ok? ==>
                e.None? && tree == WriteFileOf(old(tree), p, data).value
      ensures WriteFileOf(old(tree), p, data).Err? ==>
                e == Some(WriteFileOf(old(tree), p, data).error) && tree == old(tree)
    {
      match WriteFileOf(tree, p, data)
      case Ok(t) => tree := t; e := None;
      case Err(error) => e := Some(error);
    }

    method Rename(src: Path, dst: Path) returns (e: Option<OsError>)
      modifies this
      ensures RenameOf(old(tree), src, dst).Ok? ==> e.None? && tree == RenameOf(old(tree), src, dst).value
      ensures RenameOf(old(tree), src, dst).Err? ==>
                e == Some(RenameOf(old(tree), src, dst).error) && tree == old(tree)
    {
      match RenameOf(tree, src, dst)
      case Ok(t) => tree := t; e := None;
      case Err(error) => e := Some(error);
    }
  }
}
