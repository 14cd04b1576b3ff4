/**
 The two copy algorithms: the recursive one behind the copy operation, which skips symbolic links,
 and the one that walks the source for moves across devices, which copies through them.
 */
module Copying {
  import opened Wrappers
  import opened Names
  import opened FileTree
  import opened Disks

  // ---------------------------------------------------------------------------------------------
  // What the copies contain
  // ---------------------------------------------------------------------------------------------

  /** Reading through a link gives a regular file. */
  function Opened(n: Node): Node {
    if n.Link? then File(n.data) else n
  }

  /** Copy of a subtree in which links below the top are left out. */
  function SkippingLinks(s: Tree): Tree {
    map r | r in s && (r == [] || !s[r].Link?) :: Opened(s[r])
  }

  /** Copy of a subtree in which every link becomes a regular file. */
  function ThroughLinks(s: Tree): Tree {
    map r | r in s :: Opened(s[r])
  }

  ghost predicate LinkFree(s: Tree) {
    forall r :: r in s ==> !s[r].Link?
  }

  /** The copy has arrived at target, below directories made on the way. */
  ghost function Copied(t: Tree, target: Path, copy: Tree): Tree
    requires target != [] && MkdirAllOf(t, Parent(target)).Ok?
  {
    Graft(MkdirAllOf(t, Parent(target)).value, target, copy)
  }

  /** target is vacant and not inside source, which exists. */
  ghost predicate CanCopy(t: Tree, source: Path, target: Path) {
    && WellFormed(t)
    && source in t
    && target !in t
    && !(source <= target)
  }

  /** Adding directories on the way to target, and entries below it, leaves the source alone. */
  ghost predicate Grown(t: Tree, t': Tree, target: Path) {
    && (forall q :: q in t ==> q in t' && t'[q] == t[q])
    && (forall q :: q in t' && q !in t ==> q <= target || target <= q)
  }

  lemma GrownKeepsSource(t: Tree, t': Tree, source: Path, target: Path)
    requires CanCopy(t, source, target) && Grown(t, t', target)
    ensures Subtree(t', source) == Subtree(t, source)
    ensures forall r :: !(target <= source + r) && !(source + r <= target)
  {
    forall r ensures !(target <= source + r) && !(source + r <= target) {
      assert source <= source + r;
      if target <= source + r {
        assert target <= source;
        AncestorIsDir(t, source, target);
      }
    }
  }

  // ---------------------------------------------------------------------------------------------
  // Copying a directory child by child
  // ---------------------------------------------------------------------------------------------

  /** The part of c at its root and below the children in done. */
  ghost function Upto(c: Tree, done: set<Name>): Tree {
    map r | r in c && (r == [] || r[0] in done) :: c[r]
  }

  lemma UptoNextAt(c: Tree, done: set<Name>, n: Name, r: Path)
    requires n !in done
    ensures var left, right := Graft(Upto(c, done), [n], Subtree(c, [n])), Upto(c, done + {n});
            (r in left <==> r in right) && (r in left ==> left[r] == right[r])
  {
    if r != [] && r[0] == n {
      assert r == [n] + r[1..];
      GraftInside(Upto(c, done), [n], Subtree(c, [n]), r[1..]);
    } else {
      assert !([n] <= r);
    }
  }

  /** The next child extends the part that is done. */
  lemma UptoNext(c: Tree, done: set<Name>, n: Name)
    requires n !in done
    ensures Graft(Upto(c, done), [n], Subtree(c, [n])) == Upto(c, done + {n})
  {
    forall r {
      UptoNextAt(c, done, n, r);
    }
  }

  lemma GraftNestedBelow(t: Tree, at: Path, s: Tree, below: Path, u: Tree, y: Path)
    ensures var left := Graft(Graft(t, at, s), at + below, u);
            var right := Graft(t, at, Graft(s, below, u));
            var q := at + below + y;
            (q in left <==> q in right) && (q in left ==> left[q] == right[q])
  {
    assert at + below + y == at + (below + y);
    GraftInside(Graft(t, at, s), at + below, u, y);
    GraftInside(t, at, s, below + y);
    GraftInside(t, at, Graft(s, below, u), below + y);
    GraftInside(s, below, u, y);
  }

  lemma GraftNestedBeside(t: Tree, at: Path, s: Tree, below: Path, u: Tree, x: Path)
    requires !(below <= x)
    ensures var left := Graft(Graft(t, at, s), at + below, u);
            var right := Graft(t, at, Graft(s, below, u));
            var q := at + x;
            (q in left <==> q in right) && (q in left ==> left[q] == right[q])
  {
    PrefixInside(at, below, x);
    GraftInside(t, at, s, x);
    GraftInside(t, at, Graft(s, below, u), x);
  }

  lemma GraftNestedAt(t: Tree, at: Path, s: Tree, below: Path, u: Tree, q: Path)
    ensures var left := Graft(Graft(t, at, s), at + below, u);
            var right := Graft(t, at, Graft(s, below, u));
            (q in left <==> q in right) && (q in left ==> left[q] == right[q])
  {
    if at + below <= q {
      assert q == at + below + q[|at + below|..];
      GraftNestedBelow(t, at, s, below, u, q[|at + below|..]);
    } else if at <= q {
      assert q == at + q[|at|..];
      PrefixInside(at, below, q[|at|..]);
      GraftNestedBeside(t, at, s, below, u, q[|at|..]);
    }
  }

  /** Grafting below a graft grafts into what was grafted. */
  lemma GraftNested(t: Tree, at: Path, s: Tree, below: Path, u: Tree)
    ensures Graft(Graft(t, at, s), at + below, u) == Graft(t, at, Graft(s, below, u))
  {
    forall q {
      GraftNestedAt(t, at, s, below, u, q);
    }
  }

  lemma GraftInside(t: Tree, at: Path, s: Tree, x: Path)
    ensures var g := Graft(t, at, s);
            && (at + x in g <==> x in s || at + x in t)
            && (at + x in g ==> g[at + x] == if x in s then s[x] else t[at + x])
  {
    assert (at + x)[|at|..] == x;
  }

  lemma PrefixInside(at: Path, below: Path, x: Path)
    ensures at + below <= at + x <==> below <= x
    ensures at + below <= at + x ==> (at + x)[|at + below|..] == x[|below|..]
  {
    if at + below <= at + x {
      assert below == (at + below)[|at|..] == (at + x)[|at|..|at + below|] == x[..|below|];
    }
    if below <= x {
      assert x == below + x[|below|..];
      assert at + x == at + below + x[|below|..];
    }
  }

  lemma UptoNone(c: Tree)
    requires [] in c
    ensures Upto(c, {}) == map[[] := c[[]]]
  {
  }

  lemma UptoAll(c: Tree, done: set<Name>)
    requires forall r :: r in c && r != [] ==> r[0] in done
    ensures Upto(c, done) == c
  {
  }

  lemma ChildCopies(s: Tree, n: Name)
    requires [n] in s
    ensures !s[[n]].Link? ==> Subtree(SkippingLinks(s), [n]) == SkippingLinks(Subtree(s, [n]))
    ensures Subtree(ThroughLinks(s), [n]) == ThroughLinks(Subtree(s, [n]))
  {
    assert [n] + [] == [n];
  }

  /** The first name on the way to an entry of a subtree is the name of a child. */
  lemma {:induction false} FirstNameIsChild(s: Tree, r: Path)
    requires Rooted(s) && r in s && r != []
    ensures [r[0]] in s
  {
    if |r| > 1 {
      AncestorIsDir(s, r, [r[0]]);
    } else {
      assert r == [r[0]];
    }
  }

  lemma RootedCopies(s: Tree)
    requires Rooted(s)
    ensures Rooted(SkippingLinks(s)) && Rooted(ThroughLinks(s))
  {
  }

  /** Making the target directory is making its parent and grafting an empty directory. */
  lemma MkdirTarget(t: Tree, target: Path)
    requires WellFormed(t) && target !in t
    ensures target != []
    ensures MkdirAllOf(t, target).Ok? <==> MkdirAllOf(t, Parent(target)).Ok?
    ensures MkdirAllOf(t, target).Err? ==> MkdirAllOf(t, target) == MkdirAllOf(t, Parent(target)) == Err(NotDirectory)
    ensures MkdirAllOf(t, target).Ok? ==>
              MkdirAllOf(t, target).value == Graft(MkdirAllOf(t, Parent(target)).value, target, map[[] := Dir])
  {
    MkdirAllMakes(t, Parent(target));
    if MkdirAllOf(t, target).Ok? {
      GraftLeaf(MkdirAllOf(t, Parent(target)).value, target, Dir);
    }
  }

  lemma GraftLeaf(t: Tree, target: Path, v: Node)
    ensures Graft(t, target, map[[] := v]) == t[target := v]
  {
    forall q ensures target <= q && q[|target|..] == [] <==> q == target {
      assert target <= q && q[|target|..] == [] ==> q == target;
    }
  }

  lemma PrefixOfParents(source: Path, target: Path, n: Name)
    ensures source + [n] <= target + [n] ==> source <= target
  {
    if source + [n] <= target + [n] && |source| <= |target| {
      assert source == (target + [n])[..|source|] == target[..|source|];
    }
  }

  /** Between two children, the tree is sound and the next child can be copied. */
  lemma Midway(t: Tree, source: Path, target: Path, c: Tree, done: set<Name>)
    requires CanCopy(t, source, target)
    requires target != [] && MkdirAllOf(t, Parent(target)).Ok?
    requires Rooted(c) && c[[]] == Dir
    ensures var now := Copied(t, target, Upto(c, done));
            && WellFormed(now)
            && Grown(t, now, target)
            && IsDir(now, target)
            && (forall n :: n !in done ==> target + [n] !in now)
  {
    var base := MkdirAllOf(t, Parent(target)).value;
    MkdirAllMakes(t, Parent(target));
    AbsentIsVacant(base, target);
    RootedGraft(base, target, Upto(c, done));
    var now := Copied(t, target, Upto(c, done));
    assert target[|target|..] == [];
    forall n | n !in done ensures target + [n] !in now {
      GraftInside(base, target, Upto(c, done), [n]);
      assert target <= target + [n];
    }
  }

  lemma NextChild(t: Tree, source: Path, target: Path, c: Tree, done: set<Name>, n: Name)
    requires CanCopy(t, source, target)
    requires target != [] && MkdirAllOf(t, Parent(target)).Ok?
    requires Rooted(c) && c[[]] == Dir
    requires n !in done && [n] in Subtree(t, source)
    ensures var now := Copied(t, target, Upto(c, done));
            && CanCopy(now, source + [n], target + [n])
            && Parent(target + [n]) == target
            && MkdirAllOf(now, target) == Ok(now)
            && Subtree(now, source + [n]) == Subtree(Subtree(t, source), [n])
            && Graft(now, target + [n], Subtree(c, [n])) == Copied(t, target, Upto(c, done + {n}))
  {
    var now := Copied(t, target, Upto(c, done));
    Midway(t, source, target, c, done);
    GrownKeepsSource(t, now, source, target);
    SubtreeNested(t, source, [n]);
    SubtreeNested(now, source, [n]);
    assert source + [n] in now;
    PrefixOfParents(source, target, n);
    GraftNested(MkdirAllOf(t, Parent(target)).value, target, Upto(c, done), [n], Subtree(c, [n]));
    UptoNext(c, done, n);
  }

  lemma SubtreeNested(t: Tree, p: Path, r: Path)
    ensures Subtree(Subtree(t, p), r) == Subtree(t, p + r)
  {
    assert forall x :: p + (r + x) == p + r + x;
  }

  // ---------------------------------------------------------------------------------------------
  // The recursive copy
  // ---------------------------------------------------------------------------------------------

  function NameSet(s: seq<Name>): set<Name> {
    set n | n in s
  }

  /** The tree and the error of a copy, for what the algorithm puts into it. */
  ghost function CopyOf(t: Tree, source: Path, target: Path, copy: Tree): (Tree, Option<OsError>) {
    match StatOf(t, source)
    case Failed(error) => (t, Some(error))
    case Found(_) =>
      if target == [] || MkdirAllOf(t, Parent(target)).Err? then (t, Some(NotDirectory))
      else (Copied(t, target, copy), None)
  }

  lemma ListingHasNoRepeats(names: seq<Name>, i: nat)
    requires Increasing(names) && i < |names|
    ensures names[i] !in NameSet(names[..i])
    ensures NameSet(names[..i + 1]) == NameSet(names[..i]) + {names[i]}
  {
    assert names[..i + 1] == names[..i] + [names[i]];
    forall j | 0 <= j < i ensures names[j] != names[i] {
      LessTotal(names[j], names[i]);
    }
  }

  /** A file is copied by writing its bytes to the target. */
  lemma LeafCopied(t: Tree, source: Path, target: Path)
    requires CanCopy(t, source, target) && t[source] != Dir
    requires target != [] && MkdirAllOf(t, Parent(target)).Ok?
    ensures var base := MkdirAllOf(t, Parent(target)).value;
            && ReadFileOf(base, source) == Ok(t[source].data)
            && WriteFileOf(base, target, t[source].data) ==
               Ok(Copied(t, target, SkippingLinks(Subtree(t, source))))
            && SkippingLinks(Subtree(t, source)) == ThroughLinks(Subtree(t, source))
  {
    var base := MkdirAllOf(t, Parent(target)).value;
    MkdirAllMakes(t, Parent(target));
    LeafSubtree(t, source);
    var leaf := Opened(t[source]);
    assert SkippingLinks(Subtree(t, source)) == map[[] := leaf];
    assert ThroughLinks(Subtree(t, source)) == map[[] := leaf];
    GraftLeaf(base, target, leaf);
  }

  lemma LeafSubtree(t: Tree, p: Path)
    requires Rooted(t) && p in t && t[p] != Dir
    ensures Subtree(t, p) == map[[] := t[p]]
  {
    assert p + [] == p;
    forall r | r in Subtree(t, p) ensures r == [] {
      assert p <= p + r;
      LeafHasNothingBelow(t, p, p + r);
    }
  }

  /** The listing of the source, taken after the target directory was made. */
  lemma SourceListing(t: Tree, now: Tree, source: Path, target: Path, c: Tree, names: seq<Name>)
    requires CanCopy(t, source, target) && Grown(t, now, target) && IsListing(now, source, names)
    requires Rooted(c) && c.Keys <= Subtree(t, source).Keys
    ensures forall n :: n in names <==> [n] in Subtree(t, source)
    ensures Upto(c, NameSet(names)) == c
  {
    GrownKeepsSource(t, now, source, target);
    forall n ensures n in names <==> [n] in Subtree(t, source) {
      assert [n] in Subtree(now, source) <==> source + [n] in now;
    }
    forall r | r in c && r != [] ensures r[0] in NameSet(names) {
      FirstNameIsChild(c, r);
    }
    UptoAll(c, NameSet(names));
  }

  lemma LinkLeavesNothing(s: Tree, n: Name, done: set<Name>)
    requires Rooted(s) && [n] in s && s[[n]].Link?
    ensures Upto(SkippingLinks(s), done + {n}) == Upto(SkippingLinks(s), done)
  {
    forall r | r in s && r != [] && r[0] == n ensures r == [n] {
      assert [n] <= r;
      LeafHasNothingBelow(s, [n], r);
    }
  }

  lemma ChildIsSmaller(t: Tree, now: Tree, source: Path, target: Path, n: Name)
    requires CanCopy(t, source, target) && Grown(t, now, target)
    ensures Below(now, source + [n]) < Below(t, source)
  {
    GrownKeepsSource(t, now, source, target);
    forall p | p in Below(now, source + [n]) ensures p in Below(t, source) {
      assert p == source + p[|source|..];
      assert p[|source|..] in Subtree(now, source);
    }
    assert source in Below(t, source) && source !in Below(now, source + [n]);
  }

  /** The entries at p and below, which shrink from a directory to its children. */
  ghost function Below(t: Tree, p: Path): set<Path> {
    set q | q in t && p <= q
  }

  lemma ChildBelow(t: Tree, dir: Path, n: Name)
    requires dir in t
    ensures Below(t, dir + [n]) < Below(t, dir)
  {
    assert dir in Below(t, dir) && dir !in Below(t, dir + [n]);
  }

  // ---------------------------------------------------------------------------------------------
  // The loop over the entries of a directory
  // ---------------------------------------------------------------------------------------------

  /** The tree when the children in done have been copied, c being the whole copy. */
  ghost function Progress(t: Tree, target: Path, c: Tree, done: set<Name>): Tree
    requires target != [] && MkdirAllOf(t, Parent(target)).Ok?
  {
    Copied(t, target, Upto(c, done))
  }

  /** The source is a directory, the target can be made, and c is a copy the source can have. */
  ghost predicate CopyUnderway(t: Tree, source: Path, target: Path, c: Tree) {
    && CanCopy(t, source, target)
    && IsDir(t, source)
    && target != [] && MkdirAllOf(t, Parent(target)).Ok?
    && Rooted(c) && c[[]] == Dir && c.Keys <= Subtree(t, source).Keys
  }

  lemma CopyStarts(t: Tree, source: Path, target: Path, c: Tree)
    requires CanCopy(t, source, target) && IsDir(t, source) && MkdirAllOf(t, target).Ok?
    requires c == SkippingLinks(Subtree(t, source)) || c == ThroughLinks(Subtree(t, source))
    ensures CopyUnderway(t, source, target, c)
    ensures MkdirAllOf(t, target).value == Progress(t, target, c, {})
  {
    MkdirTarget(t, target);
    CopyIsRooted(t, source);
    UptoNone(c);
  }

  lemma CopyIsRooted(t: Tree, source: Path)
    requires Rooted(t) && IsDir(t, source)
    ensures var s := Subtree(t, source);
            && Rooted(s)
            && SkippingLinks(s).Keys <= s.Keys && ThroughLinks(s).Keys <= s.Keys
            && Rooted(SkippingLinks(s)) && SkippingLinks(s)[[]] == Dir
            && Rooted(ThroughLinks(s)) && ThroughLinks(s)[[]] == Dir
  {
    assert source + [] == source;
    RootedParts(t, source);
    RootedCopies(Subtree(t, source));
  }

  lemma CopyFinishes(t: Tree, source: Path, target: Path, c: Tree, names: seq<Name>)
    requires CopyUnderway(t, source, target, c)
    requires IsListing(Progress(t, target, c, {}), source, names)
    ensures forall n :: n in names ==> [n] in Subtree(t, source)
    ensures Progress(t, target, c, NameSet(names)) == Copied(t, target, c)
  {
    Midway(t, source, target, c, {});
    SourceListing(t, Progress(t, target, c, {}), source, target, c, names);
  }

  lemma CopyBelowDirectory(t: Tree, source: Path, target: Path, c: Tree)
    requires source in t && target != [] && MkdirAllOf(t, Parent(target)) == Ok(t)
    ensures CopyOf(t, source, target, c) == (Graft(t, target, c), None)
  {
  }

  /** The next child n can be copied, and copying it as c has it makes progress. */
  lemma ChildAdvances(t: Tree, source: Path, target: Path, c: Tree, done: set<Name>, n: Name)
    requires CopyUnderway(t, source, target, c) && n !in done && [n] in Subtree(t, source)
    ensures var now := Progress(t, target, c, done);
            && CanCopy(now, source + [n], target + [n])
            && Below(now, source + [n]) < Below(t, source)
            && Subtree(now, source + [n]) == Subtree(Subtree(t, source), [n])
            && CopyOf(now, source + [n], target + [n], Subtree(c, [n])) == (Progress(t, target, c, done + {n}), None)
  {
    var now := Progress(t, target, c, done);
    NextChild(t, source, target, c, done, n);
    CopyBelowDirectory(now, source + [n], target + [n], Subtree(c, [n]));
    assert Below(now, source + [n]) < Below(t, source) by {
      Midway(t, source, target, c, done);
      ChildIsSmaller(t, now, source, target, n);
    }
  }

  lemma RecursiveCopyAdvances(t: Tree, source: Path, target: Path, done: set<Name>, n: Name)
    requires var c := SkippingLinks(Subtree(t, source)); CopyUnderway(t, source, target, c)
    requires n !in done && [n] in Subtree(t, source)
    ensures var c := SkippingLinks(Subtree(t, source));
            var now := Progress(t, target, c, done);
            && CanCopy(now, source + [n], target + [n])
            && Below(now, source + [n]) < Below(t, source)
            && (now[source + [n]].Link? ==> now == Progress(t, target, c, done + {n}))
            && (!now[source + [n]].Link? ==>
                  CopyOf(now, source + [n], target + [n], SkippingLinks(Subtree(now, source + [n]))) ==
                  (Progress(t, target, c, done + {n}), None))
  {
    var s := Subtree(t, source);
    var now := Progress(t, target, SkippingLinks(s), done);
    ChildAdvances(t, source, target, SkippingLinks(s), done, n);
    SubtreeRoot(now, source + [n]);
    SubtreeRoot(s, [n]);
    assert now[source + [n]] == s[[n]];
    if s[[n]].Link? {
      SkippedLink(t, source, target, done, n);
    } else {
      ChildCopies(s, n);
    }
  }

  lemma SkippedLink(t: Tree, source: Path, target: Path, done: set<Name>, n: Name)
    requires var c := SkippingLinks(Subtree(t, source)); CopyUnderway(t, source, target, c)
    requires [n] in Subtree(t, source) && Subtree(t, source)[[n]].Link?
    ensures var c := SkippingLinks(Subtree(t, source));
            Progress(t, target, c, done) == Progress(t, target, c, done + {n})
  {
    CopyIsRooted(t, source);
    LinkLeavesNothing(Subtree(t, source), n, done);
  }

  lemma WalkCopyAdvances(t: Tree, source: Path, target: Path, done: set<Name>, n: Name)
    requires var c := ThroughLinks(Subtree(t, source)); CopyUnderway(t, source, target, c)
    requires n !in done && [n] in Subtree(t, source)
    ensures var c := ThroughLinks(Subtree(t, source));
            var now := Progress(t, target, c, done);
            && CanCopy(now, source + [n], target + [n])
            && Below(now, source + [n]) < Below(t, source)
            && CopyOf(now, source + [n], target + [n], ThroughLinks(Subtree(now, source + [n]))) ==
               (Progress(t, target, c, done + {n}), None)
  {
    ChildAdvances(t, source, target, ThroughLinks(Subtree(t, source)), done, n);
    ChildCopies(Subtree(t, source), n);
  }

  lemma SubtreeRoot(t: Tree, p: Path)
    requires p in t
    ensures [] in Subtree(t, p) && Subtree(t, p)[[]] == t[p]
  {
    assert p + [] == p;
  }

  // ---------------------------------------------------------------------------------------------
  // The recursive copy
  // ---------------------------------------------------------------------------------------------

  method CopyRecursive(disk: Disk, source: Path, target: Path) returns (e: Option<OsError>)
    requires WellFormed(disk.tree) && target !in disk.tree
    requires source in disk.tree ==> !(source <= target)
    modifies disk
    ensures (disk.tree, e) == CopyOf(old(disk.tree), source, target, SkippingLinks(Subtree(old(disk.tree), source)))
    decreases Below(disk.tree, source), 3
  {
    ghost var t := disk.tree;
    MkdirTarget(t, target);
    var info := disk.Stat(source);
    if info.Failed? {
      return Some(info.error);
    }
    if info.node == Dir {
      e := disk.MkdirAll(target);
      if e.None? {
        e := CopyEntries(disk, source, target, t);
      }
    } else {
      e := disk.MkdirAll(Parent(target));
      if e.None? {
        LeafCopied(t, source, target);
        var data := disk.ReadFile(source);
        e := disk.WriteFile(target, data.value);
      }
    }
  }

  /** The entries of a directory, after the target was made from tree t. */
  method CopyEntries(disk: Disk, source: Path, target: Path, ghost t: Tree) returns (e: Option<OsError>)
    requires CanCopy(t, source, target) && IsDir(t, source)
    requires MkdirAllOf(t, target) == Ok(disk.tree)
    modifies disk
    ensures (disk.tree, e) == CopyOf(t, source, target, SkippingLinks(Subtree(t, source)))
    decreases Below(t, source), 2
  {
    CopyStarts(t, source, target, SkippingLinks(Subtree(t, source)));
    var names := disk.ReadDir(source);
    CopyFinishes(t, source, target, SkippingLinks(Subtree(t, source)), names);
    e := CopyNames(disk, source, target, names, t);
  }

  /** The loop over them. */
  method CopyNames(disk: Disk, source: Path, target: Path, names: seq<Name>, ghost t: Tree)
    returns (e: Option<OsError>)
    requires var c := SkippingLinks(Subtree(t, source));
             CopyUnderway(t, source, target, c) && disk.tree == Progress(t, target, c, {})
    requires Increasing(names) && forall n :: n in names ==> [n] in Subtree(t, source)
    modifies disk
    ensures e == None && disk.tree == Progress(t, target, SkippingLinks(Subtree(t, source)), NameSet(names))
    decreases Below(t, source), 1
  {
    e := None;
    var i := 0;
    assert NameSet(names[..0]) == {};
    while i < |names|
      invariant 0 <= i <= |names|
      invariant e == None && disk.tree == Progress(t, target, SkippingLinks(Subtree(t, source)), NameSet(names[..i]))
    {
      ListingHasNoRepeats(names, i);
      e := CopyEntry(disk, source, target, names[i], t, NameSet(names[..i]));
      if e.Some? {
        return;
      }
      i := i + 1;
    }
    assert names[..|names|] == names;
  }

  /** One turn of that loop: a link is skipped, anything else is copied. */
  method CopyEntry(disk: Disk, source: Path, target: Path, name: Name, ghost t: Tree, ghost done: set<Name>)
    returns (e: Option<OsError>)
    requires var c := SkippingLinks(Subtree(t, source));
             CopyUnderway(t, source, target, c) && disk.tree == Progress(t, target, c, done)
    requires name !in done && [name] in Subtree(t, source)
    modifies disk
    ensures e == None && disk.tree == Progress(t, target, SkippingLinks(Subtree(t, source)), done + {name})
    decreases Below(t, source), 0
  {
    RecursiveCopyAdvances(t, source, target, done, name);
    e := None;
    if !disk.tree[source + [name]].Link? {
      e := CopyRecursive(disk, source + [name], target + [name]);
    }
  }

  // ---------------------------------------------------------------------------------------------
  // The walk-based copy
  // ---------------------------------------------------------------------------------------------

  method CopyPathRecursive(disk: Disk, source: Path, destination: Path) returns (e: Option<OsError>)
    requires WellFormed(disk.tree) && destination !in disk.tree
    requires source in disk.tree ==> !(source <= destination)
    modifies disk
    ensures (disk.tree, e) == CopyOf(old(disk.tree), source, destination, ThroughLinks(Subtree(old(disk.tree), source)))
  {
    ghost var t := disk.tree;
    MkdirTarget(t, destination);
    var info := disk.Stat(source);
    if info.Failed? {
      return Some(info.error);
    }
    if info.node != Dir {
      e := CopyFile(disk, source, destination);
      return;
    }
    e := disk.MkdirAll(destination);
    if e.None? {
      assert destination + source[|source|..] == destination;
      e := WalkEntries(disk, source, destination, source, t, destination);
    }
  }

  method CopyFile(disk: Disk, source: Path, destination: Path) returns (e: Option<OsError>)
    requires CanCopy(disk.tree, source, destination) && disk.tree[source] != Dir
    modifies disk
    ensures (disk.tree, e) == CopyOf(old(disk.tree), source, destination, ThroughLinks(Subtree(old(disk.tree), source)))
  {
    ghost var t := disk.tree;
    MkdirTarget(t, destination);
    var data := disk.ReadFile(source);
    e := disk.MkdirAll(Parent(destination));
    if e.None? {
      LeafCopied(t, source, destination);
      e := disk.WriteFile(destination, data.value);
    }
  }

  /** The walk below the directory current; the target of an entry is found from its path relative to source. */
  method WalkEntries(disk: Disk, source: Path, destination: Path, current: Path, ghost t: Tree, ghost target: Path)
    returns (e: Option<OsError>)
    requires source <= current && target == destination + current[|source|..]
    requires CanCopy(t, current, target) && IsDir(t, current)
    requires MkdirAllOf(t, target) == Ok(disk.tree)
    modifies disk
    ensures (disk.tree, e) == CopyOf(t, current, target, ThroughLinks(Subtree(t, current)))
    decreases Below(t, current), 2
  {
    CopyStarts(t, current, target, ThroughLinks(Subtree(t, current)));
    var names := disk.ReadDir(current);
    CopyFinishes(t, current, target, ThroughLinks(Subtree(t, current)), names);
    e := WalkNames(disk, source, destination, current, names, t, target);
  }

  /** The loop of the walk over the entries of a directory. */
  method WalkNames(disk: Disk, source: Path, destination: Path, dir: Path, names: seq<Name>,
                   ghost t: Tree, ghost target: Path)
    returns (e: Option<OsError>)
    requires source <= dir && target == destination + dir[|source|..]
    requires var c := ThroughLinks(Subtree(t, dir));
             CopyUnderway(t, dir, target, c) && disk.tree == Progress(t, target, c, {})
    requires Increasing(names) && forall n :: n in names ==> [n] in Subtree(t, dir)
    modifies disk
    ensures e == None && disk.tree == Progress(t, target, ThroughLinks(Subtree(t, dir)), NameSet(names))
    decreases Below(t, dir), 1
  {
    e := None;
    var i := 0;
    assert NameSet(names[..0]) == {};
    while i < |names|
      invariant 0 <= i <= |names|
      invariant e == None && disk.tree == Progress(t, target, ThroughLinks(Subtree(t, dir)), NameSet(names[..i]))
    {
      ListingHasNoRepeats(names, i);
      e := WalkEntry(disk, source, destination, dir, names[i], t, target, NameSet(names[..i]));
      if e.Some? {
        return;
      }
      i := i + 1;
    }
    assert names[..|names|] == names;
  }

  lemma TargetOfChild(source: Path, destination: Path, dir: Path, name: Name)
    requires source <= dir
    ensures source <= dir + [name]
    ensures destination + (dir + [name])[|source|..] == destination + dir[|source|..] + [name]
  {
    assert (dir + [name])[|source|..] == dir[|source|..] + [name];
  }

  /** A visit of one entry: the callback, then the walk below it when it is a directory. */
  method WalkVisit(disk: Disk, source: Path, destination: Path, current: Path) returns (e: Option<OsError>)
    requires source <= current && CanCopy(disk.tree, current, destination + current[|source|..])
    modifies disk
    ensures var target := destination + current[|source|..];
            var t := old(disk.tree);
            (disk.tree, e) == CopyOf(t, current, target, ThroughLinks(Subtree(t, current)))
    decreases Below(disk.tree, current), 3
  {
    ghost var t := disk.tree;
    var target := destination + current[|source|..];
    MkdirTarget(t, target);
    if disk.tree[current] == Dir {
      e := disk.MkdirAll(target);
      if e.None? {
        e := WalkEntries(disk, source, destination, current, t, target);
      }
    } else {
      e := CopyFile(disk, current, target);
    }
  }

  /** One turn of the loop of the walk. */
  method WalkEntry(disk: Disk, source: Path, destination: Path, dir: Path, name: Name,
                   ghost t: Tree, ghost target: Path, ghost done: set<Name>)
    returns (e: Option<OsError>)
    requires source <= dir && target == destination + dir[|source|..]
    requires var c := ThroughLinks(Subtree(t, dir));
             CopyUnderway(t, dir, target, c) && disk.tree == Progress(t, target, c, done)
    requires name !in done && [name] in Subtree(t, dir)
    modifies disk
    ensures e == None && disk.tree == Progress(t, target, ThroughLinks(Subtree(t, dir)), done + {name})
    decreases Below(t, dir), 0
  {
    TargetOfChild(source, destination, dir, name);
    WalkCopyAdvances(t, dir, target, done, name);
    e := WalkVisit(disk, source, destination, dir + [name]);
  }
}
