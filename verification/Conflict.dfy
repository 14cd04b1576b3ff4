/** Choosing the place where a moved, copied or uploaded entry goes. */
module Conflict {
  import opened Wrappers
  import opened Names
  import opened FileTree
  import opened Disks
  import Paths
  import opened Sets

  datatype Policy = Overwrite | Rename | Skip

  /** The policy that a client's word stands for; none means renaming. */
  function ParsePolicy(raw: string, lower: string -> string): Option<Policy> {
    var policy := lower(Paths.TrimSpace(raw));
    if policy == "overwrite" then Some(Overwrite)
    else if policy == "" || policy == "rename" then Some(Rename)
    else if policy == "skip" then Some(Skip)
    else None
  }

  /** Which words are accepted, and what each of them means. */
  lemma PolicyWords(raw: string, lower: string -> string)
    ensures var word, policy := lower(Paths.TrimSpace(raw)), ParsePolicy(raw, lower);
            && (policy == Some(Overwrite) <==> word == "overwrite")
            && (policy == Some(Rename) <==> word == "rename" || word == "")
            && (policy == Some(Skip) <==> word == "skip")
            && (policy == None <==> word !in {"overwrite", "rename", "skip", ""})
  {
  }

  datatype ConflictError = NoUniqueName | Unremovable(error: OsError)

  datatype Resolution = Target(path: Path) | Skipped | Refused(error: ConflictError)

  const MAX_CANDIDATES: nat := 10000

  /** The directory and the name the candidates are built from; the root counts as unnamed. */
  function Place(desired: Path): (Path, Name) {
    if desired == [] then ([], "") else (Parent(desired), Last(desired))
  }

  function Candidate(desired: Path, n: nat): Path {
    Place(desired).0 + [CandidateName(Place(desired).1, n)]
  }

  /** k is the number of the first candidate that is free. */
  ghost predicate LeastFree(t: Tree, desired: Path, k: nat) {
    && 1 <= k <= MAX_CANDIDATES
    && Free(t, Candidate(desired, k))
    && forall j :: 1 <= j < k ==> !Free(t, Candidate(desired, j))
  }

  ghost function FirstFree(t: Tree, desired: Path): Option<Path> {
    if exists k :: LeastFree(t, desired, k)
    then var k :| LeastFree(t, desired, k); Some(Candidate(desired, k))
    else None
  }

  /** The tree and the answer of a resolution. */
  ghost function ResolveOf(t: Tree, desired: Path, policy: Policy): (r: (Tree, Resolution))
    ensures r.1.Target? && r.1.path == [] ==> desired == []
  {
    if Free(t, desired) then (t, Target(desired))
    else
      match policy
      case Skip => (t, Skipped)
      case Overwrite =>
        (match RemoveAllOf(t, desired)
         case Err(error) => (t, Refused(Unremovable(error)))
         case Ok(t') => (t', Target(desired)))
      case Rename =>
        (match FirstFree(t, desired)
         case Some(p) => (t, Target(p))
         case None => (t, Refused(NoUniqueName)))
  }

  method ResolveConflictTarget(disk: Disk, desired: Path, policy: Policy) returns (r: Resolution)
    modifies disk
    ensures (disk.tree, r) == ResolveOf(old(disk.tree), desired, policy)
  {
    var info := disk.Stat(desired);
    if info == Failed(NotExist) {
      return Target(desired);
    }
    match policy {
      case Skip =>
        r := Skipped;
      case Overwrite =>
        var e := disk.RemoveAll(desired);
        r := if e.Some? then Refused(Unremovable(e.value)) else Target(desired);
      case Rename =>
        var index := 1;
        while index <= MAX_CANDIDATES
          invariant 1 <= index <= MAX_CANDIDATES + 1
          invariant forall j :: 1 <= j < index ==> !Free(disk.tree, Candidate(desired, j))
          invariant disk.tree == old(disk.tree)
        {
          var next := disk.Stat(Candidate(desired, index));
          if next == Failed(NotExist) {
            FirstFreeIsLeast(disk.tree, desired, index);
            return Target(Candidate(desired, index));
          }
          index := index + 1;
        }
        r := Refused(NoUniqueName);
    }
  }

  lemma LeastFreeIsUnique(t: Tree, desired: Path, k: nat, m: nat)
    requires LeastFree(t, desired, k) && LeastFree(t, desired, m)
    ensures m == k
  {
  }

  lemma FirstFreeIsLeast(t: Tree, desired: Path, k: nat)
    requires LeastFree(t, desired, k)
    ensures FirstFree(t, desired) == Some(Candidate(desired, k))
  {
    forall m: nat | LeastFree(t, desired, m) ensures m == k {
      LeastFreeIsUnique(t, desired, k, m);
    }
  }

  lemma {:induction false} LeastFreeExists(t: Tree, desired: Path, k: nat) returns (m: nat)
    requires 1 <= k <= MAX_CANDIDATES && Free(t, Candidate(desired, k))
    ensures m <= k && LeastFree(t, desired, m)
  {
    if j :| 1 <= j < k && Free(t, Candidate(desired, j)) {
      m := LeastFreeExists(t, desired, j);
    } else {
      m := k;
    }
  }

  /** The candidates are numbered names in the directory of the path. */
  lemma CandidateIs(desired: Path, n: nat, base: string, ext: string)
    requires desired != [] && SplitsAtLastDot(Last(desired), base, ext)
    ensures Candidate(desired, n) == desired[..|desired| - 1] + [base + " (" + Decimal(n) + ")" + ext]
  {
    CandidateNameHasTheForm(Last(desired), n, base, ext);
  }

  lemma CandidateInjective(desired: Path, m: nat, n: nat)
    requires Candidate(desired, m) == Candidate(desired, n)
    ensures m == n
  {
    var (dir, name) := Place(desired);
    assert Last(Candidate(desired, m)) == CandidateName(name, m);
    assert Last(Candidate(desired, n)) == CandidateName(name, n);
    CandidateNameInjective(name, m, n);
  }

  lemma RenameTakesNone(t: Tree, desired: Path)
    requires !Free(t, desired)
    ensures var (t', r) := ResolveOf(t, desired, Rename);
            t' == t && if exists k :: LeastFree(t, desired, k) then r.Target? else r == Refused(NoUniqueName)
  {
  }

  lemma RenameTakes(t: Tree, desired: Path, m: nat)
    requires !Free(t, desired) && LeastFree(t, desired, m)
    ensures ResolveOf(t, desired, Rename).1 == Target(Candidate(desired, m))
  {
    FirstFreeIsLeast(t, desired, m);
  }

  ghost predicate SomeCandidateIsFree(t: Tree, desired: Path) {
    exists k :: 1 <= k <= MAX_CANDIDATES && Free(t, Candidate(desired, k))
  }

  /**
   Renaming leaves the tree alone and answers with the least-numbered free candidate; it gives up
   exactly when all of them are taken.
   */
  lemma RenameTakesLeastFreeCandidate(t: Tree, desired: Path)
    requires !Free(t, desired)
    ensures var (t', r) := ResolveOf(t, desired, Rename);
            && t' == t
            && if SomeCandidateIsFree(t, desired)
               then exists m :: LeastFree(t, desired, m) && r == Target(Candidate(desired, m))
               else r == Refused(NoUniqueName)
  {
    RenameTakesNone(t, desired);
    if SomeCandidateIsFree(t, desired) {
      var k :| 1 <= k <= MAX_CANDIDATES && Free(t, Candidate(desired, k));
      var m := LeastFreeExists(t, desired, k);
      RenameTakes(t, desired, m);
    }
  }

  ghost function CandidateNames(name: Name, n: nat): set<Name> {
    set k | 1 <= k <= n :: CandidateName(name, k)
  }

  lemma {:induction false} CandidateNamesAreMany(name: Name, n: nat)
    ensures |CandidateNames(name, n)| == n
  {
    if n == 0 {
      assert CandidateNames(name, 0) == {};
    } else {
      CandidateNamesAreMany(name, n - 1);
      assert CandidateName(name, n) !in CandidateNames(name, n - 1) by {
        forall k | 1 <= k <= n - 1 ensures CandidateName(name, k) != CandidateName(name, n) {
          if CandidateName(name, k) == CandidateName(name, n) {
            CandidateNameInjective(name, k, n);
          }
        }
      }
      assert CandidateNames(name, n) == CandidateNames(name, n - 1) + {CandidateName(name, n)};
    }
  }

  lemma SomeCandidateIsNew(names: set<Name>, name: Name, n: nat) returns (k: nat)
    requires |names| < n
    ensures 1 <= k <= n && CandidateName(name, k) !in names
  {
    CandidateNamesAreMany(name, n);
    if CandidateNames(name, n) <= names {
      SubsetIsSmaller(CandidateNames(name, n), names);
      assert false;
    }
    var x :| x in CandidateNames(name, n) && x !in names;
    k :| 1 <= k <= n && x == CandidateName(name, k);
  }

  /** In a directory with fewer than 10000 entries a free name is always found. */
  lemma RoomForAnotherName(t: Tree, desired: Path)
    requires WellFormed(t) && IsDir(t, Place(desired).0)
    requires |ChildNames(t, Place(desired).0)| < MAX_CANDIDATES
    ensures ResolveOf(t, desired, Rename).1.Target?
  {
    var k := SomeCandidateIsNew(ChildNames(t, Place(desired).0), Place(desired).1, MAX_CANDIDATES);
    NewNameIsFree(t, Place(desired).0, CandidateName(Place(desired).1, k));
    var m := LeastFreeExists(t, desired, k);
    FirstFreeIsLeast(t, desired, m);
  }

  lemma NewNameIsFree(t: Tree, dir: Path, n: Name)
    requires IsDir(t, dir) && n !in ChildNames(t, dir)
    ensures Free(t, dir + [n])
  {
    assert Parent(dir + [n]) == dir;
  }

  /** Whatever the policy, a path that is answered is free afterwards. */
  lemma AnsweredPathIsFree(t: Tree, desired: Path, policy: Policy)
    requires WellFormed(t)
    ensures var (t', r) := ResolveOf(t, desired, policy);
            && (r.Target? && desired != [] ==> Free(t', r.path) && WellFormed(t'))
            && (policy != Overwrite ==> t' == t)
            && (policy == Skip ==> (r.Skipped? <==> !Free(t, desired)))
            && (policy == Overwrite && r.Target? ==> r.path == desired && t' == Without(t, desired))
  {
    if policy == Overwrite && desired != [] {
      RootedParts(t, desired);
      if Free(t, desired) {
        AbsentIsVacant(t, desired);
        assert Without(t, desired) == t;
      }
      BlockedOutside(t, Without(t, desired), desired);
    }
  }

  /** Whether a path is blocked depends only on what is not below it. */
  lemma {:induction false} BlockedOutside(t: Tree, t': Tree, p: Path)
    requires forall q :: !(p <= q) ==> (q in t' <==> q in t) && (q in t ==> t'[q] == t[q])
    ensures Blocked(t', p) <==> Blocked(t, p)
  {
    BlockedSameAbove(t, t', p, p);
  }

  lemma {:induction false} BlockedSameAbove(t: Tree, t': Tree, p: Path, a: Path)
    requires forall q :: !(p <= q) ==> (q in t' <==> q in t) && (q in t ==> t'[q] == t[q])
    requires a <= p
    ensures Blocked(t', a) <==> Blocked(t, a)
    decreases |a|
  {
    if a != [] {
      assert !(p <= Parent(a));
      BlockedSameAbove(t, t', p, Parent(a));
    }
  }
}
