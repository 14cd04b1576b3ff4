/**
 The file tree every service works on.  A tree maps the path of each entry, relative to the common
 root, to what is stored there.  The operations of the operating system are functions from trees to
 trees; they are built from three pieces: cutting a subtree off, reading one out, and grafting one in.
 */
module FileTree {
  newtype Byte = b: int | 0 <= b < 256
  type Bytes = seq<Byte>
  type Name = string
  type Path = seq<Name>

  /** A Link is a symbolic link to a regular file outside the tree; it carries the bytes of that file. */
  datatype Node = Dir | File(data: Bytes) | Link(data: Bytes)

  type Tree = map<Path, Node>

  function Parent(p: Path): Path
    requires p != []
  {
    p[..|p| - 1]
  }

  function Last(p: Path): Name
    requires p != []
  {
    p[|p| - 1]
  }

  predicate IsDir(t: Tree, p: Path) {
    p in t && t[p] == Dir
  }

  /** The shape of any subtree: it has a root, and only directories have entries below them. */
  ghost predicate Rooted(t: Tree) {
    && [] in t
    && forall p {:trigger p in t, Parent(p)} :: p in t && p != [] ==> IsDir(t, Parent(p))
  }

  ghost predicate WellFormed(t: Tree) {
    Rooted(t) && t[[]] == Dir
  }

  /** Nothing lies at p or below it. */
  ghost predicate Vacant(t: Tree, p: Path) {
    forall q :: q in t ==> !(p <= q)
  }

  // ---------------------------------------------------------------------------------------------
  // Cutting, reading and grafting subtrees
  // ---------------------------------------------------------------------------------------------

  /** The subtree at root, with paths relative to root. */
  function Subtree(t: Tree, root: Path): (s: Tree)
    ensures forall r {:trigger r in s} :: r in s <==> root + r in t
    ensures forall r {:trigger s[r]} :: r in s ==> s[r] == t[root + r]
  {
    var keys := set p | p in t && root <= p :: p[|root|..];
    assert forall p | p in t && root <= p :: p == root + p[|root|..];
    assert forall r :: r in keys <==> root + r in t by {
      forall r | root + r in t ensures r in keys {
        assert (root + r)[|root|..] == r;
      }
    }
    map r | r in keys :: t[root + r]
  }

  function Without(t: Tree, p: Path): (w: Tree)
    ensures forall q {:trigger q in w} :: q in w <==> q in t && !(p <= q)
    ensures forall q {:trigger w[q]} :: q in w ==> w[q] == t[q]
  {
    map q | q in t && !(p <= q) :: t[q]
  }

  /** The tree t with s put at path `at`; entries of s win over entries of t. */
  function Graft(t: Tree, at: Path, s: Tree): (g: Tree)
    ensures forall q {:trigger q in g} :: q in g <==> q in t || (at <= q && q[|at|..] in s)
    ensures forall q {:trigger g[q]} :: q in g ==> g[q] == if at <= q && q[|at|..] in s then s[q[|at|..]] else t[q]
  {
    var keys := set r | r in s :: at + r;
    assert forall r :: (at + r)[|at|..] == r;
    assert forall q :: q in keys <==> at <= q && q[|at|..] in s by {
      forall q | at <= q && q[|at|..] in s ensures q in keys {
        assert q == at + q[|at|..];
      }
    }
    t + (map q | q in keys :: s[q[|at|..]])
  }

  lemma {:induction false} AncestorIsDir(t: Tree, p: Path, a: Path)
    requires Rooted(t) && p in t && a <= p && a != p
    ensures IsDir(t, a)
    decreases |p|
  {
    assert IsDir(t, Parent(p));
    if a != Parent(p) {
      AncestorIsDir(t, Parent(p), a);
    }
  }

  lemma AbsentIsVacant(t: Tree, p: Path)
    requires Rooted(t) && p !in t
    ensures Vacant(t, p)
  {
    forall q | q in t ensures !(p <= q) {
      if p <= q {
        AncestorIsDir(t, q, p);
      }
    }
  }

  lemma LeafHasNothingBelow(t: Tree, p: Path, q: Path)
    requires Rooted(t) && p in t && t[p] != Dir && q in t && p <= q
    ensures p == q
  {
    if p != q {
      AncestorIsDir(t, q, p);
    }
  }

  lemma RootedSubtree(t: Tree, p: Path)
    requires Rooted(t) && p in t
    ensures Rooted(Subtree(t, p))
  {
    assert p + [] == p;
    forall r | r in Subtree(t, p) && r != [] ensures IsDir(Subtree(t, p), Parent(r)) {
      assert Parent(p + r) == p + Parent(r);
    }
  }

  lemma RootedWithout(t: Tree, p: Path)
    requires Rooted(t) && p != []
    ensures Rooted(Without(t, p))
  {
    forall q | q in Without(t, p) && q != [] ensures IsDir(Without(t, p), Parent(q)) {
      PrefixThrough(p, Parent(q), q);
    }
  }

  lemma RootedParts(t: Tree, p: Path)
    requires Rooted(t)
    ensures p in t ==> Rooted(Subtree(t, p))
    ensures p != [] ==> Rooted(Without(t, p))
  {
    if p in t {
      RootedSubtree(t, p);
    }
    if p != [] {
      RootedWithout(t, p);
    }
  }

  lemma RootedGraft(t: Tree, at: Path, s: Tree)
    requires Rooted(t) && Rooted(s) && at != [] && IsDir(t, Parent(at)) && Vacant(t, at)
    ensures Rooted(Graft(t, at, s))
  {
    var g := Graft(t, at, s);
    forall q | q in g && q != [] ensures IsDir(g, Parent(q)) {
      if at <= q && q[|at|..] in s {
        if q == at {
          assert !(at <= Parent(q));
        } else {
          var r := q[|at|..];
          assert q == at + r && Parent(q) == at + Parent(r);
        }
      } else {
        assert Parent(q) in t && !(at <= Parent(q));
      }
    }
  }

  lemma SubtreeOfGraft(t: Tree, at: Path, s: Tree)
    requires Vacant(t, at)
    ensures Subtree(Graft(t, at, s), at) == s
  {
    var g := Graft(t, at, s);
    forall r ensures at + r in g <==> r in s {
      assert at <= at + r && (at + r)[|at|..] == r;
    }
    forall r | r in s ensures g[at + r] == s[r] {
      assert at <= at + r && (at + r)[|at|..] == r;
    }
  }

  lemma GraftThenCut(t: Tree, at: Path, s: Tree)
    requires Vacant(t, at)
    ensures Subtree(Graft(t, at, s), at) == s
    ensures Without(Graft(t, at, s), at) == t
  {
    SubtreeOfGraft(t, at, s);
  }

  lemma CutThenGraft(t: Tree, p: Path)
    ensures Graft(Without(t, p), p, Subtree(t, p)) == t
  {
    forall q | p <= q ensures q in t <==> q[|p|..] in Subtree(t, p) {
      assert q == p + q[|p|..];
    }
    forall q | q in t && p <= q ensures Subtree(t, p)[q[|p|..]] == t[q] {
      assert q == p + q[|p|..];
    }
  }

  lemma PrefixThrough(a: Path, b: Path, c: Path)
    ensures a <= b && b <= c ==> a <= c
  {
  }

  lemma PrefixesCompare(a: Path, b: Path, q: Path)
    ensures a <= q && b <= q ==> a <= b || b <= a
  {
    if a <= q && b <= q {
      assert a == q[..|a|] && b == q[..|b|];
    }
  }

  lemma PrefixOfChild(p: Path, dir: Path, n: Name)
    ensures p <= dir + [n] <==> p <= dir || p == dir + [n]
  {
    if p <= dir + [n] && |p| <= |dir| {
      assert p == (dir + [n])[..|p|] == dir[..|p|];
    }
  }

  /** Cutting a subtree leaves any other subtree that is apart from it. */
  lemma SubtreeOutside(t: Tree, cut: Path, p: Path)
    requires !(cut <= p) && !(p <= cut)
    ensures Subtree(Without(t, cut), p) == Subtree(t, p)
  {
    forall r ensures !(cut <= p + r) {
      assert p <= p + r;
      PrefixesCompare(cut, p, p + r);
    }
  }

  lemma GraftElsewhere(t: Tree, at: Path, s: Tree, p: Path)
    requires !(at <= p) && !(p <= at)
    ensures Subtree(Graft(t, at, s), p) == Subtree(t, p)
  {
    forall r ensures !(at <= p + r) {
      assert p <= p + r;
      PrefixesCompare(at, p, p + r);
    }
  }

  // ---------------------------------------------------------------------------------------------
  // Counting what a tree holds
  // ---------------------------------------------------------------------------------------------

  ghost function Holding(t: Tree, v: Node): set<Path> {
    set p | p in t && t[p] == v
  }

  /** How many entries of t are equal to v; over all v this is the multiset of file contents. */
  ghost function Count(t: Tree, v: Node): nat {
    |Holding(t, v)|
  }

  lemma {:induction false} ShiftKeepsSize(s: set<Path>, at: Path)
    ensures |set r | r in s :: at + r| == |s|
  {
    var shifted := set r | r in s :: at + r;
    if s == {} {
      assert shifted == {};
    } else {
      var x :| x in s;
      ShiftKeepsSize(s - {x}, at);
      var rest := set r | r in s - {x} :: at + r;
      assert at + x !in rest by {
        assert forall r :: (at + r)[|at|..] == r;
      }
      assert shifted == rest + {at + x};
    }
  }

  lemma HoldingSplit(t: Tree, p: Path, v: Node)
    ensures var below := set r | r in Holding(Subtree(t, p), v) :: p + r;
            && Holding(t, v) == Holding(Without(t, p), v) + below
            && Holding(Without(t, p), v) !! below
  {
    var below := set r | r in Holding(Subtree(t, p), v) :: p + r;
    forall q | q in Holding(t, v) && p <= q ensures q in below {
      assert q == p + q[|p|..];
      assert q[|p|..] in Holding(Subtree(t, p), v);
    }
    forall q | q in below ensures q in Holding(t, v) && p <= q {
      var r :| r in Holding(Subtree(t, p), v) && q == p + r;
    }
  }

  lemma CountSplit(t: Tree, p: Path, v: Node)
    ensures Count(t, v) == Count(Without(t, p), v) + Count(Subtree(t, p), v)
  {
    HoldingSplit(t, p, v);
    ShiftKeepsSize(Holding(Subtree(t, p), v), p);
  }

  lemma CountGraft(t: Tree, at: Path, s: Tree, v: Node)
    requires Vacant(t, at)
    ensures Count(Graft(t, at, s), v) == Count(t, v) + Count(s, v)
  {
    GraftThenCut(t, at, s);
    CountSplit(Graft(t, at, s), at, v);
  }
}
