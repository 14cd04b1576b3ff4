/**
 The search: a walk that prunes directories, filters entries and stops when it has enough of them.
 Lower-casing is a parameter.  The deadline and the errors of single entries are not modelled.
 */
module Search {
  import opened Wrappers
  import opened Names
  import opened FileTree
  import opened Disks
  import opened Copying
  import opened Paging
  import opened Resolving
  import Paths

  // ---------------------------------------------------------------------------------------------
  // The full walk
  // ---------------------------------------------------------------------------------------------

  ghost predicate AreChildren(t: Tree, dir: Path, names: seq<Name>) {
    dir in t && forall n :: n in names ==> dir + [n] in t
  }

  /** Every entry at p and below, a directory before what is in it, siblings in increasing order. */
  ghost function Walk(t: Tree, p: Path): seq<Path>
    requires p in t
    decreases Below(t, p), 1, 0
  {
    [p] + if t[p] == Dir then WalkChildren(t, p, Listing(ChildNames(t, p))) else []
  }

  ghost function WalkChildren(t: Tree, dir: Path, names: seq<Name>): seq<Path>
    requires AreChildren(t, dir, names)
    decreases Below(t, dir), 0, |names|
  {
    if names == [] then []
    else
      ChildBelow(t, dir, names[0]);
      Walk(t, dir + [names[0]]) + WalkChildren(t, dir, names[1..])
  }

  /** The order of paths, segment by segment, a directory before what is in it. */
  predicate PathLess(a: Path, b: Path) {
    if b == [] then false
    else if a == [] then true
    else if a[0] == b[0] then PathLess(a[1..], b[1..])
    else Less(a[0], b[0])
  }

  /** a is a proper beginning of b, or has the smaller name where they part. */
  ghost predicate GoesBefore(a: Path, b: Path) {
    exists i :: 0 <= i <= |a| && i < |b| && a[..i] == b[..i] && (i < |a| ==> a[i] != b[i] && Less(a[i], b[i]))
  }

  lemma {:induction false} PathLessIsLexicographic(a: Path, b: Path)
    ensures PathLess(a, b) <==> GoesBefore(a, b)
  {
    if a == [] {
      assert b != [] ==> a[..0] == b[..0];
    } else if b != [] && a[0] == b[0] {
      PathLessIsLexicographic(a[1..], b[1..]);
      PartsLater(a, b);
    } else if b != [] {
      assert a[..0] == b[..0];
      if i :| 0 <= i <= |a| && i < |b| && a[..i] == b[..i] && (i < |a| ==> a[i] != b[i] && Less(a[i], b[i])) {
        assert i > 0 ==> a[..i][0] == b[..i][0];
      }
    }
  }

  lemma PartsLater(a: Path, b: Path)
    requires a != [] && b != [] && a[0] == b[0]
    ensures GoesBefore(a, b) <==> GoesBefore(a[1..], b[1..])
  {
    var c, d := a[1..], b[1..];
    if i :| 0 <= i <= |c| && i < |d| && c[..i] == d[..i] && (i < |c| ==> c[i] != d[i] && Less(c[i], d[i])) {
      assert a[..i + 1] == [a[0]] + c[..i] && b[..i + 1] == [b[0]] + d[..i];
      assert a[..i + 1] == b[..i + 1];
    }
    if i :| 0 <= i <= |a| && i < |b| && a[..i] == b[..i] && (i < |a| ==> a[i] != b[i] && Less(a[i], b[i])) {
      assert i > 0;
      assert c[..i - 1] == a[..i][1..] && d[..i - 1] == b[..i][1..];
      assert c[..i - 1] == d[..i - 1];
    }
  }

  ghost predicate InPathOrder(ps: seq<Path>) {
    forall i, j :: 0 <= i < j < |ps| ==> PathLess(ps[i], ps[j])
  }

  lemma {:induction false} PathLessWithin(dir: Path, a: Path, b: Path)
    ensures PathLess(dir + a, dir + b) <==> PathLess(a, b)
  {
    if dir == [] {
      assert dir + a == a && dir + b == b;
    } else {
      assert (dir + a)[1..] == dir[1..] + a && (dir + b)[1..] == dir[1..] + b;
      PathLessWithin(dir[1..], a, b);
    }
  }

  lemma SiblingsInOrder(dir: Path, m: Name, n: Name, p: Path, q: Path)
    requires Less(m, n) && dir + [m] <= p && dir + [n] <= q
    ensures PathLess(p, q)
  {
    var a, b := p[|dir|..], q[|dir|..];
    assert p == dir + a && q == dir + b;
    assert a[0] == m && b[0] == n;
    LessTotal(m, n);
    LessTotal(m, m);
    PathLessWithin(dir, a, b);
  }

  lemma {:induction false} WalkIsBelow(t: Tree, p: Path)
    requires p in t
    ensures forall q :: q in Walk(t, p) ==> q in t && p <= q
    decreases Below(t, p), 1, 0
  {
    if t[p] == Dir {
      WalkChildrenAreBelow(t, p, Listing(ChildNames(t, p)));
    }
  }

  lemma {:induction false} WalkChildrenAreBelow(t: Tree, dir: Path, names: seq<Name>)
    requires AreChildren(t, dir, names)
    ensures forall q :: q in WalkChildren(t, dir, names) ==>
              q in t && dir <= q && |q| > |dir| && q[|dir|] in names
    decreases Below(t, dir), 0, |names|
  {
    if names != [] {
      ChildBelow(t, dir, names[0]);
      WalkIsBelow(t, dir + [names[0]]);
      WalkChildrenAreBelow(t, dir, names[1..]);
    }
  }

  lemma {:induction false} WalkFinds(t: Tree, p: Path, q: Path)
    requires Rooted(t) && p in t && q in t && p <= q
    ensures q in Walk(t, p)
    decreases Below(t, p), 1, 0
  {
    if p != q {
      AncestorIsDir(t, q, p);
      var n := q[|p|];
      assert p + [n] <= q;
      if p + [n] != q {
        AncestorIsDir(t, q, p + [n]);
      }
      WalkChildrenFind(t, p, Listing(ChildNames(t, p)), q);
    }
  }

  lemma {:induction false} WalkChildrenFind(t: Tree, dir: Path, names: seq<Name>, q: Path)
    requires Rooted(t) && AreChildren(t, dir, names)
    requires q in t && dir <= q && |q| > |dir| && q[|dir|] in names
    ensures q in WalkChildren(t, dir, names)
    decreases Below(t, dir), 0, |names|
  {
    ChildBelow(t, dir, names[0]);
    if q[|dir|] == names[0] {
      assert dir + [names[0]] <= q;
      WalkFinds(t, dir + [names[0]], q);
    } else {
      WalkChildrenFind(t, dir, names[1..], q);
    }
  }

  /** The full walk visits exactly the entries at p and below. */
  lemma WalkVisitsAll(t: Tree, p: Path, q: Path)
    requires Rooted(t) && p in t
    ensures q in Walk(t, p) <==> q in t && p <= q
  {
    WalkIsBelow(t, p);
    if q in t && p <= q {
      WalkFinds(t, p, q);
    }
  }

  lemma JoinedInOrder(a: seq<Path>, b: seq<Path>)
    requires InPathOrder(a) && InPathOrder(b)
    requires forall p, q :: p in a && q in b ==> PathLess(p, q)
    ensures InPathOrder(a + b)
  {
  }

  /** The full walk goes in path order, so it visits no entry twice. */
  lemma {:induction false} WalkIsInOrder(t: Tree, p: Path)
    requires p in t
    ensures InPathOrder(Walk(t, p))
    decreases Below(t, p), 1, 0
  {
    if t[p] == Dir {
      var names := Listing(ChildNames(t, p));
      WalkChildrenAreInOrder(t, p, names);
      WalkChildrenAreBelow(t, p, names);
      forall q | q in WalkChildren(t, p, names) ensures PathLess(p, q) {
        assert p + [] == p && q == p + q[|p|..];
        PathLessWithin(p, [], q[|p|..]);
      }
      JoinedInOrder([p], WalkChildren(t, p, names));
    }
  }

  lemma {:induction false} WalkChildrenAreInOrder(t: Tree, dir: Path, names: seq<Name>)
    requires AreChildren(t, dir, names) && Increasing(names)
    ensures InPathOrder(WalkChildren(t, dir, names))
    decreases Below(t, dir), 0, |names|
  {
    if names != [] {
      var first, rest := Walk(t, dir + [names[0]]), WalkChildren(t, dir, names[1..]);
      ChildBelow(t, dir, names[0]);
      WalkIsInOrder(t, dir + [names[0]]);
      WalkChildrenAreInOrder(t, dir, names[1..]);
      WalkIsBelow(t, dir + [names[0]]);
      WalkChildrenAreBelow(t, dir, names[1..]);
      forall p, q | p in first && q in rest ensures PathLess(p, q) {
        assert dir + [q[|dir|]] <= q;
        SiblingsInOrder(dir, names[0], q[|dir|], p, q);
      }
      JoinedInOrder(first, rest);
    }
  }

  // ---------------------------------------------------------------------------------------------
  // What the search looks for
  // ---------------------------------------------------------------------------------------------

  datatype Filter = Filter(text: string, kind: string, ext: string)

  /** Where a search starts, how deep it goes, and what it looks for. */
  datatype Scope = Scope(start: Path, maxDepth: nat, filter: Filter, lower: string -> string)

  datatype Item = Item(path: Path, isDir: bool, size: nat, ext: string)

  predicate Matches(f: Filter, name: Name, isDir: bool, lower: string -> string) {
    && (f.text != "" ==> Contains(lower(name), f.text))
    && (f.kind == "file" ==> !isDir)
    && (f.kind == "dir" ==> isDir)
    && (f.ext != "" ==> lower(Ext(name)) == f.ext)
  }

  /** p may be shown: not too deep below start, and no internal name on the way from there. */
  predicate InReach(sc: Scope, p: Path) {
    && sc.start <= p
    && 0 < |p| - |sc.start| <= sc.maxDepth
    && forall i :: |sc.start| <= i < |p| ==> !Paths.IsInternal(p[i])
  }

  /** p is an entry the search is after. */
  ghost predicate IsHit(t: Tree, sc: Scope, p: Path) {
    && p in t && !t[p].Link?
    && InReach(sc, p)
    && Matches(sc.filter, Last(p), t[p] == Dir, sc.lower)
  }

  function ItemOf(p: Path, node: Node, lower: string -> string): Item
    requires p != [] && !node.Link?
  {
    if node.File? then Item(p, false, |node.data|, lower(Ext(Last(p)))) else Item(p, true, 0, "")
  }

  // What that means in the words of the client.

  /** The entry is a file or a directory below start, within depth, with no internal name on the way. */
  ghost predicate Reachable(t: Tree, start: Path, maxDepth: nat, p: Path) {
    && p in t && (t[p].File? || t[p].Dir?)
    && start <= p && 0 < |p| - |start| <= maxDepth
    && forall i :: |start| <= i < |p| ==> Paths.TrimSpace(p[i]) !in {".trash", ".thumbnails", ".chunks"}
  }

  /** It has the words the client asks for: in its name, as its kind, and as its extension. */
  ghost predicate Fits(t: Tree, query: string, kind: string, ext: string, lower: string -> string, p: Path)
    requires p in t && p != []
  {
    var part, sort, suffix := lower(Paths.TrimSpace(query)), lower(Paths.TrimSpace(kind)), lower(Paths.TrimSpace(ext));
    && HasPart(lower(Last(p)), part)
    && (sort == "file" ==> t[p].File?) && (sort == "dir" ==> t[p].Dir?)
    && (suffix != "" ==> lower(Ext(Last(p))) == if suffix[0] == '.' then suffix else "." + suffix)
  }

  ghost predicate Wanted(t: Tree, start: Path, maxDepth: nat, query: string, kind: string, ext: string,
                         lower: string -> string, p: Path)
  {
    Reachable(t, start, maxDepth, p) && Fits(t, query, kind, ext, lower, p)
  }

  /** The item says of an entry what it is. */
  ghost predicate Shows(t: Tree, x: Item, lower: string -> string) {
    && x.path in t && x.path != []
    && match t[x.path]
       case Dir => x.isDir && x.size == 0 && x.ext == ""
       case File(data) => !x.isDir && x.size == |data| && x.ext == lower(Ext(Last(x.path)))
       case Link(_) => false
  }

  /** The filter that these words make. */
  ghost predicate FilterMeans(f: Filter, query: string, kind: string, ext: string, lower: string -> string) {
    var suffix := lower(Paths.TrimSpace(ext));
    && f.text == lower(Paths.TrimSpace(query)) && f.kind == lower(Paths.TrimSpace(kind))
    && f.ext == if suffix == "" || suffix[0] == '.' then suffix else "." + suffix
  }

  lemma KindAndSuffix(sc: Scope, query: string, kind: string, ext: string, name: Name, node: Node)
    requires FilterMeans(sc.filter, query, kind, ext, sc.lower) && !node.Link?
    ensures var sort, suffix := sc.lower(Paths.TrimSpace(kind)), sc.lower(Paths.TrimSpace(ext));
            Matches(sc.filter, name, node == Dir, sc.lower) <==>
              && (sc.filter.text != "" ==> Contains(sc.lower(name), sc.filter.text))
              && (sort == "file" ==> node.File?) && (sort == "dir" ==> node.Dir?)
              && (suffix != "" ==> sc.lower(Ext(name)) == if suffix[0] == '.' then suffix else "." + suffix)
  {
  }

  lemma ReachIsReachable(t: Tree, sc: Scope, p: Path)
    requires p in t && !t[p].Link?
    ensures InReach(sc, p) <==> Reachable(t, sc.start, sc.maxDepth, p)
  {
  }

  lemma HitIsWanted(t: Tree, sc: Scope, query: string, kind: string, ext: string, p: Path)
    requires FilterMeans(sc.filter, query, kind, ext, sc.lower)
    ensures IsHit(t, sc, p) <==> Wanted(t, sc.start, sc.maxDepth, query, kind, ext, sc.lower, p)
  {
    if p in t && p != [] && !t[p].Link? {
      ReachIsReachable(t, sc, p);
      ContainsIsHasPart(sc.lower(Last(p)), sc.filter.text);
      assert sc.filter.text == "" ==> PartAt(sc.lower(Last(p)), sc.filter.text, 0);
      KindAndSuffix(sc, query, kind, ext, Last(p), t[p]);
    }
  }

  /** The items of the hits among ps, in the order of ps. */
  ghost function HitsAmong(t: Tree, sc: Scope, ps: seq<Path>)
    : seq<Item>
  {
    if ps == [] then []
    else
      (if IsHit(t, sc, ps[0]) then [ItemOf(ps[0], t[ps[0]], sc.lower)] else [])
      + HitsAmong(t, sc, ps[1..])
  }

  function FirstOf(items: seq<Item>, max: nat): seq<Item> {
    if |items| <= max then items else items[..max]
  }

  lemma {:induction false} HitsConcat(t: Tree, sc: Scope,
                                       a: seq<Path>, b: seq<Path>)
    ensures HitsAmong(t, sc, a + b) ==
            HitsAmong(t, sc, a) + HitsAmong(t, sc, b)
  {
    if a == [] {
      assert a + b == b;
    } else {
      assert (a + b)[1..] == a[1..] + b;
      HitsConcat(t, sc, a[1..], b);
    }
  }

  lemma {:induction false} NoHits(t: Tree, sc: Scope,
                                     ps: seq<Path>)
    requires forall p :: p in ps ==> !IsHit(t, sc, p)
    ensures HitsAmong(t, sc, ps) == []
  {
    if ps != [] {
      NoHits(t, sc, ps[1..]);
    }
  }

  /** Each hit among ps gives an item, and nothing else does. */
  lemma {:induction false} HitsAreExact(t: Tree, sc: Scope,
                                      ps: seq<Path>, p: Path)
    ensures (exists x :: x in HitsAmong(t, sc, ps) && x.path == p)
            <==> p in ps && IsHit(t, sc, p)
    ensures forall x :: x in HitsAmong(t, sc, ps) && x.path == p ==>
              p != [] && p in t && !t[p].Link? && x == ItemOf(p, t[p], sc.lower)
  {
    if ps != [] {
      HitsAreExact(t, sc, ps[1..], p);
      var rest := HitsAmong(t, sc, ps[1..]);
      if IsHit(t, sc, ps[0]) {
        var x := ItemOf(ps[0], t[ps[0]], sc.lower);
        assert HitsAmong(t, sc, ps) == [x] + rest;
        assert x in [x] + rest;
        assert forall y :: y in rest ==> y in [x] + rest;
      }
    }
  }

  ghost predicate ItemsInOrder(items: seq<Item>) {
    forall i, j :: 0 <= i < j < |items| ==> PathLess(items[i].path, items[j].path)
  }

  lemma ItemFirst(x: Item, rest: seq<Item>)
    requires ItemsInOrder(rest) && forall y :: y in rest ==> PathLess(x.path, y.path)
    ensures ItemsInOrder([x] + rest)
  {
  }

  /** Among paths in order, the items are in order. */
  lemma {:induction false} HitsInOrder(t: Tree, sc: Scope, ps: seq<Path>)
    requires InPathOrder(ps)
    ensures ItemsInOrder(HitsAmong(t, sc, ps))
  {
    if ps != [] {
      HitsInOrder(t, sc, ps[1..]);
      var rest := HitsAmong(t, sc, ps[1..]);
      if IsHit(t, sc, ps[0]) {
        forall x | x in rest ensures PathLess(ps[0], x.path) {
          HitsAreExact(t, sc, ps[1..], x.path);
        }
        ItemFirst(ItemOf(ps[0], t[ps[0]], sc.lower), rest);
      } else {
        assert [] + rest == rest;
      }
    }
  }

  /** A directory out of reach has no hit below it. */
  lemma PruningLosesNothing(t: Tree, sc: Scope, p: Path)
    requires p in t && sc.start <= p && p != sc.start && !InReach(sc, p)
    ensures HitsAmong(t, sc, Walk(t, p)) == []
  {
    WalkIsBelow(t, p);
    forall q | q in Walk(t, p) ensures !InReach(sc, q) {
      if |p| - |sc.start| <= sc.maxDepth {
        var i :| |sc.start| <= i < |p| && Paths.IsInternal(p[i]);
        assert q[i] == p[i];
      }
    }
    NoHits(t, sc, Walk(t, p));
  }

  // ---------------------------------------------------------------------------------------------
  // The pruned walk
  // ---------------------------------------------------------------------------------------------

  datatype Outcome = Continue | SkipDir | Stop

  /** One more segment in reach: its name is not internal and it is not too deep. */
  lemma ReachStep(sc: Scope, p: Path)
    requires p != [] && Descended(sc, Parent(p))
    ensures InReach(sc, p) <==> !Paths.IsInternal(Last(p)) && |p| - |sc.start| <= sc.maxDepth
  {
    assert forall i :: 0 <= i < |p| - 1 ==> Parent(p)[i] == p[i];
  }

  /** The walk goes into dir. */
  predicate Descended(sc: Scope, dir: Path) {
    dir == sc.start || InReach(sc, dir)
  }

  predicate Reached(sc: Scope, p: Path) {
    p == sc.start || (p != [] && Descended(sc, Parent(p)))
  }

  lemma HitsOfOne(t: Tree, sc: Scope, p: Path)
    ensures HitsAmong(t, sc, [p]) == if IsHit(t, sc, p) then [ItemOf(p, t[p], sc.lower)] else []
  {
    assert [p][1..] == [];
    assert HitsAmong(t, sc, []) == [];
  }

  ghost function Inside(t: Tree, dir: Path): seq<Path>
    requires dir in t
  {
    WalkChildren(t, dir, Listing(ChildNames(t, dir)))
  }

  lemma WalkSplits(t: Tree, sc: Scope, p: Path)
    requires p in t
    ensures t[p] == Dir ==> HitsAmong(t, sc, Walk(t, p)) == HitsAmong(t, sc, [p]) + HitsAmong(t, sc, Inside(t, p))
    ensures t[p] != Dir ==> HitsAmong(t, sc, Walk(t, p)) == HitsAmong(t, sc, [p])
  {
    if t[p] == Dir {
      HitsConcat(t, sc, [p], Inside(t, p));
    } else {
      assert Walk(t, p) == [p];
    }
  }

  lemma NamesSplit(t: Tree, sc: Scope, dir: Path, names: seq<Name>)
    requires AreChildren(t, dir, names) && names != []
    ensures HitsAmong(t, sc, WalkChildren(t, dir, names)) ==
            HitsAmong(t, sc, Walk(t, dir + [names[0]])) + HitsAmong(t, sc, WalkChildren(t, dir, names[1..]))
  {
    HitsConcat(t, sc, Walk(t, dir + [names[0]]), WalkChildren(t, dir, names[1..]));
  }

  /** What a walk does to the list of items: it adds all the hits, or as many as there is room for. */
  ghost predicate Adds(before: seq<Item>, hits: seq<Item>, after: seq<Item>, stopped: bool, max: nat) {
    if stopped then |after| == max && after <= before + hits
    else |after| < max && after == before + hits
  }

  lemma AddsBoth(before: seq<Item>, first: seq<Item>, middle: seq<Item>, second: seq<Item>, after: seq<Item>,
                 stopped: bool, max: nat)
    requires Adds(before, first, middle, false, max) && Adds(middle, second, after, stopped, max)
    ensures Adds(before, first + second, after, stopped, max)
  {
    assert before + first + second == before + (first + second);
  }

  lemma AddsFirst(before: seq<Item>, first: seq<Item>, second: seq<Item>, after: seq<Item>, max: nat)
    requires Adds(before, first, after, true, max)
    ensures Adds(before, first + second, after, true, max)
  {
    assert before + first + second == before + (first + second);
  }

  lemma AddsToNone(hits: seq<Item>, after: seq<Item>, stopped: bool, max: nat)
    requires Adds([], hits, after, stopped, max)
    ensures after == FirstOf(hits, max)
  {
    assert [] + hits == hits;
    if stopped {
      assert after == hits[..max];
      assert hits[..|hits|] == hits;
    }
  }

  /** After i of the names, done holds their hits. */
  ghost predicate DoneUpTo(t: Tree, sc: Scope, dir: Path, names: seq<Name>, i: nat, done: seq<Item>)
    requires AreChildren(t, dir, names) && i <= |names|
  {
    done + HitsAmong(t, sc, WalkChildren(t, dir, names[i..])) == HitsAmong(t, sc, WalkChildren(t, dir, names))
  }

  lemma NextName(t: Tree, sc: Scope, dir: Path, names: seq<Name>, i: nat, done: seq<Item>)
    requires AreChildren(t, dir, names) && i < |names| && DoneUpTo(t, sc, dir, names, i, done)
    ensures Descended(sc, dir) ==> Reached(sc, dir + [names[i]])
    ensures dir + [names[i]] in t && dir <= dir + [names[i]] && Below(t, dir + [names[i]]) < Below(t, dir)
    ensures var here := HitsAmong(t, sc, Walk(t, dir + [names[i]]));
            && DoneUpTo(t, sc, dir, names, i + 1, done + here)
            && HitsAmong(t, sc, WalkChildren(t, dir, names)) ==
               done + here + HitsAmong(t, sc, WalkChildren(t, dir, names[i + 1..]))
  {
    assert names[i] in names;
    ChildBelow(t, dir, names[i]);
    assert Parent(dir + [names[i]]) == dir;
    assert names[i..][1..] == names[i + 1..];
    NamesSplit(t, sc, dir, names[i..]);
    Reassociate(done, HitsAmong(t, sc, Walk(t, dir + [names[i]])),
                HitsAmong(t, sc, WalkChildren(t, dir, names[i + 1..])));
  }

  lemma Reassociate(a: seq<Item>, b: seq<Item>, c: seq<Item>)
    ensures a + (b + c) == a + b + c
  {
  }

  lemma NamesDone(t: Tree, sc: Scope, dir: Path, names: seq<Name>, done: seq<Item>)
    requires AreChildren(t, dir, names)
    ensures DoneUpTo(t, sc, dir, names, |names|, done) ==> done == HitsAmong(t, sc, WalkChildren(t, dir, names))
    ensures DoneUpTo(t, sc, dir, names, 0, [])
  {
    assert names[|names|..] == [] && names[0..] == names;
    assert WalkChildren(t, dir, []) == [] && HitsAmong(t, sc, []) == [];
    assert done + [] == done;
  }

  lemma OneMoreName(t: Tree, sc: Scope, dir: Path, names: seq<Name>, i: nat, done: seq<Item>,
                    before: seq<Item>, middle: seq<Item>, after: seq<Item>, stopped: bool, max: nat)
    requires AreChildren(t, dir, names) && i < |names| && DoneUpTo(t, sc, dir, names, i, done)
    requires dir + [names[i]] in t && Adds(before, done, middle, false, max)
    requires Adds(middle, HitsAmong(t, sc, Walk(t, dir + [names[i]])), after, stopped, max)
    ensures var here := HitsAmong(t, sc, Walk(t, dir + [names[i]]));
            && Adds(before, done + here, after, stopped, max)
            && DoneUpTo(t, sc, dir, names, i + 1, done + here)
            && (stopped ==> Adds(before, HitsAmong(t, sc, WalkChildren(t, dir, names)), after, true, max))
  {
    var here := HitsAmong(t, sc, Walk(t, dir + [names[i]]));
    NextName(t, sc, dir, names, i, done);
    AddsBoth(before, done, middle, here, after, stopped, max);
    if stopped {
      AddsFirst(before, done + here, HitsAmong(t, sc, WalkChildren(t, dir, names[i + 1..])), after, max);
    }
  }

  /** The callback of the walk with the variables it captures. */
  class SearchWalk {
    const disk: Disk
    const scope: Scope
    const maxResults: nat
    var items: seq<Item>

    constructor (disk: Disk, scope: Scope, maxResults: nat)
      ensures this.disk == disk && this.scope == scope && this.maxResults == maxResults && items == []
    {
      this.disk, this.scope, this.maxResults, items := disk, scope, maxResults, [];
    }

    /** One visit; the list grows by the entry when that is a hit. */
    method Visit(p: Path) returns (outcome: Outcome)
      requires p in disk.tree && scope.start <= p && Reached(scope, p) && |items| < maxResults
      modifies this`items
      ensures Adds(old(items), HitsAmong(disk.tree, scope, [p]), items, outcome == Stop, maxResults)
      ensures outcome == SkipDir ==> items == old(items) && p != scope.start && !InReach(scope, p)
      ensures outcome == Continue && disk.tree[p] == Dir ==> Descended(scope, p)
    {
      var node := disk.tree[p];
      HitsOfOne(disk.tree, scope, p);
      if p == scope.start {
        return Continue;
      }
      if node.Link? {
        return Continue;
      }
      var name := Last(p);
      ReachStep(scope, p);
      if Paths.IsInternal(name) {
        return if node == Dir then SkipDir else Continue;
      }
      if |p| - |scope.start| > scope.maxDepth {
        return if node == Dir then SkipDir else Continue;
      }
      if scope.filter.text != "" {
        if !Contains(scope.lower(name), scope.filter.text) {
          return Continue;
        }
      }
      if scope.filter.kind == "file" && node == Dir {
        return Continue;
      }
      if scope.filter.kind == "dir" && node != Dir {
        return Continue;
      }
      if scope.filter.ext != "" && scope.filter.ext != scope.lower(Ext(name)) {
        return Continue;
      }
      items := items + [ItemOf(p, node, scope.lower)];
      return if |items| >= maxResults then Stop else Continue;
    }

    /** The walk from p; it ends early as soon as a visit says so. */
    method WalkDir(p: Path) returns (stopped: bool)
      requires p in disk.tree && scope.start <= p && Reached(scope, p) && |items| < maxResults
      modifies this`items
      ensures Adds(old(items), HitsAmong(disk.tree, scope, Walk(disk.tree, p)), items, stopped, maxResults)
      decreases Below(disk.tree, p), 1
    {
      var outcome := Visit(p);
      ghost var here := HitsAmong(disk.tree, scope, [p]);
      ghost var middle := items;
      if outcome == SkipDir {
        PruningLosesNothing(disk.tree, scope, p);
        return false;
      }
      WalkSplits(disk.tree, scope, p);
      if outcome == Stop {
        AddsFirst(old(items), here, HitsAmong(disk.tree, scope, Inside(disk.tree, p)), items, maxResults);
        return true;
      }
      if disk.tree[p] != Dir {
        return false;
      }
      stopped := WalkNames(p);
      AddsBoth(old(items), here, middle, HitsAmong(disk.tree, scope, Inside(disk.tree, p)), items,
               stopped, maxResults);
    }

    /** The entries of a directory. */
    method WalkNames(dir: Path) returns (stopped: bool)
      requires dir in disk.tree && scope.start <= dir && Descended(scope, dir) && |items| < maxResults
      modifies this`items
      ensures Adds(old(items), HitsAmong(disk.tree, scope, Inside(disk.tree, dir)), items, stopped, maxResults)
      decreases Below(disk.tree, dir), 0, 1
    {
      var names := disk.ReadDir(dir);
      IncreasingIsUnique(names, Listing(ChildNames(disk.tree, dir)));
      stopped := WalkEach(dir, names);
    }

    /** The loop over them. */
    method WalkEach(dir: Path, names: seq<Name>) returns (stopped: bool)
      requires dir in disk.tree && scope.start <= dir && Descended(scope, dir) && |items| < maxResults
      requires AreChildren(disk.tree, dir, names)
      modifies this`items
      ensures Adds(old(items), HitsAmong(disk.tree, scope, WalkChildren(disk.tree, dir, names)), items, stopped,
                   maxResults)
      decreases Below(disk.tree, dir), 0, 0
    {
      ghost var done: seq<Item> := [];
      NamesDone(disk.tree, scope, dir, names, done);
      assert items + done == items;
      var i := 0;
      while i < |names|
        invariant 0 <= i <= |names|
        invariant Adds(old(items), done, items, false, maxResults)
        invariant DoneUpTo(disk.tree, scope, dir, names, i, done)
      {
        NextName(disk.tree, scope, dir, names, i, done);
        ghost var middle := items;
        stopped := WalkDir(dir + [names[i]]);
        OneMoreName(disk.tree, scope, dir, names, i, done, old(items), middle, items, stopped, maxResults);
        if stopped {
          return;
        }
        done := done + HitsAmong(disk.tree, scope, Walk(disk.tree, dir + [names[i]]));
        i := i + 1;
      }
      NamesDone(disk.tree, scope, dir, names, done);
      stopped := false;
    }
  }

  // ---------------------------------------------------------------------------------------------
  // The whole search
  // ---------------------------------------------------------------------------------------------

  const DEFAULT_LIMIT: nat := 20

  /** What the result is sorted by. */
  function SortKey(x: Item, lower: string -> string): string {
    if x.path == [] then lower("") else lower(Last(x.path))
  }

  /** Sorted by name in lower case; how ties lie is up to the sort. */
  ghost predicate IsSortedByName(items: seq<Item>, lower: string -> string) {
    forall i, j :: 0 <= i < j < |items| ==> !Less(SortKey(items[j], lower), SortKey(items[i], lower))
  }

  function InsertByName(x: Item, items: seq<Item>, lower: string -> string): (r: seq<Item>)
    ensures multiset(r) == multiset(items) + multiset{x}
  {
    if items == [] || Less(SortKey(x, lower), SortKey(items[0], lower)) then [x] + items
    else
      assert items == [items[0]] + items[1..];
      [items[0]] + InsertByName(x, items[1..], lower)
  }

  lemma {:induction false} InsertByNameSorts(x: Item, items: seq<Item>, lower: string -> string)
    requires IsSortedByName(items, lower)
    ensures IsSortedByName(InsertByName(x, items, lower), lower)
  {
    if items != [] {
      var first := SortKey(items[0], lower);
      LessTotal(SortKey(x, lower), first);
      if Less(SortKey(x, lower), first) {
        forall j | 0 <= j < |items| ensures !Less(SortKey(items[j], lower), SortKey(x, lower)) {
          if Less(SortKey(items[j], lower), SortKey(x, lower)) {
            LessTransitive(SortKey(items[j], lower), SortKey(x, lower), first);
            LessTotal(first, first);
          }
        }
      } else {
        var rest := InsertByName(x, items[1..], lower);
        InsertByNameSorts(x, items[1..], lower);
        forall y | y in rest ensures !Less(SortKey(y, lower), first) {
          assert y in multiset(rest);
          if y != x {
            assert y in multiset(items[1..]);
          }
        }
        FirstByName(items[0], rest, lower);
      }
    }
  }

  lemma FirstByName(x: Item, items: seq<Item>, lower: string -> string)
    requires IsSortedByName(items, lower) && forall y :: y in items ==> !Less(SortKey(y, lower), SortKey(x, lower))
    ensures IsSortedByName([x] + items, lower)
  {
  }

  /** Some sort by name; only that it is one is promised. */
  method SortByName(items: seq<Item>, lower: string -> string) returns (sorted: seq<Item>)
    ensures IsSortedByName(sorted, lower) && multiset(sorted) == multiset(items) && |sorted| == |items|
  {
    sorted := [];
    var i := 0;
    while i < |items|
      invariant 0 <= i <= |items|
      invariant IsSortedByName(sorted, lower) && multiset(sorted) == multiset(items[..i])
    {
      assert items[..i + 1] == items[..i] + [items[i]];
      InsertByNameSorts(items[i], sorted, lower);
      sorted := InsertByName(items[i], sorted, lower);
      i := i + 1;
    }
    assert items[..|items|] == items;
    assert |multiset(sorted)| == |multiset(items)|;
  }

  /** page is a page of some arrangement of the items by name. */
  ghost predicate IsPageOf(items: seq<Item>, lower: string -> string, page: Page<Item>) {
    && page.page > 0 && page.limit > 0
    && page.total == |items| && page.totalPages == TotalPages(|items|, page.limit)
    && exists sorted :: IsArrangement(items, lower, sorted) && page.items == PageOf(sorted, page.page, page.limit)
  }

  ghost predicate IsArrangement(items: seq<Item>, lower: string -> string, sorted: seq<Item>) {
    IsSortedByName(sorted, lower) && multiset(sorted) == multiset(items)
  }

  /** The entries the client wants. */
  ghost function WantedIn(t: Tree, start: Path, maxDepth: nat, query: string, kind: string, ext: string,
                          lower: string -> string): set<Path> {
    set p | p in t && Wanted(t, start, maxDepth, query, kind, ext, lower, p)
  }

  lemma {:induction false} PathsAreCounted(items: seq<Item>)
    requires ItemsInOrder(items)
    ensures |set x | x in items :: x.path| == |items|
  {
    if items != [] {
      var n := |items| - 1;
      PathsAreCounted(items[..n]);
      var before := set x | x in items[..n] :: x.path;
      assert items == items[..n] + [items[n]];
      assert (set x | x in items :: x.path) == before + {items[n].path};
      forall x | x in items[..n] ensures x.path != items[n].path {
        PathLessIsStrict(items[n].path);
      }
    }
  }

  lemma {:induction false} PathLessIsStrict(p: Path)
    ensures !PathLess(p, p)
  {
    if p != [] {
      PathLessIsStrict(p[1..]);
    }
  }

  /** All the hits of a walk: they are the entries the client wants, each once, shown as they are. */
  lemma HitsAreWanted(t: Tree, sc: Scope, query: string, kind: string, ext: string)
    requires Rooted(t) && sc.start in t && FilterMeans(sc.filter, query, kind, ext, sc.lower)
    ensures var all := HitsAmong(t, sc, Walk(t, sc.start));
            var wanted := WantedIn(t, sc.start, sc.maxDepth, query, kind, ext, sc.lower);
            && |all| == |wanted| && ItemsInOrder(all)
            && forall x :: x in all ==> x.path in wanted && Shows(t, x, sc.lower)
  {
    var all := HitsAmong(t, sc, Walk(t, sc.start));
    var wanted := WantedIn(t, sc.start, sc.maxDepth, query, kind, ext, sc.lower);
    WalkIsInOrder(t, sc.start);
    HitsInOrder(t, sc, Walk(t, sc.start));
    forall p ensures (exists x :: x in all && x.path == p) <==> p in wanted {
      HitsAreExact(t, sc, Walk(t, sc.start), p);
      WalkVisitsAll(t, sc.start, p);
      HitIsWanted(t, sc, query, kind, ext, p);
    }
    forall x | x in all ensures Shows(t, x, sc.lower) {
      HitsAreExact(t, sc, Walk(t, sc.start), x.path);
    }
    PathsAreCounted(all);
    assert (set x | x in all :: x.path) == wanted;
  }

  datatype SearchError = BadRequest | StartNotFound | StartRefused | StartBlocked

  const MAX_RESULTS: nat := 1000

  /** The extension asked for, with its dot. */
  function Dotted(ext: string): string {
    if ext != "" && ext[0] != '.' then "." + ext else ext
  }

  /** A page of an arrangement of the first of all items shows some of these items. */
  lemma PageIsAmong(all: seq<Item>, items: seq<Item>, sorted: seq<Item>, page: Page<Item>)
    requires items == FirstOf(all, MAX_RESULTS) && multiset(sorted) == multiset(items)
    requires page.page > 0 && page.items == PageOf(sorted, page.page, page.limit)
    ensures forall x :: x in page.items ==> x in all
  {
    forall x | x in page.items ensures x in all {
      assert x in sorted;
      assert x in multiset(items);
    }
  }

  class SearchService {
    const disk: Disk
    const maxDepth: nat
    const lower: string -> string

    constructor (disk: Disk, maxDepth: int, lower: string -> string)
      ensures this.disk == disk && this.lower == lower
      ensures this.maxDepth == if maxDepth <= 0 then 10 else maxDepth
    {
      this.disk, this.lower := disk, lower;
      this.maxDepth := if maxDepth <= 0 then 10 else maxDepth;
    }

    /** What the caller asks for, trimmed and in lower case. */
    function FilterOf(query: string, kind: string, ext: string): Filter {
      Filter(lower(Paths.TrimSpace(query)), lower(Paths.TrimSpace(kind)), Dotted(lower(Paths.TrimSpace(ext))))
    }

    /** Where a search starts: at the root, unless the client says otherwise. */
    function StartOf(startPath: string): string {
      if Paths.TrimSpace(startPath) == "" then "/" else startPath
    }

    /** The first hits of the full walk from the place a client's path leads to, by name, one page of them. */
    method Search(query: string, startPath: string, kind: string, ext: string, page: int, limit: int)
      returns (r: Result<Page<Item>, SearchError>)
      ensures
        var filter := FilterOf(query, kind, ext);
        if Paths.TrimSpace(query) == "" && filter.kind == "" && filter.ext == "" then r == Err(BadRequest)
        else if Paths.IsInternalStoragePath(StartOf(startPath)) then r == Err(StartNotFound)
        else
          match Resolved(StartOf(startPath))
          case None => r == Err(StartRefused)
          case Some(start) =>
            if start !in disk.tree then r == Err(if Blocked(disk.tree, start) then StartBlocked else StartNotFound)
            else
              var hits := HitsAmong(disk.tree, Scope(start, maxDepth, filter, lower), Walk(disk.tree, start));
              && r.Ok? && r.value.page == PageNumber(page) && r.value.limit == PageLimit(limit, DEFAULT_LIMIT)
              && IsPageOf(FirstOf(hits, MAX_RESULTS), lower, r.value)
      ensures r.Ok? ==>
        var start := Resolved(StartOf(startPath)).value;
        var wanted := WantedIn(disk.tree, start, maxDepth, query, kind, ext, lower);
        && (Rooted(disk.tree) ==> r.value.total == if |wanted| < 1000 then |wanted| else 1000)
        && (Rooted(disk.tree) ==> forall x :: x in r.value.items ==> x.path in wanted && Shows(disk.tree, x, lower))
    {
      var filter := FilterOf(query, kind, ext);
      if Paths.TrimSpace(query) == "" && filter.kind == "" && filter.ext == "" {
        return Err(BadRequest);
      }
      if Paths.IsInternalStoragePath(StartOf(startPath)) {
        return Err(StartNotFound);
      }
      var resolved := Resolved(StartOf(startPath));
      if resolved.None? {
        return Err(StartRefused);
      }
      var start := resolved.value;
      var info := disk.Stat(start);
      match info {
        case Failed(NotExist) => return Err(StartNotFound);
        case Failed(_) => return Err(StartBlocked);
        case Found(_) =>
      }
      var walk := new SearchWalk(disk, Scope(start, maxDepth, filter, lower), MAX_RESULTS);
      var stopped := walk.WalkDir(start);
      AddsToNone(HitsAmong(disk.tree, walk.scope, Walk(disk.tree, start)), walk.items, stopped, MAX_RESULTS);
      var sorted := SortByName(walk.items, lower);
      var cut := CutPage(sorted, PageNumber(page), PageLimit(limit, DEFAULT_LIMIT));
      assert IsArrangement(walk.items, lower, sorted);
      if Rooted(disk.tree) {
        HitsAreWanted(disk.tree, walk.scope, query, kind, ext);
        PageIsAmong(HitsAmong(disk.tree, walk.scope, Walk(disk.tree, start)), walk.items, sorted, cut);
      }
      r := Ok(cut);
    }
  }

  /**
   The result of a search is the first thousand, in path order, of all the entries of the tree that lie
   in reach and match: each of them shows up unless the list is full, and nothing else does.
   */
  lemma SearchFindsTheFirstHits(t: Tree, sc: Scope, max: nat, p: Path)
    requires Rooted(t) && sc.start in t
    ensures var all := HitsAmong(t, sc, Walk(t, sc.start));
            var items := FirstOf(all, max);
            && ItemsInOrder(all)
            && ((exists x :: x in all && x.path == p) <==> IsHit(t, sc, p))
            && (forall x :: x in items && x.path == p ==> IsHit(t, sc, p) && x == ItemOf(p, t[p], sc.lower))
            && items <= all && |items| == if |all| <= max then |all| else max
  {
    WalkIsInOrder(t, sc.start);
    HitsInOrder(t, sc, Walk(t, sc.start));
    HitsAreExact(t, sc, Walk(t, sc.start), p);
    WalkVisitsAll(t, sc.start, p);
    var all := HitsAmong(t, sc, Walk(t, sc.start));
    assert forall x :: x in FirstOf(all, max) ==> x in all;
  }
}
