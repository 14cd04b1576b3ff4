/**
 Directory listings: the entries that are shown, in a stable order, one page at a time.  Lower-casing
 and the attributes that a tree does not hold are parameters; integers do not overflow.
 */
module Listings {
  import opened Wrappers
  import opened Names
  import opened FileTree
  import opened Disks
  import opened Paging
  import opened Resolving
  import Paths

  /** What the file system knows about an entry beside its content. */
  datatype Attributes = Attributes(modifiedAt: int, linkSize: nat)

  datatype FileItem = FileItem(name: Name, kind: string, size: int, modifiedAt: int)

  // ---------------------------------------------------------------------------------------------
  // The order
  // ---------------------------------------------------------------------------------------------

  datatype Order = Order(field: string, ascending: bool, lower: string -> string)

  function OrderOf(sortBy: string, order: string, lower: string -> string): Order {
    var field := lower(Paths.TrimSpace(sortBy));
    Order(if field == "" then "name" else field, lower(Paths.TrimSpace(order)) != "desc", lower)
  }

  function CompareNumbers(a: int, b: int): int {
    if a < b then -1 else if b < a then 1 else 0
  }

  function CompareStrings(a: string, b: string): int {
    if Less(a, b) then -1 else if Less(b, a) then 1 else 0
  }

  function Compare(o: Order, a: FileItem, b: FileItem): int {
    if o.field == "size" then CompareNumbers(a.size, b.size)
    else if o.field == "modified_at" then CompareNumbers(a.modifiedAt, b.modifiedAt)
    else if o.field == "type" then
      if a.kind == b.kind then CompareStrings(o.lower(a.name), o.lower(b.name)) else CompareStrings(a.kind, b.kind)
    else CompareStrings(o.lower(a.name), o.lower(b.name))
  }

  predicate Before(o: Order, a: FileItem, b: FileItem) {
    var cmp := Compare(o, a, b);
    cmp != 0 && if o.ascending then cmp < 0 else cmp > 0
  }

  predicate Tied(o: Order, a: FileItem, b: FileItem) {
    !Before(o, a, b) && !Before(o, b, a)
  }

  lemma StringsAreOrdered(a: string, b: string, c: string)
    ensures CompareStrings(a, b) == -CompareStrings(b, a)
    ensures CompareStrings(a, b) == 0 <==> a == b
    ensures CompareStrings(a, b) <= 0 && CompareStrings(b, c) <= 0 ==> CompareStrings(a, c) <= 0
  {
    LessTotal(a, b);
    LessTotal(b, c);
    LessTotal(a, c);
    if Less(a, b) && Less(b, c) {
      LessTransitive(a, b, c);
    }
  }

  /** The comparison is a total preorder in every field and both directions. */
  lemma CompareIsPreorder(o: Order, a: FileItem, b: FileItem, c: FileItem)
    ensures Compare(o, a, b) == -Compare(o, b, a)
    ensures Compare(o, a, b) <= 0 && Compare(o, b, c) <= 0 ==> Compare(o, a, c) <= 0
  {
    StringsAreOrdered(o.lower(a.name), o.lower(b.name), o.lower(c.name));
    StringsAreOrdered(a.kind, b.kind, c.kind);
    StringsAreOrdered(b.kind, c.kind, a.kind);
    StringsAreOrdered(c.kind, a.kind, b.kind);
  }

  lemma BeforeIsWeakOrder(o: Order, a: FileItem, b: FileItem, c: FileItem)
    ensures !(Before(o, a, b) && Before(o, b, a))
    ensures !Before(o, b, a) && !Before(o, c, b) ==> !Before(o, c, a)
    ensures Tied(o, a, b) ==> (Tied(o, a, c) <==> Tied(o, b, c))
  {
    CompareIsPreorder(o, a, b, c);
    CompareIsPreorder(o, b, a, c);
    CompareIsPreorder(o, c, b, a);
    CompareIsPreorder(o, b, c, a);
    CompareIsPreorder(o, a, c, b);
    CompareIsPreorder(o, c, a, b);
  }

  // ---------------------------------------------------------------------------------------------
  // Stable sorting
  // ---------------------------------------------------------------------------------------------

  ghost predicate IsSorted(o: Order, items: seq<FileItem>) {
    forall i, j :: 0 <= i < j < |items| ==> !Before(o, items[j], items[i])
  }

  /** The items of the list that tie with x, in their order. */
  function Ties(o: Order, items: seq<FileItem>, x: FileItem): seq<FileItem> {
    if items == [] then []
    else (if Tied(o, x, items[0]) then [items[0]] else []) + Ties(o, items[1..], x)
  }

  /** sorted holds the items of the list in order, those that tie in the order they had. */
  ghost predicate IsStableSort(o: Order, items: seq<FileItem>, sorted: seq<FileItem>) {
    IsSorted(o, sorted) && forall x :: Ties(o, sorted, x) == Ties(o, items, x)
  }

  /** x goes before the first item that does not come before it. */
  function InsertFirst(o: Order, x: FileItem, items: seq<FileItem>): (r: seq<FileItem>)
    ensures multiset(r) == multiset(items) + multiset{x}
  {
    if items == [] || !Before(o, items[0], x) then [x] + items
    else
      assert items == [items[0]] + items[1..];
      [items[0]] + InsertFirst(o, x, items[1..])
  }

  /** What sort.SliceStable leaves. */
  function StableSort(o: Order, items: seq<FileItem>): (sorted: seq<FileItem>)
    ensures multiset(sorted) == multiset(items)
  {
    if items == [] then []
    else
      assert items == [items[0]] + items[1..];
      InsertFirst(o, items[0], StableSort(o, items[1..]))
  }

  lemma {:induction false} InsertKeepsSorted(o: Order, x: FileItem, items: seq<FileItem>)
    requires IsSorted(o, items)
    ensures IsSorted(o, InsertFirst(o, x, items))
  {
    var r := InsertFirst(o, x, items);
    if items != [] {
      if Before(o, items[0], x) {
        var rest := InsertFirst(o, x, items[1..]);
        InsertKeepsSorted(o, x, items[1..]);
        BeforeIsWeakOrder(o, items[0], x, x);
        forall y | y in rest ensures !Before(o, y, items[0]) {
          assert y in multiset(rest);
          if y != x {
            assert y in multiset(items[1..]);
          }
        }
        HeadFirst(o, items[0], rest);
      } else {
        forall y | y in items ensures !Before(o, y, x) {
          BeforeIsWeakOrder(o, x, items[0], y);
          BeforeIsWeakOrder(o, y, y, y);
        }
        HeadFirst(o, x, items);
      }
    }
  }

  lemma HeadFirst(o: Order, x: FileItem, items: seq<FileItem>)
    requires IsSorted(o, items) && forall y :: y in items ==> !Before(o, y, x)
    ensures IsSorted(o, [x] + items)
  {
  }

  lemma {:induction false} InsertKeepsTies(o: Order, x: FileItem, items: seq<FileItem>, y: FileItem)
    ensures Ties(o, InsertFirst(o, x, items), y) == Ties(o, [x] + items, y)
  {
    if items != [] && Before(o, items[0], x) {
      InsertKeepsTies(o, x, items[1..], y);
      BeforeIsWeakOrder(o, y, x, items[0]);
      BeforeIsWeakOrder(o, y, items[0], x);
      TiesOfHead(o, x, items, y);
      TiesOfHead(o, x, items[1..], y);
      TiesOfHead(o, items[0], InsertFirst(o, x, items[1..]), y);
    }
  }

  lemma TiesOfHead(o: Order, x: FileItem, items: seq<FileItem>, y: FileItem)
    ensures Ties(o, [x] + items, y) == (if Tied(o, y, x) then [x] else []) + Ties(o, items, y)
  {
    assert ([x] + items)[1..] == items;
  }

  lemma {:induction false} StableSortKeepsTies(o: Order, items: seq<FileItem>, x: FileItem)
    ensures Ties(o, StableSort(o, items), x) == Ties(o, items, x)
  {
    if items != [] {
      StableSortKeepsTies(o, items[1..], x);
      InsertKeepsTies(o, items[0], StableSort(o, items[1..]), x);
      TiesOfHead(o, items[0], StableSort(o, items[1..]), x);
    }
  }

  lemma {:induction false} StableSortSorts(o: Order, items: seq<FileItem>)
    ensures IsSorted(o, StableSort(o, items))
  {
    if items != [] {
      StableSortSorts(o, items[1..]);
      InsertKeepsSorted(o, items[0], StableSort(o, items[1..]));
    }
  }

  lemma {:induction false} TiesAreIn(o: Order, items: seq<FileItem>, x: FileItem, y: FileItem)
    ensures y in Ties(o, items, x) <==> y in items && Tied(o, x, y)
  {
    if items != [] {
      TiesAreIn(o, items[1..], x, y);
      assert items == [items[0]] + items[1..];
    }
  }

  lemma SortedHeads(o: Order, s: seq<FileItem>, t: seq<FileItem>)
    requires IsSorted(o, s) && IsSorted(o, t) && s != []
    requires forall x :: Ties(o, s, x) == Ties(o, t, x)
    ensures t != [] && s[0] == t[0]
  {
    BeforeIsWeakOrder(o, s[0], s[0], s[0]);
    TiesAreIn(o, s, s[0], s[0]);
    TiesAreIn(o, t, s[0], s[0]);
    BeforeIsWeakOrder(o, t[0], t[0], t[0]);
    TiesAreIn(o, t, t[0], t[0]);
    TiesAreIn(o, s, t[0], t[0]);
    assert Tied(o, s[0], t[0]);
    assert Ties(o, s, s[0])[0] == s[0] && Ties(o, t, s[0])[0] == t[0];
  }

  lemma TiesOfTails(o: Order, h: FileItem, a: seq<FileItem>, b: seq<FileItem>, x: FileItem)
    requires Ties(o, [h] + a, x) == Ties(o, [h] + b, x)
    ensures Ties(o, a, x) == Ties(o, b, x)
  {
    TiesOfHead(o, h, a, x);
    TiesOfHead(o, h, b, x);
    var head := if Tied(o, x, h) then [h] else [];
    assert (head + Ties(o, a, x))[|head|..] == Ties(o, a, x);
    assert (head + Ties(o, b, x))[|head|..] == Ties(o, b, x);
  }

  /** There is only one stable sort of a list, whatever the algorithm. */
  lemma {:induction false} StableSortIsUnique(o: Order, s: seq<FileItem>, t: seq<FileItem>)
    requires IsSorted(o, s) && IsSorted(o, t)
    requires forall x :: Ties(o, s, x) == Ties(o, t, x)
    ensures s == t
  {
    if s == [] {
      if t != [] {
        SortedHeads(o, t, s);
      }
    } else {
      SortedHeads(o, s, t);
      assert s == [s[0]] + s[1..] && t == [s[0]] + t[1..];
      forall x ensures Ties(o, s[1..], x) == Ties(o, t[1..], x) {
        assert Ties(o, s, x) == Ties(o, t, x);
        TiesOfTails(o, s[0], s[1..], t[1..], x);
      }
      StableSortIsUnique(o, s[1..], t[1..]);
    }
  }

  /** The sorted listing is the stable sort of the entries, in either direction. */
  lemma SortIsStable(o: Order, items: seq<FileItem>, sorted: seq<FileItem>)
    ensures IsStableSort(o, items, sorted) <==> sorted == StableSort(o, items)
  {
    StableSortSorts(o, items);
    forall x ensures Ties(o, StableSort(o, items), x) == Ties(o, items, x) {
      StableSortKeepsTies(o, items, x);
    }
    if IsStableSort(o, items, sorted) {
      StableSortIsUnique(o, sorted, StableSort(o, items));
    }
  }

  /** No later than: a comes before b in the order of their characters, or they are the same. */
  ghost predicate NotAfter(a: string, b: string) {
    a == b || ComesFirst(a, b)
  }

  lemma StringsInOrder(a: string, b: string)
    ensures CompareStrings(a, b) <= 0 <==> NotAfter(a, b)
  {
    LessTotal(a, b);
    LessIsLexicographic(a, b);
  }

  /** x does not come after y in what the client's word stands for: the size, the time, the kind, or the name. */
  ghost predicate InOrder(word: string, lower: string -> string, x: FileItem, y: FileItem) {
    if word == "size" then x.size <= y.size
    else if word == "modified_at" then x.modifiedAt <= y.modifiedAt
    else if word == "type" && x.kind != y.kind then NotAfter(x.kind, y.kind)
    else NotAfter(lower(x.name), lower(y.name))
  }

  lemma CompareIsInOrder(o: Order, x: FileItem, y: FileItem)
    ensures Compare(o, x, y) <= 0 <==> InOrder(o.field, o.lower, x, y)
  {
    StringsInOrder(x.kind, y.kind);
    StringsInOrder(o.lower(x.name), o.lower(y.name));
  }

  /** Of two items of a sorted listing the first is in order with the second, upwards unless the client says "desc". */
  lemma ListingIsInOrder(items: seq<FileItem>, sortBy: string, order: string, lower: string -> string, i: nat, j: nat)
    requires i < j < |StableSort(OrderOf(sortBy, order, lower), items)|
    ensures var sorted := StableSort(OrderOf(sortBy, order, lower), items);
            var word, down := lower(Paths.TrimSpace(sortBy)), lower(Paths.TrimSpace(order)) == "desc";
            if down then InOrder(word, lower, sorted[j], sorted[i]) else InOrder(word, lower, sorted[i], sorted[j])
  {
    var o := OrderOf(sortBy, order, lower);
    StableSortSorts(o, items);
    var x, y := StableSort(o, items)[i], StableSort(o, items)[j];
    assert !Before(o, y, x);
    CompareIsPreorder(o, x, y, y);
    CompareIsInOrder(o, x, y);
    CompareIsInOrder(o, y, x);
  }

  // ---------------------------------------------------------------------------------------------
  // The listing of a directory
  // ---------------------------------------------------------------------------------------------

  function ItemOf(name: Name, node: Node, a: Attributes): FileItem {
    match node
    case Dir => FileItem(name, "directory", 0, a.modifiedAt)
    case File(data) => FileItem(name, "file", |data|, a.modifiedAt)
    case Link(_) => FileItem(name, "file", a.linkSize, a.modifiedAt)
  }

  /** The visible entries among the names, in their order. */
  function Visible(t: Tree, dir: Path, attributes: Path -> Attributes, names: seq<Name>): seq<FileItem>
    requires forall n :: n in names ==> dir + [n] in t
  {
    if names == [] then []
    else
      var rest := names[..|names| - 1];
      var last := names[|names| - 1];
      Visible(t, dir, attributes, rest)
      + if Paths.IsInternal(last) then [] else [ItemOf(last, t[dir + [last]], attributes(dir + [last]))]
  }

  /** The item says of the entry of that name what it is; a link shows as a file with the size of the link. */
  ghost predicate Shows(t: Tree, dir: Path, attributes: Path -> Attributes, x: FileItem) {
    var p := dir + [x.name];
    && p in t && x.modifiedAt == attributes(p).modifiedAt
    && match t[p]
       case Dir => x.kind == "directory" && x.size == 0
       case File(data) => x.kind == "file" && x.size == |data|
       case Link(_) => x.kind == "file" && x.size == attributes(p).linkSize
  }

  lemma VisibleOneMore(t: Tree, dir: Path, attributes: Path -> Attributes, names: seq<Name>, i: nat)
    requires (forall n :: n in names ==> dir + [n] in t) && i < |names|
    ensures var p := dir + [names[i]];
            && p in t
            && Visible(t, dir, attributes, names[..i + 1]) ==
               Visible(t, dir, attributes, names[..i])
               + if Paths.IsInternal(names[i]) then [] else [ItemOf(names[i], t[p], attributes(p))]
  {
    assert names[..i + 1][..i] == names[..i];
    assert names[i] in names;
  }

  /** Not one of the directories that the services keep for themselves. */
  predicate IsKept(name: Name) {
    Paths.TrimSpace(name) !in {".trash", ".thumbnails", ".chunks"}
  }

  /** Among the items are only entries of those names that the services do not keep for themselves. */
  lemma {:induction false} VisibleAreShown(t: Tree, dir: Path, attributes: Path -> Attributes, names: seq<Name>,
                                           x: FileItem)
    requires forall n :: n in names ==> dir + [n] in t
    requires x in Visible(t, dir, attributes, names)
    ensures x.name in names && IsKept(x.name) && Shows(t, dir, attributes, x)
  {
    var n := |names| - 1;
    if x in Visible(t, dir, attributes, names[..n]) {
      VisibleAreShown(t, dir, attributes, names[..n], x);
    } else {
      assert x == ItemOf(names[n], t[dir + [names[n]]], attributes(dir + [names[n]]));
    }
  }

  /** Every such entry is among the items. */
  lemma {:induction false} ShownAreAll(t: Tree, dir: Path, attributes: Path -> Attributes, names: seq<Name>, name: Name)
    requires forall n :: n in names ==> dir + [n] in t
    requires name in names && IsKept(name)
    ensures exists x :: x in Visible(t, dir, attributes, names) && x.name == name
  {
    var n := |names| - 1;
    var before := Visible(t, dir, attributes, names[..n]);
    if name in names[..n] {
      ShownAreAll(t, dir, attributes, names[..n], name);
      var x :| x in before && x.name == name;
      assert x in Visible(t, dir, attributes, names);
    } else {
      assert name == names[n];
      var x := ItemOf(name, t[dir + [name]], attributes(dir + [name]));
      assert Visible(t, dir, attributes, names) == before + [x];
    }
  }

  /** Each entry shows once, in the order of names. */
  lemma {:induction false} ShownInOrder(t: Tree, dir: Path, attributes: Path -> Attributes, names: seq<Name>,
                                        i: nat, j: nat)
    requires forall n :: n in names ==> dir + [n] in t
    requires Increasing(names) && i < j < |Visible(t, dir, attributes, names)|
    ensures Less(Visible(t, dir, attributes, names)[i].name, Visible(t, dir, attributes, names)[j].name)
  {
    var n := |names| - 1;
    var before := Visible(t, dir, attributes, names[..n]);
    if j < |before| {
      ShownInOrder(t, dir, attributes, names[..n], i, j);
    } else {
      VisibleAreShown(t, dir, attributes, names[..n], before[i]);
    }
  }

  const DEFAULT_LIMIT: nat := 50

  datatype ListError = NotFound | PathRefused | NotListable

  class DirectoryService {
    const disk: Disk
    const attributes: Path -> Attributes
    const lower: string -> string

    constructor (disk: Disk, attributes: Path -> Attributes, lower: string -> string)
      ensures this.disk == disk && this.attributes == attributes && this.lower == lower
    {
      this.disk, this.attributes, this.lower := disk, attributes, lower;
    }

    /** Every visible entry of a directory, in the order of names. */
    ghost function Entries(dir: Path): seq<FileItem>
      reads disk
    {
      Visible(disk.tree, dir, attributes, Disks.Listing(ChildNames(disk.tree, dir)))
    }

    /** The listing of the directory that a client's path leads to. */
    method List(path: string, page: int, limit: int, sortBy: string, order: string)
      returns (r: Result<Page<FileItem>, ListError>)
      ensures
        if Paths.IsInternalStoragePath(path) then r == Err(NotFound)
        else
          match Resolved(path)
          case None => r == Err(PathRefused)
          case Some(dir) =>
            if IsDir(disk.tree, dir) then
              var sorted := StableSort(OrderOf(sortBy, order, lower), Entries(dir));
              var n, size, total := PageNumber(page), PageLimit(limit, DEFAULT_LIMIT), |Entries(dir)|;
              r == Ok(Page(PageOf(sorted, n, size), n, size, total, TotalPages(total, size)))
            else if dir !in disk.tree && !Blocked(disk.tree, dir) then r == Err(NotFound)
            else r == Err(NotListable)
    {
      var pageNumber := if page < 1 then 1 else page;
      var pageLimit := if limit <= 0 then 50 else limit;
      if pageLimit > 200 {
        pageLimit := 200;
      }
      if Paths.IsInternalStoragePath(path) {
        return Err(NotFound);
      }
      var resolved := Resolved(path);
      if resolved.None? {
        return Err(PathRefused);
      }
      var dir := resolved.value;
      var info := disk.Stat(dir);
      match info {
        case Failed(NotExist) => return Err(NotFound);
        case Failed(_) => return Err(NotListable);
        case Found(node) =>
          if node != Dir {
            return Err(NotListable);
          }
      }
      var items := VisibleEntries(dir);
      var sorted := StableSort(OrderOf(sortBy, order, lower), items);
      SameLength(sorted, items);
      var pageOfItems := CutPage(sorted, pageNumber, pageLimit);
      r := Ok(pageOfItems);
    }

    /** The loop over the entries of the directory. */
    method VisibleEntries(dir: Path) returns (items: seq<FileItem>)
      ensures items == Entries(dir)
    {
      var names := disk.ReadDir(dir);
      IncreasingIsUnique(names, Disks.Listing(ChildNames(disk.tree, dir)));
      items := [];
      var i := 0;
      while i < |names|
        invariant 0 <= i <= |names|
        invariant items == Visible(disk.tree, dir, attributes, names[..i])
      {
        VisibleOneMore(disk.tree, dir, attributes, names, i);
        if !Paths.IsInternal(names[i]) {
          var p := dir + [names[i]];
          items := items + [ItemOf(names[i], disk.tree[p], attributes(p))];
        }
        i := i + 1;
      }
      assert names[..|names|] == names;
    }
  }

  lemma SameLength(s: seq<FileItem>, t: seq<FileItem>)
    requires multiset(s) == multiset(t)
    ensures |s| == |t|
  {
    assert |multiset(s)| == |multiset(t)|;
  }

  /**
   For every order and page size, the pages of a listing, put together, are the stable sort of its
   entries, and exactly the pages up to the last one are not empty.
   */
  lemma PagesMakeUpTheListing(o: Order, entries: seq<FileItem>, limit: int, page: nat)
    requires page > 0
    ensures var pages := TotalPages(|entries|, PageLimit(limit, DEFAULT_LIMIT));
            && IsStableSort(o, entries, FirstPages(StableSort(o, entries), PageLimit(limit, DEFAULT_LIMIT), pages))
            && (PageOf(StableSort(o, entries), page, PageLimit(limit, DEFAULT_LIMIT)) != [] <==> page <= pages)
  {
    var sorted := StableSort(o, entries);
    SameLength(sorted, entries);
    PagesPartition(sorted, PageLimit(limit, DEFAULT_LIMIT), page);
    SortIsStable(o, entries, sorted);
  }
}
