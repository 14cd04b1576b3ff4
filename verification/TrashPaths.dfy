/**
 The paths that the trash collects from an entry to find the cached thumbnails of its files, and the
 paths that thumbnails are cached under.
 */
module TrashPaths {
  import opened Wrappers
  import opened Paths
  import opened Resolving

  function TrashPath(raw: string): string {
    var trimmed := TrimSpace(raw);
    if trimmed == "" then "/"
    else
      var cleaned := Clean("/" + TrimSlash(Slashed(trimmed)));
      if cleaned == "." then "/" else cleaned
  }

  /** What is collected for the file at rel in an entry that was deleted as apiPath. */
  function CollectedPath(apiPath: string, rel: seq<string>): string {
    if rel == [] then TrashPath(apiPath) else TrashPath(JoinPath(TrashPath(apiPath), Join(rel)))
  }

  lemma SlashTwiceOff(s: string)
    requires Rooted(s)
    ensures "/" + TrimSlash(s) == s
  {
  }

  /** The path the trash makes of an accepted path lists what that path resolves to. */
  lemma TrashPathNames(apiPath: string)
    requires Resolved(apiPath).Some?
    ensures TrashPath(apiPath) == Abs(Resolved(apiPath).value)
  {
    var normalized := Slashed(TrimSpace(apiPath));
    var path := "/" + TrimSlash(normalized);
    TrimSlashSplits(normalized);
    SplitConcat("", TrimSlash(normalized));
    assert "" + "/" + TrimSlash(normalized) == path && Split("") == [""];
    ProperConcat([""], Split(TrimSlash(normalized)));
    var segs := Proper(Split(normalized));
    assert Proper([""]) == [] && [] + segs == segs;
    assert Rooted(path);
    CleanNames(path);
    if TrimSpace(apiPath) == "" {
      assert normalized == "" && Split(normalized) == [""];
      assert Abs([]) == "/";
    }
  }

  /** What is left of front and a last segment that was trimmed to y, when the path is cleaned. */
  function CleanedUp(front: seq<string>, y: string): seq<string> {
    if y == "" || y == "." then front
    else if y == ".." then if front == [] then [] else front[..|front| - 1]
    else front + [y]
  }

  lemma CleanAfter(front: seq<string>, y: string)
    requires IsClean(front)
    ensures CleanSegments([], [""] + front + [y], true) == CleanedUp(front, y)
  {
    assert forall s :: s in [""] + front ==> s == "" || s in front;
    ProperAfterSlash(front);
    CleanInTwo([], [""] + front, [y], true);
    CleanWithoutDoubleDots([], [""] + front, true);
    assert [] + front == front;
    CleanLast(front, y);
  }

  lemma TrimmedBareAbs(front: seq<string>, last: string)
    requires IsClean(front + [last]) && Bare(front + [last])
    ensures Split(Slashed(TrimSpace(Abs(front + [last])))) == [""] + front + [TrimRight(last)]
  {
    var path := Abs(front + [last]);
    assert TrimLeft(path) == path;
    SplitOfBareAbs(front + [last]);
    TrimRightOfSlashed(path);
    TrimSplits(Slashed(path));
    var a := [""] + (front + [last]);
    assert a[..|a| - 1] == [""] + front && a[|a| - 1] == last;
  }

  lemma TrashPathOfRooted(path: string)
    requires Rooted(path)
    ensures Rooted(Slashed(TrimSpace(path)))
    ensures TrashPath(path) == Clean(Slashed(TrimSpace(path)))
  {
    assert TrimLeft(path) == path;
    TrimKeepsRoot(path);
    SlashTwiceOff(Slashed(TrimSpace(path)));
  }

  lemma TrashPathTrims(front: seq<string>, last: string)
    requires IsClean(front + [last]) && Bare(front + [last])
    ensures TrashPath(Abs(front + [last])) == Abs(CleanedUp(front, TrimRight(last)))
  {
    TrashPathOfRooted(Abs(front + [last]));
    TrimmedBareAbs(front, last);
    assert forall s :: s in front ==> s in front + [last];
    CleanAfter(front, TrimRight(last));
  }

  lemma CleanedUpLeads(front: seq<string>, y: string)
    requires IsClean(front) && Bare(front) && '/' !in y && '\\' !in y && !EndsInSpace(y)
    ensures var r := Resolved(Abs(CleanedUp(front, y)));
            r.Some? ==> r.value <= front || !LastEndsInSpace(r.value)
  {
    var v := CleanedUp(front, y);
    if v == [] {
      ResolvedAbs([]);
    } else {
      var up, last := v[..|v| - 1], v[|v| - 1];
      assert v == up + [last];
      assert up <= front;
      ResolvedTrims(up, last);
    }
  }

  /** Without backslashes, what is collected leads up, or to a name that does not end in white space. */
  lemma TrashPathLeads(front: seq<string>, last: string)
    requires IsClean(front + [last]) && Bare(front + [last])
    ensures var r := Resolved(TrashPath(Abs(front + [last])));
            r.Some? ==> r.value <= front || !LastEndsInSpace(r.value)
  {
    TrashPathTrims(front, last);
    assert last in front + [last] && forall s :: s in front ==> s in front + [last];
    CleanedUpLeads(front, TrimRight(last));
  }

  lemma TrashPathOfAbs(segs: seq<string>)
    requires IsClean(segs)
    ensures Resolved(TrashPath(Abs(segs))) == Some(segs) <==> Plain(segs)
  {
    ResolvedAbs(segs);
    ResolvedIsNameable(TrashPath(Abs(segs)));
    AbsOfClean(segs);
    if Plain(segs) {
      TrashPathNames(Abs(segs));
    } else if Nameable(segs) {
      var front, last := segs[..|segs| - 1], segs[|segs| - 1];
      assert segs == front + [last];
      TrashPathLeads(front, last);
    }
  }

  lemma JoinedIsAbs(apiPath: string, rel: seq<string>)
    requires Resolved(apiPath).Some? && IsClean(rel) && rel != []
    ensures CollectedPath(apiPath, rel) == TrashPath(Abs(Resolved(apiPath).value + rel))
    ensures IsClean(Resolved(apiPath).value + rel)
  {
    var segs := Resolved(apiPath).value;
    TrashPathNames(apiPath);
    ResolvedIsNameable(apiPath);
    SplitJoin(rel);
    ProperIsClean(rel);
    JoinNames(segs, Join(rel));
  }

  /**
   The path collected for a file resolves to the file itself exactly when no segment of its old path
   has a backslash or a control character and the last does not end in white space.
   */
  lemma CollectedResolvesIff(apiPath: string, rel: seq<string>)
    requires Resolved(apiPath).Some? && IsClean(rel)
    ensures var segs := Resolved(apiPath).value + rel;
            Resolved(CollectedPath(apiPath, rel)) == Some(segs) <==> Plain(segs)
  {
    var segs := Resolved(apiPath).value;
    if rel == [] {
      assert segs + rel == segs;
      TrashPathNames(apiPath);
      ResolvedIsNameable(apiPath);
      ResolvedAbs(segs);
    } else {
      JoinedIsAbs(apiPath, rel);
      TrashPathOfAbs(segs + rel);
    }
  }

  /**
   Without backslashes, what is collected for a file leads to a directory above it, or to a name that
   does not end in white space.
   */
  lemma CollectedLeads(apiPath: string, rel: seq<string>)
    requires Resolved(apiPath).Some? && IsClean(rel)
    requires var segs := Resolved(apiPath).value + rel; segs != [] && Bare(segs)
    ensures var segs := Resolved(apiPath).value + rel;
            var r := Resolved(CollectedPath(apiPath, rel));
            r.Some? ==> r.value <= segs[..|segs| - 1] || !LastEndsInSpace(r.value)
  {
    var segs := Resolved(apiPath).value + rel;
    var front, last := segs[..|segs| - 1], segs[|segs| - 1];
    assert segs == front + [last];
    ResolvedIsNameable(apiPath);
    if rel == [] {
      TrashPathNames(apiPath);
      assert segs == Resolved(apiPath).value;
      ResolvedTrims(front, last);
    } else {
      JoinedIsAbs(apiPath, rel);
      TrashPathLeads(front, last);
    }
  }

  /** A file with this name beside another one: its collected path leads to the other. */
  function Shadowing(name: string): string {
    name + "\\ \\"
  }

  lemma AbsExtended(front: seq<string>, name: string, more: string)
    ensures Abs(front + [name + more]) == Abs(front + [name]) + more
  {
    if front == [] {
      assert front + [name + more] == [name + more] && front + [name] == [name];
    } else {
      AbsConcat(front, [name + more]);
      AbsConcat(front, [name]);
    }
  }

  lemma SlashedTail(s: string)
    requires '\\' !in s
    ensures Slashed(s + "\\ \\") == s + "/ /"
  {
    var path, goal := s + "\\ \\", s + "/ /";
    forall i | 0 <= i < |path| ensures Slashed(path)[i] == goal[i] {
      assert i < |s| ==> path[i] in s;
    }
  }

  lemma CleanBeforeSlash(segs: seq<string>)
    requires IsClean(segs)
    ensures Clean(Abs(segs) + "/") == Abs(segs)
  {
    var path := Abs(segs) + "/";
    SplitConcat(Abs(segs), "");
    assert Abs(segs) + "/" + "" == path && Split("") == [""];
    SplitAbs(segs);
    ProperConcat(Split(Abs(segs)), [""]);
    ProperOne("");
    assert segs + [] == segs;
    CleanNames(path);
  }

  lemma ShadowPath(segs: seq<string>)
    requires Nameable(segs) && segs != []
    ensures TrashPath(Abs(segs) + "\\ \\") == Abs(segs + [" "])
  {
    var path := Abs(segs) + "\\ \\";
    assert TrimLeft(path) == path && TrimSpace(path) == path;
    AbsOfNameable(segs);
    SlashedTail(Abs(segs));
    TrashPathOfRooted(path);
    AbsConcat(segs, [" "]);
    assert Abs(segs + [" "]) + "/" == Abs(segs) + "/ /";
    CleanBeforeSlash(segs + [" "]);
  }

  lemma BlankSegmentIsCut(segs: seq<string>)
    requires Nameable(segs)
    ensures Resolved(Abs(segs + [" "])) == Some(segs)
  {
    TrimmedBareAbs(segs, " ");
    assert TrimRight(" ") == "";
    var path := Abs(segs + [" "]);
    PiecesHaveNoControl(Slashed(TrimSpace(path)));
    assert !HasControl("");
    ProperConcat([""] + segs, [""]);
    ProperAfterSlash(segs);
    ProperOne("");
    assert segs + [] == segs;
  }

  lemma ShadowIsClean(front: seq<string>, name: string)
    requires IsClean(front + [name])
    ensures IsClean(front + [Shadowing(name)])
  {
    assert name in front + [name] && forall s :: s in front ==> s in front + [name];
  }

  /** Such a file makes the trash find the other one, also when that one's name ends in white space. */
  lemma BackslashHitsANeighbour(apiPath: string, front: seq<string>, name: string)
    requires Resolved(apiPath).Some? && Nameable(Resolved(apiPath).value + front + [name])
    ensures IsClean(front + [Shadowing(name)])
    ensures Resolved(CollectedPath(apiPath, front + [Shadowing(name)]))
            == Some(Resolved(apiPath).value + front + [name])
  {
    var p := Resolved(apiPath).value;
    assert p + front + [name] == p + (front + [name]);
    assert forall s :: s in front + [name] ==> s in p + (front + [name]);
    ShadowIsClean(front, name);
    JoinedIsAbs(apiPath, front + [Shadowing(name)]);
    assert p + (front + [Shadowing(name)]) == p + front + [name + "\\ \\"];
    AbsExtended(p + front, name, "\\ \\");
    ShadowPath(p + front + [name]);
    BlankSegmentIsCut(p + front + [name]);
  }

  /**
   A file whose name ends in white space can be asked for, with a slash behind its path, but the path
   that is collected for it resolves to another place.
   */
  lemma TrailingSpaceIsMissed(apiPath: string, rel: seq<string>)
    requires Resolved(apiPath).Some? && IsClean(rel)
    requires var segs := Resolved(apiPath).value + rel; Nameable(segs) && LastEndsInSpace(segs)
    ensures var segs := Resolved(apiPath).value + rel;
            && Resolved(Abs(segs) + "/") == Some(segs)
            && Resolved(CollectedPath(apiPath, rel)) != Some(segs)
  {
    var segs := Resolved(apiPath).value + rel;
    NamedBySlash(segs);
    AbsEnds(segs);
    CollectedResolvesIff(apiPath, rel);
  }

  /** The file "a " of a directory deleted as "/d" is one of these. */
  lemma TrailingSpaceExample()
    ensures Resolved("/d") == Some(["d"])
    ensures Resolved("/d/a /") == Some(["d", "a "]) && Resolved(CollectedPath("/d", ["a "])) != Some(["d", "a "])
  {
    ExampleDirectory();
    ExampleFile();
    ResolvedAbs(["d"]);
    TrailingSpaceIsMissed("/d", ["a "]);
  }

  lemma ExampleDirectory()
    ensures Plain(["d"]) && Abs(["d"]) == "/d"
  {
    AbsEnds(["d"]);
  }

  lemma ExampleFile()
    ensures IsClean(["a "]) && Nameable(["d", "a "]) && LastEndsInSpace(["d", "a "])
    ensures ["d"] + ["a "] == ["d", "a "] && Abs(["d", "a "]) + "/" == "/d/a /"
  {
    assert ["d", "a "][1..] == ["a "] && Join(["a "]) == "a ";
    assert Join(["d", "a "]) == "d" + "/" + "a " == "d/a ";
  }
}
