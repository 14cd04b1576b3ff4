/**
 What a request's path leads to: the segments that the validator finds for it, which paths requests can
 name, and how the forms of a path that the services use compare.
 */
module Resolving {
  import opened Wrappers
  import opened Paths

  /** The segments below the root that the validator finds for a path, if it accepts it. */
  function Resolved(apiPath: string): Option<seq<string>> {
    var normalized := Slashed(TrimSpace(apiPath));
    if HasControl(normalized) || ".." in Split(normalized) then None else Some(Proper(Split(normalized)))
  }

  lemma ResolvedIsResolvePath(rs: seq<string>, apiPath: string)
    requires IsClean(rs) && rs != []
    ensures ResolvePath(Abs(rs), apiPath).Ok? <==> Resolved(apiPath).Some?
    ensures Resolved(apiPath).Some? ==> ResolvePath(Abs(rs), apiPath).value == Abs(rs + Resolved(apiPath).value)
  {
    ResolvesExactly(rs, apiPath);
  }

  /** Segments that some request can name. */
  predicate Nameable(segs: seq<string>) {
    IsClean(segs) && Bare(segs) && forall s :: s in segs ==> !HasControl(s)
  }

  lemma {:induction false} PiecesHaveNoControl(s: string)
    ensures !HasControl(s) <==> forall x :: x in Split(s) ==> !HasControl(x)
  {
    if s != "" {
      PiecesHaveNoControl(s[1..]);
      var rest := Split(s[1..]);
      FirstControl(s[0], s[1..]);
      assert s == [s[0]] + s[1..];
      assert rest == [rest[0]] + rest[1..];
      if s[0] == '/' {
        assert Split(s) == [""] + rest;
      } else {
        assert Split(s) == [[s[0]] + rest[0]] + rest[1..];
        FirstControl(s[0], rest[0]);
      }
    }
  }

  lemma FirstControl(c: char, s: string)
    ensures HasControl([c] + s) <==> IsControl(c) || HasControl(s)
  {
    var t := [c] + s;
    if HasControl(s) {
      var i :| 0 <= i < |s| && IsControl(s[i]);
      assert t[i + 1] == s[i];
    }
    if IsControl(c) {
      assert t[0] == c;
    }
  }

  lemma {:induction false} ProperAreThere(segs: seq<string>)
    ensures forall x :: x in Proper(segs) ==> x in segs
  {
    if segs != [] {
      ProperAreThere(segs[1..]);
    }
  }

  lemma ResolvedIsNameable(apiPath: string)
    ensures Resolved(apiPath).Some? ==> Nameable(Resolved(apiPath).value)
  {
    var normalized := Slashed(TrimSpace(apiPath));
    if Resolved(apiPath).Some? {
      JoinSplit(normalized);
      ProperIsClean(Split(normalized));
      SlashedKeeps(TrimSpace(apiPath));
      BareSplit(normalized);
      BareProper(Split(normalized));
      PiecesHaveNoControl(normalized);
      ProperAreThere(Split(normalized));
    }
  }

  lemma AbsOfNameable(segs: seq<string>)
    requires IsClean(segs)
    ensures Bare(segs) <==> '\\' !in Abs(segs)
    ensures (forall s :: s in segs ==> !HasControl(s)) <==> !HasControl(Abs(segs))
  {
    BareJoin(segs);
    PiecesHaveNoControl(Abs(segs));
    SplitConcat("", Join(segs));
    assert "" + "/" + Join(segs) == Abs(segs) && Split("") == [""];
    if segs != [] {
      SplitJoin(segs);
      assert Split(Abs(segs)) == [""] + segs;
    } else {
      assert Split(Abs(segs)) == ["", ""];
    }
  }

  // Trimming cuts only into the last segment.

  lemma {:induction false} TrimRightAfterSlash(a: string, b: string)
    ensures TrimRight(a + "/" + b) == a + "/" + TrimRight(b)
  {
    var s := a + "/" + b;
    if b == "" {
      assert s[|s| - 1] == '/';
    } else if EndsInSpace(b) {
      assert s[|s| - 1] == b[|b| - 1];
      assert s[..|s| - 1] == a + "/" + b[..|b| - 1];
      TrimRightAfterSlash(a, b[..|b| - 1]);
    } else {
      assert s[|s| - 1] == b[|b| - 1];
    }
  }

  lemma TrimLastOf(front: seq<string>, last: string)
    requires front != [] && SlashFree(front) && '/' !in last
    ensures Split(TrimRight(Join(front) + "/" + last)) == front + [TrimRight(last)]
    ensures EndsInSpace(Join(front) + "/" + last) <==> EndsInSpace(last)
  {
    TrimRightAfterSlash(Join(front), last);
    SplitConcat(Join(front), TrimRight(last));
    SplitJoin(front);
    SplitSegment(TrimRight(last));
  }

  lemma TrimSplitsAt(s: string, front: seq<string>, last: string)
    requires Split(s) == front + [last]
    ensures Split(TrimRight(s)) == front + [TrimRight(last)]
    ensures EndsInSpace(s) <==> EndsInSpace(last)
  {
    JoinSplit(s);
    assert last in front + [last];
    if front == [] {
      assert front + [last] == [last];
      SplitSegment(TrimRight(s));
    } else {
      JoinConcat(front, [last]);
      assert forall x :: x in front ==> x in front + [last];
      TrimLastOf(front, last);
    }
  }

  lemma TrimSplits(s: string)
    ensures var a := Split(s);
            && Split(TrimRight(s)) == a[..|a| - 1] + [TrimRight(a[|a| - 1])]
            && (EndsInSpace(s) <==> EndsInSpace(a[|a| - 1]))
  {
    var a := Split(s);
    assert a == a[..|a| - 1] + [a[|a| - 1]];
    TrimSplitsAt(s, a[..|a| - 1], a[|a| - 1]);
  }

  /** What an absolute path resolves to, if to anything: its last segment is trimmed. */
  lemma ResolvedTrimsLast(path: string)
    requires Paths.Rooted(path)
    ensures var a := Split(Slashed(path));
            Resolved(path).Some? ==>
              Resolved(path).value == Proper(a[..|a| - 1]) + Proper([TrimRight(a[|a| - 1])])
  {
    assert TrimLeft(path) == path;
    TrimRightOfSlashed(path);
    var a := Split(Slashed(path));
    TrimSplits(Slashed(path));
    assert Slashed(TrimSpace(path)) == TrimRight(Slashed(path));
    ProperConcat(a[..|a| - 1], [TrimRight(a[|a| - 1])]);
  }

  lemma ProperOne(x: string)
    ensures Proper([x]) == if x == "" || x == "." then [] else [x]
  {
    assert [x][1..] == [];
  }

  lemma SplitOfBareAbs(segs: seq<string>)
    requires IsClean(segs) && Bare(segs) && segs != []
    ensures Split(Slashed(Abs(segs))) == [""] + segs
  {
    AbsOfNameable(segs);
    SlashedKeeps(Abs(segs));
    SplitOfAbs(segs);
  }

  lemma ProperAfterSlash(segs: seq<string>)
    requires IsClean(segs)
    ensures Proper([""] + segs) == segs
  {
    ProperConcat([""], segs);
    ProperOne("");
    ProperIsClean(segs);
    assert [] + segs == segs;
  }

  /** Segments without backslashes resolve to themselves with the last one trimmed, or without it. */
  lemma ResolvedTrims(front: seq<string>, last: string)
    requires IsClean(front + [last]) && Bare(front + [last])
    ensures Resolved(Abs(front + [last])).Some? ==>
              Resolved(Abs(front + [last])).value ==
                if TrimRight(last) == "" || TrimRight(last) == "." then front else front + [TrimRight(last)]
  {
    SplitOfBareAbs(front + [last]);
    ResolvedTrimsLast(Abs(front + [last]));
    var a := [""] + (front + [last]);
    assert a[..|a| - 1] == [""] + front && a[|a| - 1] == last;
    assert forall s :: s in front ==> s in front + [last];
    ProperAfterSlash(front);
    ProperOne(TrimRight(last));
    assert front + [] == front;
  }

  lemma AbsOfClean(segs: seq<string>)
    requires IsClean(segs)
    ensures EndsInSpace(Abs(segs)) <==> LastEndsInSpace(segs)
  {
    AbsEnds(segs);
  }

  lemma SpacedIsNotResolved(front: seq<string>, last: string)
    requires IsClean(front + [last]) && Bare(front + [last]) && EndsInSpace(last)
    ensures Resolved(Abs(front + [last])) != Some(front + [last])
  {
    ResolvedTrims(front, last);
    assert (front + [TrimRight(last)])[|front|] == TrimRight(last) != last == (front + [last])[|front|];
  }

  lemma PlainResolves(segs: seq<string>)
    requires Plain(segs)
    ensures Resolved(Abs(segs)) == Some(segs)
  {
    var path := Abs(segs);
    assert TrimLeft(path) == path;
    AbsOfNameable(segs);
    SplitAbs(segs);
    SlashedKeeps(path);
  }

  /** An absolute path resolves to its own segments exactly when they are plain. */
  lemma ResolvedAbs(segs: seq<string>)
    requires IsClean(segs)
    ensures Resolved(Abs(segs)) == Some(segs) <==> Plain(segs)
  {
    if Plain(segs) {
      PlainResolves(segs);
    } else if !Nameable(segs) {
      ResolvedIsNameable(Abs(segs));
    } else {
      AbsOfClean(segs);
      var front, last := segs[..|segs| - 1], segs[|segs| - 1];
      assert segs == front + [last];
      SpacedIsNotResolved(front, last);
    }
  }

  /** A slash at the end makes any nameable path a request. */
  lemma NamedBySlash(segs: seq<string>)
    requires Nameable(segs)
    ensures Resolved(Abs(segs) + "/") == Some(segs)
  {
    var path := Abs(segs) + "/";
    assert TrimLeft(path) == path && TrimSpace(path) == path;
    AbsOfNameable(segs);
    assert '\\' !in path;
    SlashedKeeps(path);
    SplitConcat(Abs(segs), "");
    assert Abs(segs) + "/" + "" == path && Split("") == [""];
    SplitAbs(segs);
    ProperConcat(Split(Abs(segs)), [""]);
    assert Proper([""]) == [] && segs + [] == segs;
    PiecesHaveNoControl(Abs(segs));
    PiecesHaveNoControl(path);
    assert !HasControl("");
  }

  /** Some request names a file exactly when no segment has a backslash or a control character. */
  lemma NameableIff(segs: seq<string>)
    requires IsClean(segs)
    ensures Nameable(segs) <==> exists path :: Resolved(path) == Some(segs)
  {
    if Nameable(segs) {
      NamedBySlash(segs);
    }
    forall path | Resolved(path) == Some(segs) ensures Nameable(segs) {
      ResolvedIsNameable(path);
    }
  }

  // Backslashes within segments.

  /** The segments that the validator makes of segments that may have backslashes. */
  function Pieces(segs: seq<string>): seq<string> {
    if segs == [] then [] else Split(Slashed(segs[0])) + Pieces(segs[1..])
  }

  lemma {:induction false} PiecesOfSplit(s: string)
    ensures Split(Slashed(s)) == Pieces(Split(s))
  {
    if s == "" {
      assert Pieces([""]) == [""];
    } else {
      PiecesOfSplit(s[1..]);
      var rest := Split(s[1..]);
      if s[0] == '/' {
        assert Split(s)[1..] == rest;
        assert Pieces(Split(s)) == Split(Slashed("")) + Pieces(rest);
      } else {
        PiecesStep(s[0], rest);
        SplitStep(Slashed(s)[0], Split(Slashed(rest[0])), Pieces(rest[1..]));
      }
    }
  }

  lemma PiecesStep(c: char, rest: seq<string>)
    requires rest != []
    ensures Pieces([[c] + rest[0]] + rest[1..]) == Split(Slashed([c] + rest[0])) + Pieces(rest[1..])
    ensures Slashed([c] + rest[0]) == [if c == '\\' then '/' else c] + Slashed(rest[0])
  {
    assert ([[c] + rest[0]] + rest[1..])[1..] == rest[1..];
    assert ([c] + rest[0])[1..] == rest[0];
  }

  lemma {:induction false} PiecesConcat(a: seq<string>, b: seq<string>)
    ensures Pieces(a + b) == Pieces(a) + Pieces(b)
  {
    if a == [] {
      assert a + b == b;
    } else {
      assert (a + b)[1..] == a[1..] + b;
      PiecesConcat(a[1..], b);
    }
  }

  /** Segments that name nothing have no pieces that name something. */
  lemma {:induction false} PiecesOfProper(segs: seq<string>)
    ensures Proper(Pieces(segs)) == Proper(Pieces(Proper(segs)))
    ensures forall x :: x in Pieces(Proper(segs)) ==> x in Pieces(segs)
  {
    if segs != [] {
      PiecesOfProper(segs[1..]);
      var first := Split(Slashed(segs[0]));
      ProperConcat(first, Pieces(segs[1..]));
      if segs[0] == "" || segs[0] == "." {
        SplitSegment(segs[0]);
        ProperOne(segs[0]);
        assert Slashed(segs[0]) == segs[0];
        assert [] + Proper(segs[1..]) == Proper(segs[1..]);
      } else {
        PiecesConcat([segs[0]], Proper(segs[1..]));
        assert [segs[0]][1..] == [] && first + [] == first;
        ProperConcat(first, Pieces(Proper(segs[1..])));
      }
    }
  }

  /** The segments that a path names before backslashes are read as slashes. */
  function NamedAsWritten(raw: string): seq<string> {
    Proper(Split(TrimSpace(raw)))
  }

  /** Of an accepted path: what it resolves to, and its API path. */
  lemma AcceptedPath(raw: string)
    requires Resolved(raw).Some?
    ensures var named := NamedAsWritten(raw);
            && IsClean(named) && Resolved(raw).value == Proper(Pieces(named))
            && NormalizeAPIPath(raw) == Abs(named) && APISegments(raw) == named
            && forall x :: x in Pieces(named) ==> x != ".." && !HasControl(x)
  {
    var s := TrimSpace(raw);
    SlashedSplits(s, "..");
    NormalizeNames(raw);
    PiecesOfSplit(s);
    PiecesOfProper(Split(s));
    PiecesHaveNoControl(Slashed(s));
    CleanWithoutDoubleDots([], Split(s), Paths.Rooted(s));
    assert [] + NamedAsWritten(raw) == NamedAsWritten(raw);
  }

  lemma PiecesOfAbs(segs: seq<string>)
    requires IsClean(segs)
    ensures Proper(Split(Slashed(Abs(segs)))) == Proper(Pieces(segs))
    ensures forall x :: x in Split(Slashed(Abs(segs))) ==> x == "" || x in Pieces(segs)
  {
    PiecesOfSplit(Abs(segs));
    SplitOfAbs(segs);
    SplitSegment("");
    assert Pieces([""]) == [""];
    var rest := if segs == [] then [""] else segs;
    PiecesConcat([""], rest);
    ProperConcat([""], Pieces(rest));
    ProperOne("");
    assert [] + Proper(Pieces(rest)) == Proper(Pieces(rest));
  }

  /**
   The requests to move, copy, delete and restore resolve the API path of what the client sends, the
   others resolve the string itself.  For an accepted path that is the same place exactly when the last
   segment it names does not end in white space.
   */
  lemma NormalizedResolvesAlikeIff(raw: string)
    requires Resolved(raw).Some?
    ensures Resolved(NormalizeAPIPath(raw)) == Resolved(raw) <==> !LastEndsInSpace(NamedAsWritten(raw))
  {
    var named := NamedAsWritten(raw);
    AcceptedPath(raw);
    AbsEnds(named);
    if EndsInSpace(Abs(named)) {
      SpacedResolvesAside(named);
    } else {
      UnspacedResolves(named);
    }
  }

  lemma UnspacedResolves(named: seq<string>)
    requires IsClean(named) && !EndsInSpace(Abs(named))
    requires forall x :: x in Pieces(named) ==> x != ".." && !HasControl(x)
    ensures Resolved(Abs(named)) == Some(Proper(Pieces(named)))
  {
    var path := Abs(named);
    PiecesOfAbs(named);
    assert TrimLeft(path) == path && TrimSpace(path) == path;
    PiecesHaveNoControl(Slashed(path));
    assert !HasControl("");
  }

  lemma SpacedResolvesAside(named: seq<string>)
    requires IsClean(named) && EndsInSpace(Abs(named))
    ensures Resolved(Abs(named)) != Some(Proper(Pieces(named)))
  {
    var path := Abs(named);
    PiecesOfAbs(named);
    TrimSplits(Slashed(path));
    assert Slashed(path)[|path| - 1] == path[|path| - 1];
    ResolvedTrimsLast(path);
    TrimmedNamesDiffer(Split(Slashed(path)));
  }

  lemma TrimmedNamesDiffer(a: seq<string>)
    requires a != [] && EndsInSpace(a[|a| - 1])
    ensures Proper(a) != Proper(a[..|a| - 1]) + Proper([TrimRight(a[|a| - 1])])
  {
    var front, last := a[..|a| - 1], a[|a| - 1];
    assert a == front + [last];
    ProperConcat(front, [last]);
    ProperOne(last);
    ProperOne(TrimRight(last));
    var names, trimmed := Proper(front) + [last], Proper(front) + Proper([TrimRight(last)]);
    assert |trimmed| == |names| ==> trimmed[|Proper(front)|] == TrimRight(last) != last;
  }

  /** A name with a blank at the end, and a slash behind it: the API path leads to the name without it. */
  lemma NormalizedLeadsAside(name: string)
    requires Plain([name])
    ensures Resolved("/" + name + " /") == Some([name + " "])
    ensures Resolved(NormalizeAPIPath("/" + name + " /")) == Some([name])
  {
    var spaced := name + " ";
    BlankAtTheEnd(name);
    NamedBySlash([spaced]);
    assert Abs([spaced]) + "/" == "/" + name + " /" == "/" + spaced + "/";
    SpaceBeforeSlash(spaced);
    assert TrimLeft("/" + spaced) == "/" + spaced;
    assert ("/" + spaced)[..|name| + 1] == "/" + name == Abs([name]);
    assert TrimSpace("/" + spaced) == TrimSpace(Abs([name]));
    ResolvedAbs([name]);
  }

  lemma BlankAtTheEnd(name: string)
    requires Plain([name])
    ensures Nameable([name + " "]) && EndsInSpace(name + " ")
  {
    assert name in [name];
    var spaced := name + " ";
    assert spaced[|name|] == ' ' && |spaced| > 1;
    assert spaced != ".." && spaced != ".";
  }

  lemma SplitAtDoubleDots(a: string, b: string)
    requires IsClean([a]) && IsClean([b])
    ensures Split("/" + a + "/../" + b) == ["", a, "..", b]
  {
    assert a in [a] && b in [b];
    assert "/" + a + "/../" + b == "" + "/" + (a + "/" + (".." + "/" + b));
    SplitSegment(a);
    SplitSegment(b);
    SplitSegment("..");
    SplitConcat("..", b);
    SplitConcat(a, ".." + "/" + b);
    SplitConcat("", a + "/" + (".." + "/" + b));
  }

  /** A path with a double dot is refused, but not when its API path is taken first. */
  lemma DoubleDotsNormalizeAway(a: string, b: string)
    requires Plain([a]) && Plain([b])
    ensures Resolved("/" + a + "/../" + b) == None
    ensures Resolved(NormalizeAPIPath("/" + a + "/../" + b)) == Some([b])
  {
    assert b in [b];
    var path := "/" + a + "/../" + b;
    SplitAtDoubleDots(a, b);
    AbsEnds([b]);
    assert TrimLeft(path) == path && path[|path| - 1] == b[|b| - 1];
    assert TrimSpace(path) == path;
    SlashedSplits(path, "..");
    DoubleDotTakesBack(a, b);
    var segs := NormalizeIsAbs(path);
    ResolvedAbs([b]);
  }

  lemma DoubleDotTakesBack(a: string, b: string)
    requires IsClean([a]) && IsClean([b])
    ensures CleanSegments([], ["", a, "..", b], true) == [b]
  {
    assert a in [a] && b in [b];
    var segs := ["", a, "..", b];
    assert segs[1..] == [a, "..", b] && segs[1..][1..] == ["..", b] && segs[1..][1..][1..] == [b];
    assert CleanSegments([], segs, true) == CleanSegments([], segs[1..], true);
    assert [] + [a] == [a] && [a][..0] == [];
    assert CleanSegments([], segs[1..], true) == CleanSegments([a], segs[1..][1..], true);
    assert CleanSegments([a], segs[1..][1..], true) == CleanSegments([], [b], true);
    CleanLast([], b);
    assert [] + [b] == [b];
  }

  // The guard of the directories the services keep for themselves.

  lemma FirstPiece(segs: seq<string>)
    requires IsClean(segs) && segs != [] && '\\' !in segs[0]
    ensures IsInternalPath(Proper(Pieces(segs))) <==> IsInternalPath(segs)
  {
    assert segs[0] in segs;
    SlashedKeeps(segs[0]);
    SplitSegment(segs[0]);
    ProperConcat([segs[0]], Pieces(segs[1..]));
    ProperOne(segs[0]);
    assert Proper(Pieces(segs)) == [segs[0]] + Proper(Pieces(segs[1..]));
  }

  /**
   Listings and searches test the API path, and open what the path itself resolves to.  What the test
   refuses is internal; a path to an internal place is refused exactly when the first segment it names
   has no backslash.
   */
  lemma GuardAgreesIff(raw: string)
    requires Resolved(raw).Some?
    ensures IsInternalStoragePath(raw) ==> IsInternalPath(Resolved(raw).value)
    ensures var named := NamedAsWritten(raw);
            IsInternalPath(Resolved(raw).value) ==>
              named != [] && (IsInternalStoragePath(raw) <==> '\\' !in named[0])
  {
    var named := NamedAsWritten(raw);
    AcceptedPath(raw);
    InternalByFirstSegment(raw);
    if named != [] {
      InternalNamesAreBare(named[0]);
      if '\\' !in named[0] {
        FirstPiece(named);
      }
    }
  }

  /** A backslash in front of a name: the validator finds the name, the test does not. */
  lemma BackslashPassesTheGuard(name: string)
    requires Plain([name])
    ensures Resolved("\\" + name) == Some([name])
    ensures !IsInternalStoragePath("\\" + name)
  {
    var raw := "\\" + name;
    BackslashInFront(name);
    AcceptedPath(raw);
    SplitSegment(raw);
    ProperOne(raw);
    InternalByFirstSegment(raw);
    InternalNamesAreBare(raw);
    assert raw[0] == '\\';
  }

  lemma BackslashInFront(name: string)
    requires Plain([name])
    ensures TrimSpace("\\" + name) == "\\" + name && '/' !in "\\" + name
    ensures Resolved("\\" + name) == Some([name])
  {
    var raw := "\\" + name;
    assert name in [name];
    AbsEnds([name]);
    assert TrimLeft(raw) == raw && raw[|raw| - 1] == name[|name| - 1];
    assert Slashed(raw) == "/" + Slashed(name);
    SlashedKeeps(name);
    assert TrimLeft(Abs([name])) == Abs([name]);
    SlashedKeeps(Abs([name]));
    ResolvedAbs([name]);
  }

  lemma InternalNamesAreBare(name: string)
    ensures name in INTERNAL_NAMES ==> '\\' !in name
  {
  }
}
