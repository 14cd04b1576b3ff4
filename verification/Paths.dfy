/**
 Client paths as strings: Go's lexical rules for paths on Unix, the path validator, and the way back
 from resolved paths to API paths.  Strings are sequences of Unicode scalars.
 */
module Paths {
  import opened Wrappers

  // ---------------------------------------------------------------------------------------------
  // Strings
  // ---------------------------------------------------------------------------------------------

  predicate IsSpace(c: char) {
    var n := c as int;
    || 9 <= n <= 13 || n == 32 || n == 0x85 || n == 0xA0 || n == 0x1680 || 0x2000 <= n <= 0x200A
    || n == 0x2028 || n == 0x2029 || n == 0x202F || n == 0x205F || n == 0x3000
  }

  predicate IsControl(c: char) {
    var n := c as int;
    n < 32 || 0x7F <= n <= 0x9F
  }

  function TrimLeft(s: string): (t: string)
    ensures t != "" ==> !IsSpace(t[0])
    ensures |t| <= |s|
    ensures s != "" && !IsSpace(s[0]) ==> t == s
  {
    if s != "" && IsSpace(s[0]) then TrimLeft(s[1..]) else s
  }

  function TrimRight(s: string): (t: string)
    ensures t <= s
    ensures t != "" ==> !EndsInSpace(t)
    ensures t == s <==> !EndsInSpace(s)
  {
    if EndsInSpace(s) then TrimRight(s[..|s| - 1]) else s
  }

  predicate EndsInSpace(s: string) {
    s != "" && IsSpace(s[|s| - 1])
  }

  function TrimSpace(s: string): string {
    TrimRight(TrimLeft(s))
  }

  function Slashed(s: string): (t: string)
    ensures |t| == |s|
    ensures forall i :: 0 <= i < |s| ==> t[i] == if s[i] == '\\' then '/' else s[i]
  {
    if s == "" then "" else [if s[0] == '\\' then '/' else s[0]] + Slashed(s[1..])
  }

  // ---------------------------------------------------------------------------------------------
  // Segments
  // ---------------------------------------------------------------------------------------------

  function Split(s: string): (segs: seq<string>)
    ensures |segs| > 0
  {
    if s == "" then [""]
    else
      var rest := Split(s[1..]);
      if s[0] == '/' then [""] + rest else [[s[0]] + rest[0]] + rest[1..]
  }

  function Join(segs: seq<string>): string {
    if segs == [] then "" else if |segs| == 1 then segs[0] else segs[0] + "/" + Join(segs[1..])
  }

  /** The absolute path with the given segments. */
  function Abs(segs: seq<string>): (p: string)
    ensures p != "" && p[0] == '/'
  {
    "/" + Join(segs)
  }

  lemma SplitStep(c: char, a: seq<string>, b: seq<string>)
    requires a != []
    ensures [""] + (a + b) == [""] + a + b
    ensures [[c] + (a + b)[0]] + (a + b)[1..] == [[c] + a[0]] + a[1..] + b
  {
    assert (a + b)[1..] == a[1..] + b;
  }

  lemma {:induction false} SplitConcat(a: string, b: string)
    ensures Split(a + "/" + b) == Split(a) + Split(b)
  {
    if a == "" {
      assert (a + "/" + b)[1..] == b;
      assert (a + "/" + b)[0] == '/';
    } else {
      assert (a + "/" + b)[1..] == a[1..] + "/" + b;
      assert (a + "/" + b)[0] == a[0];
      SplitConcat(a[1..], b);
      SplitStep(a[0], Split(a[1..]), Split(b));
    }
  }

  lemma {:induction false} SplitSegment(s: string)
    requires '/' !in s
    ensures Split(s) == [s]
  {
    if s != "" {
      SplitSegment(s[1..]);
      assert s == [s[0]] + s[1..];
    }
  }

  predicate SlashFree(segs: seq<string>) {
    forall s :: s in segs ==> '/' !in s
  }

  lemma {:induction false} SplitJoin(segs: seq<string>)
    requires segs != [] && SlashFree(segs)
    ensures Split(Join(segs)) == segs
  {
    SplitSegment(segs[0]);
    if |segs| > 1 {
      SplitJoin(segs[1..]);
      SplitConcat(segs[0], Join(segs[1..]));
      assert segs == [segs[0]] + segs[1..];
    }
  }

  lemma {:induction false} JoinSplit(s: string)
    ensures Join(Split(s)) == s
    ensures SlashFree(Split(s))
  {
    if s != "" {
      JoinSplit(s[1..]);
      var rest := Split(s[1..]);
      if s[0] == '/' {
        assert Split(s)[1..] == rest;
      } else if |rest| > 1 {
        assert Split(s)[1..] == rest[1..];
      }
      assert s == [s[0]] + s[1..];
    }
  }

  // ---------------------------------------------------------------------------------------------
  // Cleaning
  // ---------------------------------------------------------------------------------------------

  /** Empty and dot segments go; a double dot takes the segment before it along. */
  function CleanSegments(done: seq<string>, segs: seq<string>, rooted: bool): seq<string>
    decreases |segs|
  {
    if segs == [] then done
    else if segs[0] == "" || segs[0] == "." then CleanSegments(done, segs[1..], rooted)
    else if segs[0] == ".." && done != [] && done[|done| - 1] != ".." then
      CleanSegments(done[..|done| - 1], segs[1..], rooted)
    else if segs[0] == ".." && rooted then CleanSegments(done, segs[1..], rooted)
    else CleanSegments(done + [segs[0]], segs[1..], rooted)
  }

  predicate Rooted(s: string) {
    s != "" && s[0] == '/'
  }

  /** filepath.Clean */
  function Clean(s: string): string {
    var segs := CleanSegments([], Split(s), Rooted(s));
    if Rooted(s) then Abs(segs) else if segs == [] then "." else Join(segs)
  }

  /** The segments that name something. */
  function Proper(segs: seq<string>): seq<string> {
    if segs == [] then []
    else (if segs[0] == "" || segs[0] == "." then [] else [segs[0]]) + Proper(segs[1..])
  }

  lemma {:induction false} CleanWithoutDoubleDots(done: seq<string>, segs: seq<string>, rooted: bool)
    requires ".." !in segs
    ensures CleanSegments(done, segs, rooted) == done + Proper(segs)
    decreases |segs|
  {
    if segs != [] {
      assert forall s :: s in segs[1..] ==> s in segs;
      assert segs[0] in segs;
      var rest := Proper(segs[1..]);
      if segs[0] == "" || segs[0] == "." {
        CleanWithoutDoubleDots(done, segs[1..], rooted);
        assert [] + rest == rest;
      } else {
        CleanWithoutDoubleDots(done + [segs[0]], segs[1..], rooted);
        assert done + [segs[0]] + rest == done + ([segs[0]] + rest);
      }
    }
  }

  lemma {:induction false} ProperConcat(a: seq<string>, b: seq<string>)
    ensures Proper(a + b) == Proper(a) + Proper(b)
  {
    if a == [] {
      assert a + b == b;
    } else {
      assert (a + b)[1..] == a[1..] + b;
      ProperConcat(a[1..], b);
    }
  }

  /** Segments a clean absolute path is made of. */
  predicate IsClean(segs: seq<string>) {
    forall s :: s in segs ==> s != "" && s != "." && s != ".." && '/' !in s
  }

  lemma {:induction false} ProperIsClean(segs: seq<string>)
    requires ".." !in segs && SlashFree(segs)
    ensures IsClean(Proper(segs))
    ensures IsClean(segs) ==> Proper(segs) == segs
  {
    if segs != [] {
      assert forall s :: s in segs[1..] ==> s in segs;
      ProperIsClean(segs[1..]);
      assert segs == [segs[0]] + segs[1..];
      assert segs[0] in segs;
    }
  }

  lemma SplitAbs(segs: seq<string>)
    requires IsClean(segs)
    ensures ".." !in Split(Abs(segs)) && Proper(Split(Abs(segs))) == segs
  {
    SplitConcat("", Join(segs));
    assert "" + "/" + Join(segs) == Abs(segs);
    assert Split("") == [""];
    if segs == [] {
      assert Split(Abs(segs)) == ["", ""];
    } else {
      SplitJoin(segs);
      ProperConcat([""], segs);
      ProperIsClean(segs);
    }
  }

  lemma CleanAbs(segs: seq<string>)
    requires IsClean(segs)
    ensures Clean(Abs(segs)) == Abs(segs)
  {
    SplitAbs(segs);
    CleanWithoutDoubleDots([], Split(Abs(segs)), true);
    assert [] + segs == segs;
  }

  lemma {:induction false} JoinConcat(a: seq<string>, b: seq<string>)
    requires a != [] && b != []
    ensures Join(a + b) == Join(a) + "/" + Join(b)
  {
    if |a| == 1 {
      assert (a + b)[1..] == b;
    } else {
      assert (a + b)[1..] == a[1..] + b;
      JoinConcat(a[1..], b);
    }
  }

  // ---------------------------------------------------------------------------------------------
  // The path validator
  // ---------------------------------------------------------------------------------------------

  datatype PathError = InvalidPath | Traversal

  predicate HasControl(s: string) {
    exists i :: 0 <= i < |s| && IsControl(s[i])
  }

  function TrimSlash(s: string): string {
    if Rooted(s) then s[1..] else s
  }

  /** filepath.Join of two elements that are not empty */
  function JoinPath(dir: string, rel: string): string {
    Clean(dir + "/" + rel)
  }

  predicate IsWithinRoot(root: string, candidate: string) {
    Clean(candidate) == Clean(root) || Clean(root) + "/" <= Clean(candidate)
  }

  function ResolvePath(root: string, clientPath: string): Result<string, PathError> {
    ResolveNormalized(root, Slashed(TrimSpace(clientPath)))
  }

  function ResolveNormalized(root: string, normalized: string): Result<string, PathError> {
    if normalized == "" || normalized == "/" then Ok(root)
    else if HasControl(normalized) then Err(InvalidPath)
    else if ".." in Split(normalized) then Err(Traversal)
    else
      var rel := Clean(TrimSlash(normalized));
      if rel == "." then Ok(root)
      else
        var resolved := Clean(JoinPath(root, rel));
        if IsWithinRoot(root, resolved) then Ok(resolved) else Err(Traversal)
  }

  /** What a client path names: the segments of its trimmed form that are neither empty nor a dot. */
  function Named(clientPath: string): seq<string> {
    Proper(Split(Slashed(TrimSpace(clientPath))))
  }

  lemma TrimSlashSplits(s: string)
    ensures Proper(Split(TrimSlash(s))) == Proper(Split(s))
    ensures ".." in Split(TrimSlash(s)) ==> ".." in Split(s)
  {
    if Rooted(s) {
      SplitConcat("", s[1..]);
      assert "" + "/" + s[1..] == s;
      assert Split("") == [""];
      ProperConcat([""], Split(s[1..]));
      assert Proper([""]) == [];
    }
  }

  /** Cleaning keeps what a path without double dots names. */
  lemma CleanNames(s: string)
    requires ".." !in Split(s)
    ensures Clean(s) == if Rooted(s) then Abs(Proper(Split(s)))
                        else if Proper(Split(s)) == [] then "." else Join(Proper(Split(s)))
    ensures IsClean(Proper(Split(s)))
    ensures ".." !in Split(Clean(s)) && Proper(Split(Clean(s))) == Proper(Split(s))
  {
    var segs := Proper(Split(s));
    JoinSplit(s);
    ProperIsClean(Split(s));
    CleanWithoutDoubleDots([], Split(s), Rooted(s));
    assert [] + segs == segs;
    if Rooted(s) {
      SplitAbs(segs);
    } else if segs == [] {
      SplitSegment(".");
    } else {
      SplitJoin(segs);
      ProperIsClean(segs);
    }
  }

  lemma AbsConcat(rs: seq<string>, segs: seq<string>)
    requires rs != [] && segs != []
    ensures Abs(rs + segs) == Abs(rs) + "/" + Join(segs)
  {
    JoinConcat(rs, segs);
  }

  lemma NonEmptyJoin(segs: seq<string>)
    requires IsClean(segs) && segs != []
    ensures Join(segs) != "" && Join(segs)[0] != '/'
  {
    assert segs[0] in segs;
    assert segs[0][0] in segs[0];
    assert Join(segs)[0] == segs[0][0];
  }

  lemma JoinIsNotDot(segs: seq<string>)
    requires IsClean(segs) && segs != []
    ensures Join(segs) != "."
  {
    SplitJoin(segs);
    SplitSegment(".");
    assert segs[0] in segs;
  }

  lemma WithinRoot(rs: seq<string>, segs: seq<string>)
    requires IsClean(rs) && IsClean(segs)
    ensures IsWithinRoot(Abs(rs), Abs(rs + segs)) <==> rs != [] || segs == []
  {
    CleanAbs(rs);
    CleanAbs(rs + segs);
    if segs == [] {
      assert rs + segs == rs;
    } else {
      NonEmptyJoin(segs);
      if rs == [] {
        assert rs + segs == segs;
        assert Abs(segs)[1] == Join(segs)[0];
      } else {
        AbsConcat(rs, segs);
      }
    }
  }

  lemma JoinNames(rs: seq<string>, rel: string)
    requires IsClean(rs) && ".." !in Split(rel)
    ensures JoinPath(Abs(rs), rel) == Abs(rs + Proper(Split(rel)))
    ensures IsClean(rs + Proper(Split(rel)))
  {
    var s := Abs(rs) + "/" + rel;
    SplitConcat(Abs(rs), rel);
    SplitAbs(rs);
    ProperConcat(Split(Abs(rs)), Split(rel));
    assert Rooted(s);
    CleanNames(s);
  }

  /**
   The validator accepts exactly the paths without control characters and double dots, and the result
   is the root followed by what the path names.  Only below the root "/" does the containment test,
   which looks for the root with one more slash, refuse anything.
   */
  lemma ResolvesExactly(rs: seq<string>, clientPath: string)
    requires IsClean(rs)
    ensures
      var normalized := Slashed(TrimSpace(clientPath));
      ResolvePath(Abs(rs), clientPath) ==
        if HasControl(normalized) then Err(InvalidPath)
        else if ".." in Split(normalized) then Err(Traversal)
        else if rs == [] && Named(clientPath) != [] then Err(Traversal)
        else Ok(Abs(rs + Named(clientPath)))
  {
    var normalized := Slashed(TrimSpace(clientPath));
    if normalized == "" || normalized == "/" {
      assert Split("") == [""] && Split("/") == ["", ""];
      assert Named(clientPath) == [];
      assert rs + [] == rs;
    } else if !HasControl(normalized) && ".." !in Split(normalized) {
      ResolvesNames(rs, normalized);
    }
  }

  lemma ResolvesNames(rs: seq<string>, normalized: string)
    requires IsClean(rs) && ".." !in Split(normalized)
    ensures
      var segs := Proper(Split(normalized));
      var rel := Clean(TrimSlash(normalized));
      var resolved := Clean(JoinPath(Abs(rs), rel));
      && (rel == "." ==> segs == [] && Abs(rs) == Abs(rs + segs))
      && resolved == Abs(rs + segs)
      && (IsWithinRoot(Abs(rs), resolved) <==> rs != [] || segs == [])
  {
    var segs := Proper(Split(normalized));
    var rel := Clean(TrimSlash(normalized));
    TrimSlashSplits(normalized);
    CleanNames(TrimSlash(normalized));
    JoinNames(rs, rel);
    CleanAbs(rs + segs);
    WithinRoot(rs, segs);
    if rel == "." {
      SplitSegment(".");
      assert rs + segs == rs;
    }
  }

  /** Every accepted path stays at the root or below it, in clean form. */
  lemma ResolvedIsContained(rs: seq<string>, clientPath: string)
    requires IsClean(rs) && ResolvePath(Abs(rs), clientPath).Ok?
    ensures
      var resolved := ResolvePath(Abs(rs), clientPath).value;
      && Clean(resolved) == resolved
      && (resolved == Abs(rs) || Abs(rs) + "/" <= resolved)
  {
    ResolvesExactly(rs, clientPath);
    var normalized := Slashed(TrimSpace(clientPath));
    JoinSplit(normalized);
    ProperIsClean(Split(normalized));
    CleanAbs(rs + Named(clientPath));
    if Named(clientPath) == [] {
      assert rs + Named(clientPath) == rs;
    } else {
      AbsConcat(rs, Named(clientPath));
    }
  }

  // ---------------------------------------------------------------------------------------------
  // API paths
  // ---------------------------------------------------------------------------------------------

  function NormalizeAPIPath(path: string): string {
    var cleaned := Clean(TrimSpace(path));
    if cleaned == "." || cleaned == "" then "/"
    else if Rooted(cleaned) then cleaned
    else "/" + cleaned
  }

  /** filepath.Rel on the segments of two clean absolute paths: up from base, then down to target. */
  function RelSegments(base: seq<string>, target: seq<string>): seq<string> {
    if base != [] && target != [] && base[0] == target[0] then RelSegments(base[1..], target[1..])
    else seq(|base|, _ => "..") + target
  }

  function Rel(base: string, target: string): string {
    var segs := RelSegments(Proper(Split(Clean(base))), Proper(Split(Clean(target))));
    if segs == [] then "." else Join(segs)
  }

  function ToAPIPath(absPath: string, root: string): string {
    var rel := Rel(root, absPath);
    if rel == "." || rel == "" then "/" else NormalizeAPIPath("/" + rel)
  }

  lemma {:induction false} RelBelow(rs: seq<string>, segs: seq<string>)
    ensures RelSegments(rs, rs + segs) == segs
  {
    if rs == [] {
      assert rs + segs == segs;
    } else {
      assert (rs + segs)[1..] == rs[1..] + segs;
      RelBelow(rs[1..], segs);
    }
  }

  lemma NormalizeSlash()
    ensures NormalizeAPIPath("/") == "/"
  {
    assert IsClean([]);
    CleanAbs([]);
    assert TrimLeft("/") == "/";
    assert TrimSpace("/") == "/";
  }

  lemma RelOfAbs(rs: seq<string>, segs: seq<string>)
    requires IsClean(rs) && IsClean(segs)
    ensures Rel(Abs(rs), Abs(rs + segs)) == if segs == [] then "." else Join(segs)
  {
    CleanAbs(rs);
    CleanAbs(rs + segs);
    SplitAbs(rs);
    SplitAbs(rs + segs);
    RelBelow(rs, segs);
  }

  lemma ToAPIPathNormalizes(rs: seq<string>, segs: seq<string>)
    requires IsClean(rs) && IsClean(segs)
    ensures ToAPIPath(Abs(rs + segs), Abs(rs)) == NormalizeAPIPath(Abs(segs))
  {
    RelOfAbs(rs, segs);
    NormalizeSlash();
    if segs != [] {
      NonEmptyJoin(segs);
      JoinIsNotDot(segs);
    }
  }

  /** Without double dots, the API path lists what the trimmed path names. */
  lemma NormalizeNames(path: string)
    requires ".." !in Split(TrimSpace(path))
    ensures IsClean(Proper(Split(TrimSpace(path))))
    ensures NormalizeAPIPath(path) == Abs(Proper(Split(TrimSpace(path))))
  {
    var segs := Proper(Split(TrimSpace(path)));
    CleanNames(TrimSpace(path));
    if segs != [] {
      NonEmptyJoin(segs);
      JoinIsNotDot(segs);
    }
  }

  // How long a path is when its segments are written out.

  function Width(segs: seq<string>): nat {
    if segs == [] then 0 else |segs[0]| + 1 + Width(segs[1..])
  }

  lemma {:induction false} WidthConcat(a: seq<string>, b: seq<string>)
    ensures Width(a + b) == Width(a) + Width(b)
  {
    if a == [] {
      assert a + b == b;
    } else {
      assert (a + b)[1..] == a[1..] + b;
      WidthConcat(a[1..], b);
    }
  }

  lemma {:induction false} WidthJoin(segs: seq<string>)
    requires segs != []
    ensures |Join(segs)| + 1 == Width(segs)
  {
    if |segs| > 1 {
      WidthJoin(segs[1..]);
    }
  }

  lemma {:induction false} CleanIsNotWider(done: seq<string>, segs: seq<string>, rooted: bool)
    ensures Width(CleanSegments(done, segs, rooted)) <= Width(done) + Width(segs)
    decreases |segs|
  {
    if segs != [] {
      if segs[0] == ".." && done != [] && done[|done| - 1] != ".." {
        assert done == done[..|done| - 1] + [done[|done| - 1]];
        WidthConcat(done[..|done| - 1], [done[|done| - 1]]);
        CleanIsNotWider(done[..|done| - 1], segs[1..], rooted);
      } else if segs[0] == "" || segs[0] == "." || (segs[0] == ".." && rooted) {
        CleanIsNotWider(done, segs[1..], rooted);
      } else {
        WidthConcat(done, [segs[0]]);
        CleanIsNotWider(done + [segs[0]], segs[1..], rooted);
      }
    }
  }

  lemma CleanIsNotLonger(s: string)
    requires Rooted(s)
    ensures |Clean(s)| <= |s|
  {
    var segs := Split(s[1..]);
    SplitConcat("", s[1..]);
    assert "" + "/" + s[1..] == s;
    assert Split(s) == [""] + segs;
    assert CleanSegments([], Split(s), true) == CleanSegments([], segs, true);
    CleanIsNotWider([], segs, true);
    JoinSplit(s[1..]);
    WidthJoin(segs);
    var cleaned := CleanSegments([], segs, true);
    if cleaned != [] {
      WidthJoin(cleaned);
    }
  }

  /** A clean absolute path is its own API path exactly when it does not end in white space. */
  lemma NormalizeFixes(segs: seq<string>)
    requires IsClean(segs)
    ensures NormalizeAPIPath(Abs(segs)) == Abs(segs) <==> !EndsInSpace(Abs(segs))
  {
    var path := Abs(segs);
    assert TrimLeft(path) == path;
    if EndsInSpace(path) {
      var shorter := TrimRight(path);
      assert !IsSpace(path[0]);
      TrimKeepsRoot(path);
      CleanIsNotLonger(shorter);
    } else {
      CleanAbs(segs);
    }
  }

  lemma {:induction false} TrimKeepsRoot(s: string)
    requires Rooted(s)
    ensures Rooted(TrimRight(s))
  {
    if EndsInSpace(s) {
      assert |s| > 1;
      TrimKeepsRoot(s[..|s| - 1]);
    }
  }

  // Backslashes: the validator reads them as slashes, the API path keeps them.

  predicate Bare(segs: seq<string>) {
    forall s :: s in segs ==> '\\' !in s
  }

  lemma SlashedKeeps(s: string)
    ensures '\\' !in Slashed(s)
    ensures '\\' !in s ==> Slashed(s) == s
  {
  }

  lemma {:induction false} BareSplit(s: string)
    ensures Bare(Split(s)) <==> '\\' !in s
  {
    if s != "" {
      BareSplit(s[1..]);
      var rest := Split(s[1..]);
      assert s == [s[0]] + s[1..];
      if s[0] == '/' {
        assert Split(s) == [""] + rest;
        assert forall x :: x in rest ==> x in Split(s);
      } else {
        assert Split(s) == [[s[0]] + rest[0]] + rest[1..];
        assert rest == [rest[0]] + rest[1..];
        assert ([s[0]] + rest[0]) in Split(s);
        assert rest[0] in rest;
        assert forall x :: x in rest[1..] ==> x in Split(s) && x in rest;
      }
    }
  }

  lemma {:induction false} BareProper(segs: seq<string>)
    ensures Bare(Proper(segs)) <==> Bare(segs)
  {
    if segs != [] {
      BareProper(segs[1..]);
      assert segs == [segs[0]] + segs[1..];
      assert segs[0] in segs;
    }
  }

  lemma {:induction false} BareJoin(segs: seq<string>)
    requires SlashFree(segs)
    ensures '\\' in Abs(segs) <==> !Bare(segs)
  {
    if segs != [] {
      SplitJoin(segs);
      BareSplit(Join(segs));
    }
  }

  lemma {:induction false} BareClean(done: seq<string>, segs: seq<string>, rooted: bool)
    requires Bare(done) && Bare(segs)
    ensures Bare(CleanSegments(done, segs, rooted))
    decreases |segs|
  {
    if segs != [] {
      assert segs[0] in segs;
      if segs[0] == ".." && done != [] && done[|done| - 1] != ".." {
        BareClean(done[..|done| - 1], segs[1..], rooted);
      } else if segs[0] == "" || segs[0] == "." || (segs[0] == ".." && rooted) {
        BareClean(done, segs[1..], rooted);
      } else {
        BareClean(done + [segs[0]], segs[1..], rooted);
      }
    }
  }

  /** What cleaning leaves: names, and double dots only at the start of a relative path. */
  lemma {:induction false} CleanShape(done: seq<string>, segs: seq<string>, rooted: bool)
    requires SlashFree(done) && SlashFree(segs)
    requires "" !in done && "." !in done && (rooted ==> ".." !in done)
    ensures
      var cleaned := CleanSegments(done, segs, rooted);
      SlashFree(cleaned) && "" !in cleaned && "." !in cleaned && (rooted ==> ".." !in cleaned)
    decreases |segs|
  {
    if segs != [] {
      assert segs[0] in segs;
      if segs[0] == ".." && done != [] && done[|done| - 1] != ".." {
        CleanShape(done[..|done| - 1], segs[1..], rooted);
      } else if segs[0] == "" || segs[0] == "." || (segs[0] == ".." && rooted) {
        CleanShape(done, segs[1..], rooted);
      } else {
        CleanShape(done + [segs[0]], segs[1..], rooted);
      }
    }
  }

  /** The API path of any string: the cleaned segments, written from the root. */
  lemma NormalizeIsAbs(path: string) returns (segs: seq<string>)
    ensures NormalizeAPIPath(path) == Abs(segs)
    ensures var s := TrimSpace(path); segs == CleanSegments([], Split(s), Rooted(s))
    ensures SlashFree(segs) && "" !in segs && "." !in segs
    ensures Rooted(TrimSpace(path)) ==> IsClean(segs)
    ensures '\\' !in path ==> Bare(segs)
  {
    var s := TrimSpace(path);
    segs := CleanSegments([], Split(s), Rooted(s));
    JoinSplit(s);
    CleanShape([], Split(s), Rooted(s));
    TrimKeepsBare(path);
    BareSplit(s);
    if '\\' !in path {
      BareClean([], Split(s), Rooted(s));
    }
    if segs != [] && !Rooted(s) {
      SplitJoin(segs);
      SplitSegment(".");
      assert segs[0] in segs;
      assert segs[0][0] in segs[0];
      assert Join(segs)[0] == segs[0][0];
    }
  }

  lemma {:induction false} TrimKeepsBare(s: string)
    ensures '\\' in TrimSpace(s) <==> '\\' in s
  {
    TrimLeftKeepsBare(s);
    TrimRightKeepsBare(TrimLeft(s));
  }

  lemma {:induction false} TrimLeftKeepsBare(s: string)
    ensures '\\' in TrimLeft(s) <==> '\\' in s
  {
    if s != "" && IsSpace(s[0]) {
      TrimLeftKeepsBare(s[1..]);
      assert s == [s[0]] + s[1..];
    }
  }

  lemma {:induction false} TrimRightKeepsBare(s: string)
    ensures '\\' in TrimRight(s) <==> '\\' in s
  {
    if EndsInSpace(s) {
      TrimRightKeepsBare(s[..|s| - 1]);
      assert s == s[..|s| - 1] + [s[|s| - 1]];
    }
  }

  /** Segments without a backslash are segments still when backslashes are read as slashes. */
  lemma {:induction false} SlashedSplits(s: string, x: string)
    requires '\\' !in x
    ensures Split(s)[0] == x ==> Split(Slashed(s))[0] == x
    ensures x in Split(s)[1..] ==> x in Split(Slashed(s))[1..]
    ensures x in Split(s) ==> x in Split(Slashed(s))
  {
    if s != "" {
      var rest := Split(s[1..]);
      if s[0] == '/' || s[0] == '\\' {
        SlashedSplits(s[1..], x);
        assert Split(Slashed(s))[1..] == Split(Slashed(s[1..]));
        assert rest == [rest[0]] + rest[1..];
      } else {
        if x != "" && x[0] == s[0] {
          SlashedSplits(s[1..], x[1..]);
          assert x == [x[0]] + x[1..];
        }
        SlashedSplits(s[1..], x);
      }
      assert Split(s) == [Split(s)[0]] + Split(s)[1..];
    }
  }

  /** The round trip of an accepted path: the API path of what it resolves to. */
  lemma ResolvedAPIPath(rs: seq<string>, clientPath: string)
    requires IsClean(rs) && ResolvePath(Abs(rs), clientPath).Ok?
    ensures IsClean(Named(clientPath)) && Bare(Named(clientPath))
    ensures
      var resolved := ResolvePath(Abs(rs), clientPath).value;
      ToAPIPath(resolved, Abs(rs)) == NormalizeAPIPath(Abs(Named(clientPath)))
  {
    ResolvesExactly(rs, clientPath);
    var normalized := Slashed(TrimSpace(clientPath));
    JoinSplit(normalized);
    ProperIsClean(Split(normalized));
    SlashedKeeps(TrimSpace(clientPath));
    BareSplit(normalized);
    BareProper(Split(normalized));
    ToAPIPathNormalizes(rs, Named(clientPath));
  }

  lemma RoundTripByResult(rs: seq<string>, clientPath: string)
    requires IsClean(rs) && ResolvePath(Abs(rs), clientPath).Ok?
    ensures
      var resolved := ResolvePath(Abs(rs), clientPath).value;
      var apiPath := NormalizeAPIPath(clientPath);
      ToAPIPath(resolved, Abs(rs)) == apiPath <==> '\\' !in clientPath && !EndsInSpace(apiPath)
  {
    ResolvesExactly(rs, clientPath);
    ResolvedAPIPath(rs, clientPath);
    SlashedSplits(TrimSpace(clientPath), "..");
    NormalizeNames(clientPath);
    TrimKeepsBare(clientPath);
    SlashedKeeps(TrimSpace(clientPath));
    if '\\' in clientPath {
      BareSplit(TrimSpace(clientPath));
      BareProper(Split(TrimSpace(clientPath)));
      BareJoin(Proper(Split(TrimSpace(clientPath))));
      BareJoin(Named(clientPath));
      var segs := NormalizeIsAbs(Abs(Named(clientPath)));
      BareJoin(segs);
    } else {
      NormalizeFixes(Named(clientPath));
    }
  }

  lemma IdempotentByResult(path: string)
    ensures
      var apiPath := NormalizeAPIPath(path);
      NormalizeAPIPath(apiPath) == apiPath <==> !EndsInSpace(apiPath) && ".." !in Split(apiPath)
  {
    var apiPath := NormalizeAPIPath(path);
    var segs := NormalizeIsAbs(path);
    SplitConcat("", Join(segs));
    assert "" + "/" + Join(segs) == Abs(segs);
    if segs != [] {
      SplitJoin(segs);
    }
    if ".." !in segs {
      SplitAbs(segs);
      NormalizeFixes(segs);
    } else {
      assert ".." in Split(apiPath);
      assert TrimLeft(apiPath) == apiPath;
      TrimKeepsRoot(apiPath);
      var again := NormalizeIsAbs(apiPath);
      SplitAbs(again);
    }
  }

  // The conditions on the input.

  predicate LastEndsInSpace(segs: seq<string>) {
    segs != [] && EndsInSpace(segs[|segs| - 1])
  }

  lemma {:induction false} AbsEnds(segs: seq<string>)
    requires "" !in segs
    ensures EndsInSpace(Abs(segs)) <==> LastEndsInSpace(segs)
  {
    if |segs| > 1 {
      AbsEnds(segs[1..]);
      assert segs[1] in segs;
      assert Abs(segs)[|Abs(segs)| - 1] == Abs(segs[1..])[|Abs(segs[1..])| - 1];
    } else if |segs| == 1 {
      assert segs[0] in segs;
    }
  }

  /**
   The API path of a resolved path is the API path of the client's string exactly when that string has
   no backslash and the last segment it names does not end in white space.
   */
  lemma APIPathRoundTrip(rs: seq<string>, clientPath: string)
    requires IsClean(rs) && ResolvePath(Abs(rs), clientPath).Ok?
    ensures
      var resolved := ResolvePath(Abs(rs), clientPath).value;
      ToAPIPath(resolved, Abs(rs)) == NormalizeAPIPath(clientPath)
      <==> '\\' !in clientPath && !LastEndsInSpace(Named(clientPath))
  {
    RoundTripByResult(rs, clientPath);
    if '\\' !in clientPath {
      ResolvesExactly(rs, clientPath);
      ResolvedAPIPath(rs, clientPath);
      TrimKeepsBare(clientPath);
      SlashedKeeps(TrimSpace(clientPath));
      NormalizeNames(clientPath);
      AbsEnds(Named(clientPath));
    }
  }

  /** Some double dot comes before there are names enough for it, depth names being there at the start. */
  predicate Climbs(segs: seq<string>, depth: nat) {
    if segs == [] then false
    else if segs[0] == "" || segs[0] == "." then Climbs(segs[1..], depth)
    else if segs[0] == ".." then depth == 0 || Climbs(segs[1..], depth - 1)
    else Climbs(segs[1..], depth + 1)
  }

  /** The last name that no double dot after it takes away, when skip names are to go already. */
  function LastKept(segs: seq<string>, skip: nat): Option<string> {
    if segs == [] then None
    else
      var rest, last := segs[..|segs| - 1], segs[|segs| - 1];
      if last == "" || last == "." then LastKept(rest, skip)
      else if last == ".." then LastKept(rest, skip + 1)
      else if skip > 0 then LastKept(rest, skip - 1)
      else Some(last)
  }

  /** The path does not climb above where it starts, and the last name kept does not end in white space. */
  predicate Settles(path: string) {
    var s := TrimSpace(path);
    var kept := LastKept(Split(s), 0);
    (Rooted(s) || !Climbs(Split(s), 0)) && (kept.Some? ==> !EndsInSpace(kept.value))
  }

  lemma {:induction false} DoubleDotStays(done: seq<string>, segs: seq<string>)
    requires ".." in done
    ensures ".." in CleanSegments(done, segs, false)
    decreases |segs|
  {
    if segs != [] {
      if segs[0] == ".." && done[|done| - 1] != ".." {
        assert done == done[..|done| - 1] + [done[|done| - 1]];
        DoubleDotStays(done[..|done| - 1], segs[1..]);
      } else if segs[0] == "" || segs[0] == "." {
        DoubleDotStays(done, segs[1..]);
      } else {
        DoubleDotStays(done + [segs[0]], segs[1..]);
      }
    }
  }

  lemma {:induction false} CleanClimbs(done: seq<string>, segs: seq<string>)
    requires ".." !in done
    ensures ".." in CleanSegments(done, segs, false) <==> Climbs(segs, |done|)
    ensures !Climbs(segs, |done|) ==> CleanSegments(done, segs, false) == CleanSegments(done, segs, true)
    decreases |segs|
  {
    if segs != [] {
      if segs[0] == ".." && done == [] {
        assert [] + [".."] == [".."];
        DoubleDotStays([".."], segs[1..]);
      } else if segs[0] == ".." {
        assert done[|done| - 1] in done;
        CleanClimbs(done[..|done| - 1], segs[1..]);
      } else if segs[0] == "" || segs[0] == "." {
        CleanClimbs(done, segs[1..]);
      } else {
        CleanClimbs(done + [segs[0]], segs[1..]);
      }
    }
  }

  lemma {:induction false} CleanInTwo(done: seq<string>, a: seq<string>, b: seq<string>, rooted: bool)
    ensures CleanSegments(done, a + b, rooted) == CleanSegments(CleanSegments(done, a, rooted), b, rooted)
    decreases |a|
  {
    if a == [] {
      assert a + b == b;
    } else {
      assert (a + b)[0] == a[0] && (a + b)[1..] == a[1..] + b;
      if a[0] == "" || a[0] == "." {
        CleanInTwo(done, a[1..], b, rooted);
      } else if a[0] == ".." && done != [] && done[|done| - 1] != ".." {
        CleanInTwo(done[..|done| - 1], a[1..], b, rooted);
      } else if a[0] == ".." && rooted {
        CleanInTwo(done, a[1..], b, rooted);
      } else {
        CleanInTwo(done + [a[0]], a[1..], b, rooted);
      }
    }
  }

  lemma CleanLast(done: seq<string>, x: string)
    requires ".." !in done
    ensures CleanSegments(done, [x], true) ==
            if x == "" || x == "." then done
            else if x == ".." then if done == [] then [] else done[..|done| - 1]
            else done + [x]
  {
    assert [x][1..] == [];
    if done != [] {
      assert done[|done| - 1] in done;
    }
  }

  lemma {:induction false} KeptIsLast(segs: seq<string>, skip: nat)
    ensures var cleaned := CleanSegments([], segs, true);
            && ".." !in cleaned
            && LastKept(segs, skip) == if |cleaned| > skip then Some(cleaned[|cleaned| - 1 - skip]) else None
  {
    if segs != [] {
      var rest, last := segs[..|segs| - 1], segs[|segs| - 1];
      assert segs == rest + [last];
      KeptIsLast(rest, if last == "" || last == "." then skip else if last == ".." then skip + 1
                       else if skip > 0 then skip - 1 else 0);
      CleanInTwo([], rest, [last], true);
      CleanLast(CleanSegments([], rest, true), last);
    }
  }

  /** The segments of the API path. */
  lemma NormalizeIsJoined(path: string) returns (segs: seq<string>)
    ensures var s := TrimSpace(path); segs == CleanSegments([], Split(s), Rooted(s))
    ensures ".." in Split(NormalizeAPIPath(path)) <==> ".." in segs
    ensures EndsInSpace(NormalizeAPIPath(path)) <==> LastEndsInSpace(segs)
  {
    segs := NormalizeIsAbs(path);
    SplitConcat("", Join(segs));
    assert "" + "/" + Join(segs) == Abs(segs);
    if segs != [] {
      SplitJoin(segs);
    }
    AbsEnds(segs);
  }

  lemma SettlesBySegments(path: string, segs: seq<string>)
    requires var s := TrimSpace(path); segs == CleanSegments([], Split(s), Rooted(s))
    ensures ".." !in segs && !LastEndsInSpace(segs) <==> Settles(path)
  {
    CleanClimbs([], Split(TrimSpace(path)));
    KeptIsLast(Split(TrimSpace(path)), 0);
  }

  /** Taking the API path of an API path changes nothing exactly when the path settles. */
  lemma NormalizeIsIdempotentIff(path: string)
    ensures NormalizeAPIPath(NormalizeAPIPath(path)) == NormalizeAPIPath(path) <==> Settles(path)
  {
    IdempotentByResult(path);
    var segs := NormalizeIsJoined(path);
    SettlesBySegments(path, segs);
  }

  lemma SplitsBetweenSlashes(name: string)
    requires '/' !in name
    ensures Split("/" + name + "/") == ["", name, ""]
  {
    SplitSegment(name);
    SplitConcat(name, "");
    assert name + "/" + "" == name + "/";
    SplitConcat("", name + "/");
    assert "" + "/" + (name + "/") == "/" + name + "/";
    assert [""] + ([name] + [""]) == ["", name, ""];
  }

  lemma ProperOfOne(name: string)
    requires IsClean([name])
    ensures Proper(["", name, ""]) == [name]
  {
    assert name in [name];
    assert ["", name, ""] == [""] + [name] + [""];
    ProperConcat([""] + [name], [""]);
    ProperConcat([""], [name]);
    assert [""][1..] == [] && [name][1..] == [];
  }

  /** White space is trimmed from the end of a path, but not from the end of a name before a slash. */
  lemma SpaceBeforeSlash(name: string)
    requires IsClean([name]) && EndsInSpace(name)
    ensures NormalizeAPIPath("/" + name + "/") == "/" + name
    ensures NormalizeAPIPath("/" + name) != "/" + name
  {
    var path := "/" + name + "/";
    assert name in [name];
    SplitsBetweenSlashes(name);
    ProperOfOne(name);
    assert TrimLeft(path) == path && TrimSpace(path) == path;
    NormalizeNames(path);
    assert Abs([name]) == "/" + name;
    NormalizeFixes([name]);
    AbsEnds([name]);
  }

  /** So "/a /" becomes "/a ", which is not its own API path. */
  lemma TrailingSpaceExample()
    ensures NormalizeAPIPath("/a /") == "/a " && NormalizeAPIPath("/a ") != "/a "
  {
    SpaceBeforeSlash("a ");
    assert "/" + "a " + "/" == "/a /" && "/" + "a " == "/a ";
  }

  /** And ".." becomes "/..", which is not its own API path either. */
  lemma ClimbingExample()
    ensures NormalizeAPIPath("..") == "/.." && NormalizeAPIPath("/..") == "/"
  {
    SplitSegment("..");
    SplitConcat("", "..");
    assert "" + "/" + ".." == "/..";
    assert ["", ".."][1..] == [".."] && [".."][1..] == [];
  }

  lemma {:induction false} TrimLeftOfSlashed(s: string)
    ensures TrimLeft(Slashed(s)) == Slashed(TrimLeft(s))
  {
    if s != "" && IsSpace(s[0]) {
      TrimLeftOfSlashed(s[1..]);
    }
  }

  lemma SlashedFront(s: string, n: nat)
    requires n <= |s|
    ensures Slashed(s)[..n] == Slashed(s[..n])
  {
    var a, b := Slashed(s)[..n], Slashed(s[..n]);
    assert |a| == |b| && forall i :: 0 <= i < n ==> a[i] == b[i];
  }

  lemma SlashedEnds(s: string)
    ensures EndsInSpace(Slashed(s)) <==> EndsInSpace(s)
  {
    assert !IsSpace('/') && !IsSpace('\\');
  }

  lemma {:induction false} TrimRightOfSlashed(s: string)
    ensures TrimRight(Slashed(s)) == Slashed(TrimRight(s))
  {
    SlashedEnds(s);
    if EndsInSpace(s) {
      SlashedFront(s, |s| - 1);
      TrimRightOfSlashed(s[..|s| - 1]);
    }
  }

  lemma SlashedTwice(s: string)
    ensures Slashed(TrimSpace(Slashed(s))) == Slashed(TrimSpace(s))
  {
    TrimLeftOfSlashed(s);
    TrimRightOfSlashed(TrimLeft(s));
    SlashedKeeps(TrimSpace(s));
    SlashedKeeps(Slashed(TrimSpace(s)));
  }

  /** The validator reads backslashes as slashes, whatever the path. */
  lemma BackslashesResolveAsSlashes(root: string, clientPath: string)
    ensures ResolvePath(root, Slashed(clientPath)) == ResolvePath(root, clientPath)
  {
    SlashedTwice(clientPath);
  }

  /** The API path keeps them, so that no accepted path with a backslash makes the round trip. */
  lemma BackslashExample(rs: seq<string>, a: string, b: string)
    requires IsClean(rs) && rs != [] && Plain([a, b])
    ensures ResolvePath(Abs(rs), "/" + a + "\\" + b) == Ok(Abs(rs + [a, b]))
    ensures ToAPIPath(Abs(rs + [a, b]), Abs(rs)) != NormalizeAPIPath("/" + a + "\\" + b)
  {
    var path := "/" + a + "\\" + b;
    SlashedPair(a, b);
    BackslashesResolveAsSlashes(Abs(rs), path);
    PlainPathResolves(rs, [a, b]);
    APIPathRoundTrip(rs, path);
    assert path[1 + |a|] == '\\';
  }

  lemma SlashedPair(a: string, b: string)
    requires Bare([a, b])
    ensures Slashed("/" + a + "\\" + b) == Abs([a, b])
  {
    assert a in [a, b] && b in [a, b];
    assert [a, b][1..] == [b] && Join([b]) == b;
    assert Abs([a, b]) == "/" + (a + "/" + b);
    var s, t := Slashed("/" + a + "\\" + b), "/" + (a + "/" + b);
    forall i | 0 <= i < |s| ensures s[i] == t[i] {
      assert 1 <= i <= |a| ==> a[i - 1] in a;
      assert i > |a| + 1 ==> b[i - |a| - 2] in b;
    }
  }

  // ---------------------------------------------------------------------------------------------
  // Plain paths: where strings and lists of segments are the same thing
  // ---------------------------------------------------------------------------------------------

  /** Segments without control characters and backslashes, the last one not ending in white space. */
  predicate Plain(segs: seq<string>) {
    && IsClean(segs)
    && Bare(segs)
    && (forall s :: s in segs ==> !HasControl(s))
    && !EndsInSpace(Abs(segs))
  }

  lemma {:induction false} JoinHasNoControl(segs: seq<string>)
    requires forall s :: s in segs ==> !HasControl(s)
    ensures !HasControl(Join(segs))
  {
    if segs != [] {
      assert segs[0] in segs;
      JoinHasNoControl(segs[1..]);
    }
  }

  lemma PlainPathResolves(rs: seq<string>, segs: seq<string>)
    requires IsClean(rs) && rs != [] && Plain(segs)
    ensures ResolvePath(Abs(rs), Abs(segs)) == Ok(Abs(rs + segs))
  {
    var path := Abs(segs);
    assert TrimLeft(path) == path;
    assert TrimSpace(path) == path;
    BareJoin(segs);
    SlashedKeeps(path);
    JoinHasNoControl(segs);
    SplitAbs(segs);
    ResolvesExactly(rs, path);
  }

  lemma JoinPathAppends(rs: seq<string>, name: string)
    requires IsClean(rs) && IsClean([name])
    ensures JoinPath(Abs(rs), name) == Abs(rs + [name])
  {
    assert name in [name];
    SplitSegment(name);
    JoinNames(rs, name);
  }

  lemma AbsInjective(a: seq<string>, b: seq<string>)
    requires IsClean(a) && IsClean(b) && Abs(a) == Abs(b)
    ensures a == b
  {
    SplitAbs(a);
    SplitAbs(b);
  }

  lemma CleanConcat(a: seq<string>, b: seq<string>)
    requires IsClean(a) && IsClean(b)
    ensures IsClean(a + b)
  {
  }

  /**
   On plain segments, resolving puts the root in front, converting back takes it off again, joining a
   name appends it, and no two lists of segments share a path.
   */
  lemma PlainPathsAreSegments(rs: seq<string>, segs: seq<string>, name: string, other: seq<string>)
    requires IsClean(rs) && rs != [] && Plain(segs) && IsClean([name]) && IsClean(other)
    ensures ResolvePath(Abs(rs), Abs(segs)) == Ok(Abs(rs + segs))
    ensures ToAPIPath(Abs(rs + segs), Abs(rs)) == Abs(segs) == NormalizeAPIPath(Abs(segs))
    ensures JoinPath(Abs(rs + segs), name) == Abs(rs + segs + [name])
    ensures Abs(rs + other) == Abs(rs + segs) ==> other == segs
  {
    PlainPathResolves(rs, segs);
    ToAPIPathNormalizes(rs, segs);
    NormalizeFixes(segs);
    CleanConcat(rs, segs);
    CleanConcat(rs, other);
    JoinPathAppends(rs + segs, name);
    if Abs(rs + other) == Abs(rs + segs) {
      AbsInjective(rs + other, rs + segs);
      assert other == (rs + other)[|rs|..] == (rs + segs)[|rs|..] == segs;
    }
  }

  // ---------------------------------------------------------------------------------------------
  // The directories the services keep for themselves
  // ---------------------------------------------------------------------------------------------

  const INTERNAL_NAMES: set<string> := {".trash", ".thumbnails", ".chunks"}

  /** A directory entry that listings and searches leave out. */
  predicate IsInternal(name: string) {
    TrimSpace(name) in INTERNAL_NAMES
  }

  predicate IsInternalStoragePath(raw: string) {
    var normalized := NormalizeAPIPath(raw);
    IsAtOrBelow(normalized, ".trash") || IsAtOrBelow(normalized, ".thumbnails") || IsAtOrBelow(normalized, ".chunks")
  }

  predicate IsAtOrBelow(apiPath: string, name: string) {
    apiPath == "/" + name || "/" + name + "/" <= apiPath
  }

  /** The same on segments. */
  predicate IsInternalPath(segs: seq<string>) {
    segs != [] && segs[0] in INTERNAL_NAMES
  }

  /** The segments of the API path of any string. */
  function APISegments(raw: string): seq<string> {
    var s := TrimSpace(raw);
    CleanSegments([], Split(s), Rooted(s))
  }

  lemma SplitOfAbs(segs: seq<string>)
    requires SlashFree(segs)
    ensures Split(Abs(segs)) == [""] + if segs == [] then [""] else segs
  {
    SplitConcat("", Join(segs));
    assert "" + "/" + Join(segs) == Abs(segs) && Split("") == [""];
    if segs != [] {
      SplitJoin(segs);
    }
  }

  lemma StartsWithSegment(segs: seq<string>, name: string)
    requires SlashFree(segs) && "" !in segs && IsClean([name])
    ensures IsAtOrBelow(Abs(segs), name) <==> segs != [] && segs[0] == name
  {
    assert name in [name];
    SplitOfAbs(segs);
    SplitOfAbs([name]);
    assert Abs([name]) == "/" + name;
    if "/" + name + "/" <= Abs(segs) {
      var rest := Abs(segs)[|name| + 2..];
      assert Abs(segs) == "/" + name + "/" + rest;
      SplitConcat("/" + name, rest);
      assert (Split("/" + name) + Split(rest))[1] == name;
      assert Split(Abs(segs))[1] == name;
    }
  }

  /** Whether a path is internal shows in the first segment of its API path, whatever the string. */
  lemma InternalByFirstSegment(raw: string)
    ensures IsInternalStoragePath(raw) <==> IsInternalPath(APISegments(raw))
  {
    var segs := NormalizeIsAbs(raw);
    StartsWithSegment(segs, ".trash");
    StartsWithSegment(segs, ".thumbnails");
    StartsWithSegment(segs, ".chunks");
  }
}
