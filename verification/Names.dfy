/** File names: their order in a directory listing, extensions, and numbered candidate names. */
module Names {
  // ---------------------------------------------------------------------------------------------
  // Order
  // ---------------------------------------------------------------------------------------------

  predicate Less(a: string, b: string) {
    if b == "" then false
    else if a == "" then true
    else if a[0] == b[0] then Less(a[1..], b[1..])
    else a[0] < b[0]
  }

  lemma {:induction false} LessTotal(a: string, b: string)
    ensures a == b || Less(a, b) || Less(b, a)
    ensures !(Less(a, b) && Less(b, a))
    ensures !Less(a, a)
  {
    if a != "" {
      LessTotal(a[1..], a[1..]);
      if b != "" && a[0] == b[0] {
        LessTotal(a[1..], b[1..]);
        assert a == [a[0]] + a[1..] && b == [b[0]] + b[1..];
      }
    }
  }

  lemma {:induction false} LessTransitive(a: string, b: string, c: string)
    requires Less(a, b) && Less(b, c)
    ensures Less(a, c)
  {
    if a != "" && a[0] == b[0] && b[0] == c[0] {
      LessTransitive(a[1..], b[1..], c[1..]);
    }
  }

  /** a is a proper beginning of b, or has the smaller character at the first place where they differ. */
  ghost predicate ComesFirst(a: string, b: string) {
    exists i :: 0 <= i <= |a| && i < |b| && a[..i] == b[..i] && (i < |a| ==> a[i] < b[i])
  }

  /** Names are in the order of their characters. */
  lemma {:induction false} LessIsLexicographic(a: string, b: string)
    ensures Less(a, b) <==> ComesFirst(a, b)
  {
    if a == "" {
      assert b != "" ==> a[..0] == b[..0];
    } else if b != "" && a[0] == b[0] {
      LessIsLexicographic(a[1..], b[1..]);
      if i :| && 0 <= i <= |a[1..]| && i < |b[1..]| && a[1..][..i] == b[1..][..i]
              && (i < |a[1..]| ==> a[1..][i] < b[1..][i]) {
        SharedFirst(a, b, i);
      }
      if i :| 0 <= i <= |a| && i < |b| && a[..i] == b[..i] && (i < |a| ==> a[i] < b[i]) {
        assert i > 0;
        SharedFirst(a, b, i - 1);
      }
    } else if b != "" {
      assert a[..0] == b[..0];
      if i :| 0 <= i <= |a| && i < |b| && a[..i] == b[..i] && (i < |a| ==> a[i] < b[i]) {
        assert i > 0 ==> a[..i][0] == b[..i][0];
      }
    }
  }

  lemma SharedFirst(a: string, b: string, i: nat)
    requires a != "" && b != "" && a[0] == b[0] && i < |a| && i < |b|
    ensures a[..i + 1] == b[..i + 1] <==> a[1..][..i] == b[1..][..i]
  {
    assert a[..i + 1] == [a[0]] + a[1..][..i] && b[..i + 1] == [b[0]] + b[1..][..i];
  }

  ghost predicate Increasing(s: seq<string>) {
    forall i, j :: 0 <= i < j < |s| ==> Less(s[i], s[j])
  }

  /** An increasing listing is determined by the names in it. */
  lemma {:induction false} IncreasingIsUnique(s: seq<string>, t: seq<string>)
    requires Increasing(s) && Increasing(t)
    requires forall x :: x in s <==> x in t
    ensures s == t
  {
    assert t != [] ==> t[0] in t;
    if s != [] {
      assert s[0] in t;
      assert t[0] in s;
      LessTotal(s[0], t[0]);
      assert s[0] == t[0];
      var s', t' := s[1..], t[1..];
      forall x ensures x in s' <==> x in t' {
        LessTotal(s[0], s[0]);
        if x in s' { assert x in s && x != s[0] && x in t; }
        if x in t' { assert x in t && x != t[0] && x in s; }
      }
      IncreasingIsUnique(s', t');
      assert s == [s[0]] + s' && t == [t[0]] + t';
    }
  }

  /** s with x put at its place. */
  function Insert(s: seq<string>, x: string): (r: seq<string>)
    ensures |r| == |s| + 1
    ensures forall y :: y in r <==> y in s || y == x
  {
    if s == [] then [x]
    else if Less(x, s[0]) then [x] + s
    else [s[0]] + Insert(s[1..], x)
  }

  lemma {:induction false} InsertKeepsIncreasing(s: seq<string>, x: string)
    requires Increasing(s) && x !in s
    ensures Increasing(Insert(s, x))
  {
    if s != [] {
      var r := Insert(s, x);
      LessTotal(x, s[0]);
      if Less(x, s[0]) {
        forall j | 0 < j < |s| ensures Less(x, s[j]) {
          LessTransitive(x, s[0], s[j]);
        }
      } else {
        InsertKeepsIncreasing(s[1..], x);
        assert forall y :: y in r[1..] ==> y in s[1..] || y == x;
        forall i, j | 0 <= i < j < |r| ensures Less(r[i], r[j]) {
          if i == 0 {
            assert r[j] in r[1..];
          }
        }
      }
    }
  }

  // ---------------------------------------------------------------------------------------------
  // Numbered candidates
  // ---------------------------------------------------------------------------------------------

  function Digit(d: nat): char
    requires d < 10
  {
    ('0' as int + d) as char
  }

  function Decimal(n: nat): (s: string)
    ensures s != ""
  {
    if n < 10 then [Digit(n)] else Decimal(n / 10) + [Digit(n % 10)]
  }

  lemma {:induction false} DecimalInjective(m: nat, n: nat)
    requires Decimal(m) == Decimal(n)
    ensures m == n
    decreases m
  {
    var s, t := Decimal(m), Decimal(n);
    assert s[|s| - 1] == t[|t| - 1];
    assert m % 10 == n % 10;
    if m >= 10 {
      assert |s| >= 2;
      assert Decimal(m / 10) == s[..|s| - 1] == t[..|t| - 1] == Decimal(n / 10);
      DecimalInjective(m / 10, n / 10);
    } else {
      assert |t| == 1;
      assert n >= 10 ==> |t| >= 2;
    }
  }

  /** The position of the last dot, or the length of the name when it has none. */
  function LastDot(name: string): (i: nat)
    ensures i <= |name|
    ensures i < |name| ==> name[i] == '.'
    ensures forall j :: i < j < |name| ==> name[j] != '.'
    ensures i == |name| ==> '.' !in name
  {
    if name == "" then 0
    else
      var n := |name| - 1;
      if name[n] == '.' then n
      else var i := LastDot(name[..n]); if i == n then |name| else i
  }

  function Ext(name: string): string {
    name[LastDot(name)..]
  }

  /** `name (n).ext`: the n-th name tried when `name.ext` is taken. */
  function CandidateName(name: string, n: nat): string {
    name[..LastDot(name)] + " (" + Decimal(n) + ")" + Ext(name)
  }

  lemma CandidateNameInjective(name: string, m: nat, n: nat)
    requires CandidateName(name, m) == CandidateName(name, n)
    ensures m == n
  {
    var head, tail := name[..LastDot(name)] + " (", ")" + Ext(name);
    var s, t := CandidateName(name, m), CandidateName(name, n);
    assert s == head + Decimal(m) + tail && t == head + Decimal(n) + tail;
    assert Decimal(m) == s[|head|..|s| - |tail|];
    assert Decimal(n) == t[|head|..|t| - |tail|];
    DecimalInjective(m, n);
  }

  /** The number that digits stand for. */
  function ValueOf(digits: string): int {
    if digits == "" then 0 else 10 * ValueOf(digits[..|digits| - 1]) + (digits[|digits| - 1] as int - '0' as int)
  }

  lemma {:induction false} DecimalIsTheNumber(n: nat)
    ensures ValueOf(Decimal(n)) == n
    ensures forall c :: c in Decimal(n) ==> '0' <= c <= '9'
    ensures n > 0 ==> Decimal(n)[0] != '0'
  {
    if n >= 10 {
      DecimalIsTheNumber(n / 10);
      assert Decimal(n)[..|Decimal(n)| - 1] == Decimal(n / 10);
    } else {
      assert ValueOf("") == 0;
      assert Decimal(n)[..0] == "";
    }
  }

  /** ext is what follows the last dot of the name, with the dot, and base is what comes before it. */
  ghost predicate SplitsAtLastDot(name: string, base: string, ext: string) {
    name == base + ext && if ext == "" then '.' !in name else ext[0] == '.' && '.' !in ext[1..]
  }

  /** The extension of a name, as it is compared, and the form of the numbered names. */
  lemma CandidateNameHasTheForm(name: string, n: nat, base: string, ext: string)
    requires SplitsAtLastDot(name, base, ext)
    ensures Ext(name) == ext
    ensures CandidateName(name, n) == base + " (" + Decimal(n) + ")" + ext
  {
    var i := LastDot(name);
    if ext != "" {
      assert name[|base|] == '.';
      forall j | |base| < j < |name| ensures name[j] != '.' {
        assert name[j] == ext[1..][j - |base| - 1];
      }
    }
    assert i == |base|;
    assert name[..i] == base && name[i..] == ext;
  }

  // ---------------------------------------------------------------------------------------------
  // Parts of strings
  // ---------------------------------------------------------------------------------------------

  predicate Contains(s: string, part: string) {
    part <= s || (s != "" && Contains(s[1..], part))
  }

  predicate PartAt(s: string, part: string, i: nat) {
    i <= |s| && part <= s[i..]
  }

  ghost predicate HasPart(s: string, part: string) {
    exists i: nat :: PartAt(s, part, i)
  }

  lemma {:induction false} ContainsIsHasPart(s: string, part: string)
    ensures Contains(s, part) <==> HasPart(s, part)
  {
    if part <= s {
      assert PartAt(s, part, 0);
    } else if s == "" {
      assert forall i :: !PartAt(s, part, i);
    } else {
      ContainsIsHasPart(s[1..], part);
      forall i: nat ensures PartAt(s, part, i + 1) <==> PartAt(s[1..], part, i) {
        assert i < |s| ==> s[1..][i..] == s[i + 1..];
      }
      PartLater(s, part);
    }
  }

  lemma PartLater(s: string, part: string)
    requires s != "" && !(part <= s)
    requires forall i: nat :: PartAt(s, part, i + 1) <==> PartAt(s[1..], part, i)
    ensures HasPart(s, part) <==> HasPart(s[1..], part)
  {
    assert s[0..] == s;
    if i: nat :| PartAt(s, part, i) {
      assert PartAt(s[1..], part, i - 1);
    }
    if i: nat :| PartAt(s[1..], part, i) {
      assert PartAt(s, part, i + 1);
    }
  }
}
