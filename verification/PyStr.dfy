/**
 * The few Python string and path primitives that the repository's own logic is
 * built from: `str.startswith`, `str.endswith`, `str.lower`, `str.rfind`,
 * `str.replace`, `str.join`, `os.path.basename`, `os.path.splitext`,
 * `pathlib.PurePath.suffix`, and the code-point order that `sorted` uses on
 * strings. Paths are POSIX paths, so the only separator is '/'.
 */
module PyStr {

  predicate StartsWith(s: string, prefix: string) {
    |prefix| <= |s| && s[..|prefix|] == prefix
  }

  predicate EndsWith(s: string, suffix: string) {
    |suffix| <= |s| && s[|s| - |suffix|..] == suffix
  }

  /** `s.startswith(".")`: the Unix convention for a hidden entry. */
  predicate IsHidden(s: string) {
    |s| > 0 && s[0] == '.'
  }

  /** `str.lower` restricted to ASCII: 'A'..'Z' become 'a'..'z', all else is kept. */
  function LowerChar(c: char): char {
    if 'A' <= c <= 'Z' then (c as int + 32) as char else c
  }

  function Lower(s: string): (r: string)
    ensures |r| == |s|
  {
    if s == [] then [] else [LowerChar(s[0])] + Lower(s[1..])
  }

  /** `s.rfind(c)`: the index of the last occurrence of `c`, or -1. */
  function RFind(s: string, c: char): (i: int)
    ensures -1 <= i < |s|
    ensures i >= 0 ==> s[i] == c
    ensures forall k :: i < k < |s| ==> s[k] != c
  {
    if s == [] then -1
    else if s[|s| - 1] == c then |s| - 1
    else RFind(s[..|s| - 1], c)
  }

  /** The text after the last `c`: `s.split(c)[-1]`, and `os.path.basename` for c == '/'. */
  function AfterLast(s: string, c: char): (r: string)
    ensures c !in r
    ensures EndsWith(s, r)
    ensures |r| < |s| ==> s[|s| - |r| - 1] == c
  {
    s[RFind(s, c) + 1..]
  }

  /** The text after the last separator of `s + [c] + t` is `t` when `t` holds no separator. */
  lemma AfterLastAppend(s: string, c: char, t: string)
    requires c !in t
    ensures AfterLast(s + [c] + t, c) == t
  {
    var u := s + [c] + t;
    var i := RFind(u, c);
    assert u[|s|] == c;
    assert forall k :: |s| < k < |u| ==> u[k] == t[k - |s| - 1];
    assert u[i + 1..] == t;
  }

  function Basename(p: string): string {
    AfterLast(p, '/')
  }

  predicate AllDots(p: string, lo: int, hi: int)
    requires 0 <= lo && hi <= |p|
  {
    forall k :: lo <= k < hi ==> p[k] == '.'
  }

  /**
   * The extension half of `os.path.splitext(p)`: from the last '.' of the last
   * path component to the end, unless everything in that component before the
   * dot is a dot (".bashrc", "..x" have no extension).
   */
  function SplitExt(p: string): string {
    var sep := RFind(p, '/');
    var dot := RFind(p, '.');
    if dot > sep && !AllDots(p, sep + 1, dot) then p[dot..] else ""
  }

  /**
   * An extension is empty or a suffix of the base name that starts with '.'
   * and holds no other '.'.
   */
  lemma SplitExtShape(p: string)
    ensures SplitExt(p) != "" ==> EndsWith(Basename(p), SplitExt(p))
    ensures SplitExt(p) != "" ==> SplitExt(p)[0] == '.' && '.' !in SplitExt(p)[1..]
  {
    var sep, dot := RFind(p, '/'), RFind(p, '.');
    if dot > sep && !AllDots(p, sep + 1, dot) {
      ExtensionIsTail(p, sep, dot);
      assert SplitExt(p) == p[dot..];
    } else {
      assert SplitExt(p) == "";
    }
  }

  lemma ExtensionIsTail(p: string, sep: int, dot: int)
    requires sep == RFind(p, '/') && 0 <= dot == RFind(p, '.') && dot > sep
    ensures EndsWith(Basename(p), p[dot..]) && p[dot..][1..] == AfterLast(p, '.')
  {
    BasenameEndsWithTail(p, sep, dot);
    TailAfterLastDot(p, dot);
  }

  lemma BasenameEndsWithTail(p: string, sep: int, dot: int)
    requires sep == RFind(p, '/') && sep < dot < |p|
    ensures EndsWith(Basename(p), p[dot..])
  {
    DropEndsWithDrop(p, sep + 1, dot);
  }

  /** Dropping more of a sequence leaves a suffix of what dropping less leaves. */
  lemma DropEndsWithDrop(p: string, i: int, j: int)
    requires 0 <= i <= j <= |p|
    ensures EndsWith(p[i..], p[j..])
  {
    assert p[i..][j - i..] == p[j..];
  }

  lemma TailAfterLastDot(p: string, dot: int)
    requires 0 <= dot == RFind(p, '.')
    ensures p[dot..][1..] == AfterLast(p, '.')
  {
    assert p[dot..][1..] == p[dot + 1..];
  }

  /**
   * The extension is non-empty exactly when the base name holds a '.' that
   * comes after some character other than '.'.
   */
  lemma SplitExtNonEmptyIff(p: string)
    ensures var b := Basename(p);
            SplitExt(p) != "" <==>
            exists i, j :: 0 <= i < j < |b| && b[i] != '.' && b[j] == '.'
  {
    if SplitExt(p) != "" {
      SplitExtHasDotAfterName(p);
    } else {
      NoSplitExtNoDotAfterName(p);
    }
  }

  lemma SplitExtHasDotAfterName(p: string)
    requires SplitExt(p) != ""
    ensures var b := Basename(p);
            exists i, j :: 0 <= i < j < |b| && b[i] != '.' && b[j] == '.'
  {
    var sep, dot := RFind(p, '/'), RFind(p, '.');
    var b := Basename(p);
    assert b == p[sep + 1..];
    var k :| sep < k < dot && p[k] != '.';
    assert b[k - sep - 1] == p[k] && b[dot - sep - 1] == p[dot];
  }

  lemma NoSplitExtNoDotAfterName(p: string)
    requires SplitExt(p) == ""
    ensures var b := Basename(p);
            forall i, j :: 0 <= i < j < |b| && b[i] != '.' ==> b[j] != '.'
  {
    var sep, dot := RFind(p, '/'), RFind(p, '.');
    var b := Basename(p);
    assert b == p[sep + 1..];
    forall i, j | 0 <= i < j < |b| && b[i] != '.'
      ensures b[j] != '.'
    {
      assert b[i] == p[sep + 1 + i] && b[j] == p[sep + 1 + j];
      if dot > sep {
        assert AllDots(p, sep + 1, dot);
        assert sep + 1 + i >= dot;
      }
    }
  }

  /** `pathlib.PurePath.suffix` of a name: from its last '.', if that is neither first nor last. */
  function Suffix(name: string): string {
    var i := RFind(name, '.');
    if 0 < i < |name| - 1 then name[i..] else ""
  }

  /**
   * For a name that does not start with '.', `Path.suffix` and `splitext`
   * agree except on a trailing '.', which `splitext` keeps as the extension
   * "." and `Path.suffix` drops.
   */
  lemma SuffixAgreesWithSplitExt(name: string)
    requires '/' !in name && !IsHidden(name)
    ensures Suffix(name) == SplitExt(name) || (Suffix(name) == "" && SplitExt(name) == ".")
  {
    var sep, dot := RFind(name, '/'), RFind(name, '.');
    assert sep == -1;
    if dot > 0 {
      assert !AllDots(name, 0, dot) by { assert name[0] != '.'; }
      assert SplitExt(name) == name[dot..];
      if dot == |name| - 1 {
        assert name[dot..] == ".";
      }
    }
  }

  /** `s.replace(c, d)` for single characters `c` and `d`. */
  function ReplaceChar(s: string, c: char, d: char): (r: string)
    ensures |r| == |s|
    ensures forall i :: 0 <= i < |s| ==> r[i] == (if s[i] == c then d else s[i])
  {
    if s == [] then [] else [if s[0] == c then d else s[0]] + ReplaceChar(s[1..], c, d)
  }

  /** `sep.join(parts)`. */
  function Join(parts: seq<string>, sep: string): string {
    if |parts| == 0 then ""
    else if |parts| == 1 then parts[0]
    else parts[0] + sep + Join(parts[1..], sep)
  }

  /** Python's `a <= b` on `str`: lexicographic by code point, a proper prefix first. */
  predicate LexLeq(a: string, b: string)
    decreases |a|
  {
    |a| == 0 || (|b| > 0 && (a[0] < b[0] || (a[0] == b[0] && LexLeq(a[1..], b[1..]))))
  }

  lemma {:induction false} LexLeqReflexive(a: string)
    ensures LexLeq(a, a)
    decreases |a|
  {
    if |a| > 0 { LexLeqReflexive(a[1..]); }
  }

  lemma {:induction false} LexLeqTotal(a: string, b: string)
    ensures LexLeq(a, b) || LexLeq(b, a)
    decreases |a|
  {
    if |a| > 0 && |b| > 0 && a[0] == b[0] {
      LexLeqTotal(a[1..], b[1..]);
    }
  }

  lemma {:induction false} LexLeqAntisymmetric(a: string, b: string)
    requires LexLeq(a, b) && LexLeq(b, a)
    ensures a == b
    decreases |a|
  {
    if |a| > 0 {
      LexLeqAntisymmetric(a[1..], b[1..]);
      assert a == [a[0]] + a[1..] && b == [b[0]] + b[1..];
    }
  }

  lemma {:induction false} LexLeqTransitive(a: string, b: string, c: string)
    requires LexLeq(a, b) && LexLeq(b, c)
    ensures LexLeq(a, c)
    decreases |a|
  {
    if |a| > 0 && a[0] == b[0] && b[0] == c[0] {
      LexLeqTransitive(a[1..], b[1..], c[1..]);
    }
  }

  predicate Sorted(s: seq<string>) {
    forall i, j :: 0 <= i < j < |s| ==> LexLeq(s[i], s[j])
  }

  function Insert(x: string, s: seq<string>): (r: seq<string>)
    requires Sorted(s)
    ensures Sorted(r)
    ensures multiset(r) == multiset(s) + multiset{x}
  {
    if s == [] then [x]
    else if LexLeq(x, s[0]) then
      SortedCons(x, s);
      [x] + s
    else
      SortedTail(s);
      var rest := Insert(x, s[1..]);
      InsertAfterHead(x, s, rest);
      [s[0]] + rest
  }

  /** An element at most the head of a sorted sequence can go in front of it. */
  lemma SortedCons(x: string, s: seq<string>)
    requires Sorted(s) && s != [] && LexLeq(x, s[0])
    ensures Sorted([x] + s)
  {
    var r := [x] + s;
    forall i, j | 0 <= i < j < |r| ensures LexLeq(r[i], r[j]) {
      if i == 0 && j > 1 {
        LexLeqTransitive(x, s[0], s[j - 1]);
      }
    }
  }

  /** When `x` goes after the head, the head stays in front of the rest with `x` inserted. */
  lemma InsertAfterHead(x: string, s: seq<string>, rest: seq<string>)
    requires Sorted(s) && s != [] && !LexLeq(x, s[0])
    requires Sorted(rest) && multiset(rest) == multiset(s[1..]) + multiset{x}
    ensures Sorted([s[0]] + rest) && multiset([s[0]] + rest) == multiset(s) + multiset{x}
  {
    assert s == [s[0]] + s[1..];
    LexLeqTotal(x, s[0]);
    forall j | 0 <= j < |rest| ensures LexLeq(s[0], rest[j]) {
      assert rest[j] in multiset(rest);
      if rest[j] != x {
        assert rest[j] in multiset(s[1..]);
        var k :| 0 <= k < |s[1..]| && s[1..][k] == rest[j];
        assert s[k + 1] == rest[j];
      }
    }
    var r := [s[0]] + rest;
    forall i, j | 0 <= i < j < |r| ensures LexLeq(r[i], r[j]) {
      if i > 0 {
        assert r[i] == rest[i - 1] && r[j] == rest[j - 1];
      }
    }
  }

  /** `sorted(lines)`: the lines in ascending code-point order, nothing added or lost. */
  function SortLines(lines: seq<string>): (r: seq<string>)
    ensures Sorted(r)
    ensures multiset(r) == multiset(lines)
  {
    if lines == [] then []
    else
      assert lines == [lines[0]] + lines[1..];
      Insert(lines[0], SortLines(lines[1..]))
  }

  /** The head of a sorted sequence is at most each of its elements. */
  lemma SortedHeadIsLeast(s: seq<string>, x: string)
    requires Sorted(s) && x in s
    ensures LexLeq(s[0], x)
  {
    var k :| 0 <= k < |s| && s[k] == x;
    if k == 0 { LexLeqReflexive(x); }
  }

  /** Dropping the head of a sorted sequence leaves a sorted sequence of the other elements. */
  lemma SortedTail(a: seq<string>)
    requires Sorted(a) && a != []
    ensures Sorted(a[1..]) && multiset(a[1..]) == multiset(a) - multiset{a[0]}
  {
    assert a == [a[0]] + a[1..];
  }

  /**
   * There is only one sorted arrangement of a multiset of strings, so the
   * result of `SortLines` is exactly what Python's `sorted` returns.
   */
  lemma {:induction false} SortedUnique(a: seq<string>, b: seq<string>)
    requires Sorted(a) && Sorted(b) && multiset(a) == multiset(b)
    ensures a == b
    decreases |a|
  {
    assert |b| == |a| by { assert |multiset(b)| == |multiset(a)|; }
    if a != [] {
      assert a[0] in multiset(b) && b[0] in multiset(a);
      SortedHeadIsLeast(b, a[0]);
      SortedHeadIsLeast(a, b[0]);
      LexLeqAntisymmetric(a[0], b[0]);
      SortedTail(a);
      SortedTail(b);
      SortedUnique(a[1..], b[1..]);
      assert a == [a[0]] + a[1..] && b == [b[0]] + b[1..];
    }
  }
}
