/**
 * The parts of java.lang.String that the modelled code relies on, over
 * `string`. A Dafny `char` is a Unicode scalar value, where Java counts
 * UTF-16 code units: lengths and indices agree with Java's only for text
 * inside the Basic Multilingual Plane.
 */
module JavaString {

  /** String.startsWith */
  predicate StartsWith(s: string, prefix: string) {
    |prefix| <= |s| && s[..|prefix|] == prefix
  }

  /** String.endsWith */
  predicate EndsWith(s: string, suffix: string) {
    |suffix| <= |s| && s[|s| - |suffix|..] == suffix
  }

  /** `pat` occurs in `s` starting at index `i`. */
  predicate OccursAt(s: string, pat: string, i: nat) {
    i + |pat| <= |s| && s[i..i + |pat|] == pat
  }

  /** String.contains */
  predicate Contains(s: string, pat: string) {
    exists i: nat | i <= |s| :: OccursAt(s, pat, i)
  }

  /** String.lastIndexOf(char): the index of the last occurrence of `c`, or -1. */
  function LastIndexOf(s: string, c: char): (r: int)
    ensures -1 <= r < |s|
    ensures r == -1 <==> c !in s
    ensures r >= 0 ==> s[r] == c && c !in s[r + 1..]
  {
    if |s| == 0 then -1
    else if s[|s| - 1] == c then |s| - 1
    else
      assert s == s[..|s| - 1] + [s[|s| - 1]];
      LastIndexOf(s[..|s| - 1], c)
  }

  /** The last `c` of `x + y` is the last one of `y` when `y` holds one, else the last one of `x`. */
  lemma {:induction false} LastIndexOfConcat(x: string, y: string, c: char)
    ensures LastIndexOf(x + y, c) == if c in y then |x| + LastIndexOf(y, c) else LastIndexOf(x, c)
    decreases |y|
  {
    if y == [] {
      assert x + y == x;
    } else if y[|y| - 1] != c {
      var init := y[..|y| - 1];
      assert y == init + [y[|y| - 1]];
      assert (x + y)[..|x + y| - 1] == x + init;
      LastIndexOfConcat(x, init, c);
    }
  }

  /** The characters String.trim() removes: every character up to U+0020. */
  predicate IsTrimmed(c: char) {
    c <= ' '
  }

  /** Every character of `s` is one that trim() removes. */
  predicate IsBlank(s: string) {
    forall i :: 0 <= i < |s| ==> IsTrimmed(s[i])
  }

  lemma BlankConcat(a: string, b: string)
    requires IsBlank(a) && IsBlank(b)
    ensures IsBlank(a + b)
  {
  }

  /** `s` without its leading trimmable characters. */
  function TrimStart(s: string): (r: string)
    ensures |r| <= |s|
  {
    if s != [] && IsTrimmed(s[0]) then TrimStart(s[1..]) else s
  }

  /** TrimStart drops a blank prefix and stops at the first character trim() keeps. */
  lemma {:induction false} TrimStartDrops(s: string)
    ensures TrimStart(s) == s[|s| - |TrimStart(s)|..]
    ensures TrimStart(s) == [] || !IsTrimmed(TrimStart(s)[0])
    ensures IsBlank(s[..|s| - |TrimStart(s)|])
    decreases |s|
  {
    if s != [] && IsTrimmed(s[0]) {
      TrimStartDrops(s[1..]);
      var r := TrimStart(s);
      assert s[..|s| - |r|] == [s[0]] + s[1..][..|s| - 1 - |r|];
      assert s[1..][|s| - 1 - |r|..] == s[|s| - |r|..];
    } else {
      assert s[..0] == [];
    }
  }

  /** `s` without its trailing trimmable characters. */
  function TrimEnd(s: string): (r: string)
    ensures |r| <= |s|
  {
    if s != [] && IsTrimmed(s[|s| - 1]) then TrimEnd(s[..|s| - 1]) else s
  }

  /** TrimEnd drops a blank suffix and stops at the last character trim() keeps. */
  lemma {:induction false} TrimEndDrops(s: string)
    ensures TrimEnd(s) == s[..|TrimEnd(s)|]
    ensures TrimEnd(s) == [] || !IsTrimmed(TrimEnd(s)[|TrimEnd(s)| - 1])
    ensures IsBlank(s[|TrimEnd(s)|..])
    decreases |s|
  {
    if s != [] && IsTrimmed(s[|s| - 1]) {
      var init := s[..|s| - 1];
      TrimEndDrops(init);
      var r := TrimEnd(s);
      assert init[..|r|] == s[..|r|];
      assert s[|r|..] == init[|r|..] + [s[|s| - 1]];
    } else {
      assert s[|s|..] == [];
    }
  }

  /** How many characters trim() drops at the front of `s`. */
  function LeadingTrimmed(s: string): (k: nat)
    ensures k <= |s|
  {
    |s| - |TrimStart(s)|
  }

  /**
   * String.trim(): the longest slice of `s` that neither starts nor ends with
   * a character up to U+0020; what it drops on either side is all such characters.
   */
  function Trim(s: string): (r: string)
    ensures |r| <= |s|
  {
    TrimEnd(TrimStart(s))
  }

  /** What trim() keeps and what it drops, as stated above. */
  lemma TrimIsMiddle(s: string)
    ensures Trim(s) == [] <==> IsBlank(s)
    ensures Trim(s) != [] ==> !IsTrimmed(Trim(s)[0]) && !IsTrimmed(Trim(s)[|Trim(s)| - 1])
    ensures LeadingTrimmed(s) + |Trim(s)| <= |s|
    ensures Trim(s) == s[LeadingTrimmed(s)..LeadingTrimmed(s) + |Trim(s)|]
    ensures IsBlank(s[..LeadingTrimmed(s)])
    ensures IsBlank(s[LeadingTrimmed(s) + |Trim(s)|..])
  {
    var t := TrimStart(s);
    TrimStartDrops(s);
    TrimEndDrops(t);
    TrimParts(s, LeadingTrimmed(s), t, TrimEnd(t));
  }

  /** The slice arithmetic behind Trim's contract. */
  lemma TrimParts(s: string, k: nat, t: string, r: string)
    requires k <= |s| && t == s[k..] && IsBlank(s[..k])
    requires t == [] || !IsTrimmed(t[0])
    requires |r| <= |t| && r == t[..|r|] && IsBlank(t[|r|..])
    requires r == [] || !IsTrimmed(r[|r| - 1])
    ensures r == s[k..k + |r|]
    ensures IsBlank(s[k + |r|..])
    ensures r == [] <==> IsBlank(s)
    ensures r != [] ==> !IsTrimmed(r[0])
  {
    assert s[k + |r|..] == t[|r|..];
    assert s[k..k + |r|] == t[..|r|];
    if r == [] {
      assert s == s[..k] + t;
      assert t[0..] == t;
      BlankConcat(s[..k], t);
    } else {
      assert s[k] == r[0];
    }
  }

  /** ASCII upper case of one character; every other character is unchanged. */
  function UpperChar(c: char): (u: char)
    ensures 'a' <= c <= 'z' ==> 'A' <= u <= 'Z' && u as int - c as int == 'A' as int - 'a' as int
    ensures !('a' <= c <= 'z') ==> u == c
  {
    if 'a' <= c <= 'z' then (c as int - 'a' as int + 'A' as int) as char else c
  }

  /** String.toUpperCase() restricted to ASCII letters. */
  function ToUpper(s: string): (r: string)
    ensures |r| == |s|
    ensures forall i :: 0 <= i < |s| ==> r[i] == UpperChar(s[i])
  {
    if s == [] then [] else [UpperChar(s[0])] + ToUpper(s[1..])
  }

  /** Upper-casing twice is upper-casing once. */
  lemma ToUpperIdempotent(s: string)
    ensures ToUpper(ToUpper(s)) == ToUpper(s)
  {
    var u := ToUpper(s);
    assert forall i :: 0 <= i < |u| ==> ToUpper(u)[i] == u[i];
  }

  /**
   * String.replace(CharSequence, CharSequence) for a non-empty target:
   * scanning left to right, each occurrence of `target` is replaced and
   * scanning resumes after it, so occurrences never overlap.
   */
  function Replace(s: string, target: string, replacement: string): (r: string)
    requires |target| > 0
    decreases |s|
  {
    if s == [] then []
    else if StartsWith(s, target) then replacement + Replace(s[|target|..], target, replacement)
    else [s[0]] + Replace(s[1..], target, replacement)
  }

  /** A string in which the target does not occur is left as it is. */
  lemma {:induction false} ReplaceAbsent(s: string, target: string, replacement: string)
    requires |target| > 0 && !Contains(s, target)
    ensures Replace(s, target, replacement) == s
    decreases |s|
  {
    if s != [] {
      assert !OccursAt(s, target, 0);
      forall i: nat ensures !OccursAt(s[1..], target, i) {
        if OccursAt(s[1..], target, i) {
          assert s[1..][i..i + |target|] == s[i + 1..i + 1 + |target|];
          assert OccursAt(s, target, i + 1);
        }
      }
      ReplaceAbsent(s[1..], target, replacement);
      assert s == [s[0]] + s[1..];
    }
  }

  /**
   * When no occurrence of the target starts inside `p`, replacing in `p + w`
   * copies `p` and continues with `w`.
   */
  lemma {:induction false} ReplaceSkips(p: string, w: string, target: string, replacement: string)
    requires |target| > 0
    requires forall i: nat :: i < |p| ==> !OccursAt(p + w, target, i)
    ensures Replace(p + w, target, replacement) == p + Replace(w, target, replacement)
    decreases |p|
  {
    if p != [] {
      var s := p + w;
      var s1 := s[1..];
      assert !OccursAt(s, target, 0);
      assert !StartsWith(s, target);
      assert s1 == p[1..] + w;
      forall i: nat | i < |p[1..]| ensures !OccursAt(s1, target, i) {
        assert !OccursAt(s, target, i + 1);
      }
      ReplaceSkips(p[1..], w, target, replacement);
      assert Replace(s, target, replacement) == [s[0]] + Replace(s1, target, replacement);
      assert p == [p[0]] + p[1..];
    } else {
      assert p + w == w;
    }
  }

  /** A prefix without the target's first character is copied. */
  lemma ReplaceSkipsFree(p: string, w: string, target: string, replacement: string)
    requires |target| > 0 && target[0] !in p
    ensures Replace(p + w, target, replacement) == p + Replace(w, target, replacement)
  {
    forall i: nat | i < |p| ensures !OccursAt(p + w, target, i) {
      assert (p + w)[i] == p[i];
      if i + |target| <= |p + w| {
        assert (p + w)[i..i + |target|][0] == p[i];
      }
    }
    ReplaceSkips(p, w, target, replacement);
  }

  /** An occurrence at the very start is replaced, and scanning resumes after it. */
  lemma ReplaceAtStart(w: string, target: string, replacement: string)
    requires |target| > 0
    ensures Replace(target + w, target, replacement) == replacement + Replace(w, target, replacement)
  {
    assert (target + w)[..|target|] == target;
    assert (target + w)[|target|..] == w;
  }
}
