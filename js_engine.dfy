/**
 * JsEngine.replaceDollarSigns: the rewrite that turns money amounts such as
 * `$12.34` into `(12.34 * 100)` before a script is evaluated, while leaving
 * `'$` (a quoted dollar sign) alone.
 */
module JsEngine {
  import opened JavaString

  /** The marker that stands in for `'$` while amounts are rewritten. */
  const EscapedDollar: string := "__ESCAPED_DOLLAR_SIGN__"

  /** The regex class `\d` (ASCII digits only, Java's default). */
  predicate IsDigit(c: char) {
    '0' <= c <= '9'
  }

  predicate AllDigits(s: string) {
    forall i :: 0 <= i < |s| ==> IsDigit(s[i])
  }

  /** Length of the greedy `\d+` run at the front of `s` (0 when there is none). */
  function DigitRun(s: string): (n: nat)
    ensures n <= |s|
  {
    if s != [] && IsDigit(s[0]) then 1 + DigitRun(s[1..]) else 0
  }

  /** DigitRun is the greedy `\d+`: all digits, up to a non-digit or the end. */
  lemma {:induction false} DigitRunIsMaximal(s: string)
    ensures AllDigits(s[..DigitRun(s)])
    ensures DigitRun(s) < |s| ==> !IsDigit(s[DigitRun(s)])
    decreases |s|
  {
    if s != [] && IsDigit(s[0]) {
      DigitRunIsMaximal(s[1..]);
      var n := DigitRun(s);
      assert s[..n] == [s[0]] + s[1..][..n - 1];
    }
  }

  /** The optional group `(\.\d{2})` matches at index `k` of `s`. */
  predicate HasCents(s: string, k: nat) {
    k + 3 <= |s| && s[k] == '.' && IsDigit(s[k + 1]) && IsDigit(s[k + 2])
  }

  /**
   * Length of the regex group 2, `\d+(\.\d{2})?`, matched at the front of `s`
   * (the text after a `$`): the whole digit run, then `.` and two digits when
   * they follow. 0 when `s` does not start with a digit.
   */
  function AmountLength(s: string): (n: nat)
    ensures n <= |s|
    ensures n == 0 <==> s == [] || !IsDigit(s[0])
  {
    var d := DigitRun(s);
    if d > 0 && HasCents(s, d) then d + 3 else d
  }

  /**
   * `replaceAll("(\\$(\\d+(\\.\\d{2})?))", "($2 * 100)")` as a left-to-right
   * scanner: at a `$` followed by a digit the match is replaced by
   * `(<group 2> * 100)` and scanning resumes after it; any other character is
   * copied.
   */
  function RewriteAmounts(s: string): string
    decreases |s|
  {
    if s == [] then []
    else if s[0] == '$' && AmountLength(s[1..]) > 0 then
      var n := AmountLength(s[1..]);
      "(" + s[1..1 + n] + " * 100)" + RewriteAmounts(s[1 + n..])
    else [s[0]] + RewriteAmounts(s[1..])
  }

  /** replaceDollarSigns: protect `'$`, rewrite amounts, restore `'$`. */
  function ReplaceDollarSigns(val: string): string {
    Replace(RewriteAmounts(Replace(val, "'$", EscapedDollar)), EscapedDollar, "'$")
  }

  // ---------------------------------------------------------------------
  // The scanner, equation by equation

  lemma {:induction false} DigitRunOf(d: string, rest: string)
    requires AllDigits(d)
    requires rest == [] || !IsDigit(rest[0])
    ensures DigitRun(d + rest) == |d|
    decreases |d|
  {
    if d != [] {
      assert (d + rest)[1..] == d[1..] + rest;
      DigitRunOf(d[1..], rest);
    } else {
      assert d + rest == rest;
    }
  }

  /** A character other than `$` is copied. */
  lemma RewriteCopies(c: char, rest: string)
    requires c != '$'
    ensures RewriteAmounts([c] + rest) == [c] + RewriteAmounts(rest)
  {
    assert ([c] + rest)[1..] == rest;
  }

  /** A `$` not followed by a digit is left untouched. */
  lemma RewriteLoneDollar(rest: string)
    requires rest == [] || !IsDigit(rest[0])
    ensures RewriteAmounts("$" + rest) == "$" + RewriteAmounts(rest)
  {
    assert ("$" + rest)[1..] == rest;
  }

  /** The pieces of `"$" + x + y`. */
  lemma DollarSlices(x: string, y: string)
    ensures ("$" + x + y)[0] == '$'
    ensures ("$" + x + y)[1..] == x + y
    ensures ("$" + x + y)[1..1 + |x|] == x
    ensures ("$" + x + y)[1 + |x|..] == y
  {
  }

  /** A `$` followed by an amount `x` is replaced by `(x * 100)`; scanning resumes after `x`. */
  lemma RewriteAmountAt(x: string, y: string)
    requires AmountLength(x + y) == |x| > 0
    ensures RewriteAmounts("$" + x + y) == "(" + x + " * 100)" + RewriteAmounts(y)
  {
    DollarSlices(x, y);
    RewriteAmountStepAt("$" + x + y, |x|);
  }

  /**
   * `$` with a maximal digit run `d` not followed by `.` and two digits
   * becomes `(d * 100)`; scanning resumes right after `d`.
   */
  lemma RewriteWhole(d: string, rest: string)
    requires d != [] && AllDigits(d)
    requires rest == [] || !IsDigit(rest[0])
    requires !HasCents(rest, 0)
    ensures RewriteAmounts("$" + d + rest) == "(" + d + " * 100)" + RewriteAmounts(rest)
  {
    DigitRunOf(d, rest);
    assert !HasCents(d + rest, |d|) by {
      NoCentsAfter(d, rest);
    }
    RewriteAmountAt(d, rest);
  }

  lemma NoCentsAfter(d: string, rest: string)
    requires !HasCents(rest, 0)
    ensures !HasCents(d + rest, |d|)
  {
    if |d| + 3 <= |d + rest| {
      assert (d + rest)[|d|..|d| + 3] == rest[..3];
      assert (d + rest)[|d|] == rest[0];
      assert (d + rest)[|d| + 1] == rest[1];
      assert (d + rest)[|d| + 2] == rest[2];
    }
  }

  /**
   * `$` with a maximal digit run `d` followed by `.` and two digits `c`
   * becomes `(d.c * 100)`: exactly two decimals are taken, any further
   * digit stays after the parenthesis.
   */
  lemma RewriteWithCents(d: string, c: string, rest: string)
    requires d != [] && AllDigits(d)
    requires |c| == 2 && AllDigits(c)
    ensures RewriteAmounts("$" + d + "." + c + rest) == "(" + d + "." + c + " * 100)" + RewriteAmounts(rest)
  {
    var x := d + "." + c;
    CentsShape(d, c, rest);
    DigitRunOf(d, "." + c + rest);
    RewriteAmountAt(x, rest);
  }

  /** The regrouping and the cents match behind RewriteWithCents. */
  lemma CentsShape(d: string, c: string, rest: string)
    requires |c| == 2 && AllDigits(c)
    ensures "$" + d + "." + c + rest == "$" + (d + "." + c) + rest
    ensures "(" + d + "." + c + " * 100)" == "(" + (d + "." + c) + " * 100)"
    ensures (d + "." + c) + rest == d + ("." + c + rest)
    ensures "." + c + rest == [] || !IsDigit(("." + c + rest)[0])
    ensures HasCents(d + ("." + c + rest), |d|)
  {
    var t := d + ("." + c + rest);
    assert t[|d|] == '.' && t[|d| + 1] == c[0] && t[|d| + 2] == c[1];
    assert IsDigit(c[0]) && IsDigit(c[1]);
  }

  // ---------------------------------------------------------------------
  // Examples the rewrite is meant for

  /**
   * Matches are rewritten left to right without overlap: two amounts written
   * back to back, such as `$1$2`, become two products, `(1 * 100)(2 * 100)`.
   */
  lemma AdjacentAmounts(d1: string, d2: string, rest: string)
    requires d1 != [] && AllDigits(d1) && d2 != [] && AllDigits(d2)
    requires rest == [] || !IsDigit(rest[0])
    requires !HasCents(rest, 0)
    ensures RewriteAmounts("$" + d1 + ("$" + d2 + rest))
         == "(" + d1 + " * 100)" + ("(" + d2 + " * 100)" + RewriteAmounts(rest))
  {
    var tail := "$" + d2 + rest;
    assert tail[0] == '$';
    RewriteWhole(d1, tail);
    RewriteWhole(d2, rest);
  }

  lemma ExampleNoDigit()
    ensures RewriteAmounts("$x") == "$x"
  {
    RewriteLoneDollar("x");
    RewriteCopies('x', "");
  }

  // ---------------------------------------------------------------------
  // The whole pipeline

  /** Text without `$` passes through the scanner unchanged. */
  lemma {:induction false} RewriteSkips(p: string, w: string)
    requires '$' !in p
    ensures RewriteAmounts(p + w) == p + RewriteAmounts(w)
    decreases |p|
  {
    if p != [] {
      assert p + w == [p[0]] + (p[1..] + w);
      RewriteCopies(p[0], p[1..] + w);
      RewriteSkips(p[1..], w);
      assert p == [p[0]] + p[1..];
    } else {
      assert p + w == w;
    }
  }

  /** A string without `$` and without the marker is returned unchanged. */
  lemma Unchanged(s: string)
    requires '$' !in s && !Contains(s, EscapedDollar)
    ensures ReplaceDollarSigns(s) == s
  {
    assert !Contains(s, "'$") by {
      forall i: nat | i <= |s| ensures !OccursAt(s, "'$", i) {
        if i + 2 <= |s| {
          assert s[i..i + 2][1] == s[i + 1] != '$';
        }
      }
    }
    ReplaceAbsent(s, "'$", EscapedDollar);
    RewriteSkips(s, []);
    assert s + [] == s;
    ReplaceAbsent(s, EscapedDollar, "'$");
  }

  // ---------------------------------------------------------------------
  // A separator ends every match: `_` (the marker's first character) cuts
  // the scan into independent halves.

  /** A character that no part of a match can be. */
  predicate Separates(c: char) {
    c != '$' && c != '.' && !IsDigit(c)
  }

  lemma {:induction false} DigitRunStops(x: string, c: char, y: string)
    requires !IsDigit(c)
    ensures DigitRun(x + [c] + y) == DigitRun(x)
    decreases |x|
  {
    if x == [] {
      assert (x + [c] + y)[0] == c;
    } else {
      assert (x + [c] + y)[0] == x[0];
      assert (x + [c] + y)[1..] == x[1..] + [c] + y;
      DigitRunStops(x[1..], c, y);
    }
  }

  lemma AmountStops(x: string, c: char, y: string)
    requires Separates(c)
    ensures AmountLength(x + [c] + y) == AmountLength(x)
  {
    var s := x + [c] + y;
    DigitRunStops(x, c, y);
    var d := DigitRun(x);
    assert s[|x|] == c;
    if d + 3 <= |x| {
      assert s[d] == x[d] && s[d + 1] == x[d + 1] && s[d + 2] == x[d + 2];
    } else {
      assert |x| == d || |x| == d + 1 || |x| == d + 2;
      assert !HasCents(x, d);
    }
  }

  /** One step of the scanner at a `$` that starts an amount of length `n`. */
  lemma RewriteAmountStepAt(s: string, n: nat)
    requires s != [] && s[0] == '$' && AmountLength(s[1..]) == n > 0
    ensures RewriteAmounts(s) == "(" + s[1..1 + n] + " * 100)" + RewriteAmounts(s[1 + n..])
  {
  }

  /** One step of the scanner anywhere else. */
  lemma RewriteCopyStep(s: string)
    requires s != [] && !(s[0] == '$' && AmountLength(s[1..]) > 0)
    ensures RewriteAmounts(s) == [s[0]] + RewriteAmounts(s[1..])
  {
  }

  lemma {:induction false} RewriteSplits(t: string, c: char, u: string)
    requires Separates(c)
    ensures RewriteAmounts(t + [c] + u) == RewriteAmounts(t) + [c] + RewriteAmounts(u)
    decreases |t|, 1
  {
    if t == [] {
      SplitAtStart(c, u);
    } else if t[0] == '$' && AmountLength(t[1..]) > 0 {
      SplitAfterAmount(t, c, u);
    } else {
      SplitAfterCopy(t, c, u);
    }
  }

  /** RewriteSplits' base case. */
  lemma SplitAtStart(c: char, u: string)
    requires Separates(c)
    ensures RewriteAmounts([] + [c] + u) == RewriteAmounts([]) + [c] + RewriteAmounts(u)
  {
    assert [] + [c] + u == [c] + u;
    RewriteCopies(c, u);
  }

  /** RewriteSplits' step at an amount: the amount is rewritten, then the rest splits. */
  lemma {:induction false} SplitAfterAmount(t: string, c: char, u: string)
    requires Separates(c) && t != [] && t[0] == '$' && AmountLength(t[1..]) > 0
    ensures RewriteAmounts(t + [c] + u) == RewriteAmounts(t) + [c] + RewriteAmounts(u)
    decreases |t|, 0
  {
    var s := t + [c] + u;
    var n := AmountLength(t[1..]);
    var rest := t[1 + n..];
    var head := "(" + t[1..1 + n] + " * 100)";
    assert AmountLength(s[1..]) == n by {
      SlicesOfSplit(t, c, u, 1);
      AmountStops(t[1..], c, u);
    }
    assert RewriteAmounts(s) == head + RewriteAmounts(rest + [c] + u) by {
      SlicesOfSplit(t, c, u, 1 + n);
      RewriteAmountStepAt(s, n);
    }
    assert RewriteAmounts(t) == head + RewriteAmounts(rest) by {
      RewriteAmountStepAt(t, n);
    }
    RewriteSplits(rest, c, u);
    Regroup(head, RewriteAmounts(rest), c, RewriteAmounts(u));
  }

  /** RewriteSplits' step at a copied character: it is copied, then the rest splits. */
  lemma {:induction false} SplitAfterCopy(t: string, c: char, u: string)
    requires Separates(c) && t != [] && !(t[0] == '$' && AmountLength(t[1..]) > 0)
    ensures RewriteAmounts(t + [c] + u) == RewriteAmounts(t) + [c] + RewriteAmounts(u)
    decreases |t|, 0
  {
    var s := t + [c] + u;
    assert RewriteAmounts(s) == [t[0]] + RewriteAmounts(t[1..] + [c] + u) by {
      SlicesOfSplit(t, c, u, 1);
      AmountStops(t[1..], c, u);
      RewriteCopyStep(s);
    }
    assert RewriteAmounts(t) == [t[0]] + RewriteAmounts(t[1..]) by {
      RewriteCopyStep(t);
    }
    RewriteSplits(t[1..], c, u);
    Regroup([t[0]], RewriteAmounts(t[1..]), c, RewriteAmounts(u));
  }

  /** The slices of `t + [c] + u` that the split lemmas look at. */
  lemma SlicesOfSplit(t: string, c: char, u: string, k: nat)
    requires 1 <= k <= |t|
    ensures (t + [c] + u)[0] == t[0]
    ensures (t + [c] + u)[1..k] == t[1..k]
    ensures (t + [c] + u)[k..] == t[k..] + [c] + u
  {
  }

  /** Moving the head of a rewritten text in front of the separator. */
  lemma Regroup(h: string, x: string, c: char, y: string)
    ensures h + (x + [c] + y) == (h + x) + [c] + y
  {
  }

  /** The scanner copies or inserts `( * 100)`: it never produces `_`. */
  lemma {:induction false} RewriteAddsNoUnderscore(t: string)
    requires '_' !in t
    ensures '_' !in RewriteAmounts(t)
    decreases |t|
  {
    if t != [] {
      var n := AmountLength(t[1..]);
      if t[0] == '$' && n > 0 {
        NoUnderscoreInSlices(t, 1 + n);
        RewriteAddsNoUnderscore(t[1 + n..]);
        RewriteAmountStepAt(t, n);
      } else {
        NoUnderscoreInSlices(t, 1);
        RewriteAddsNoUnderscore(t[1..]);
        RewriteCopyStep(t);
      }
    }
  }

  lemma NoUnderscoreInSlices(t: string, k: nat)
    requires '_' !in t && 1 <= k <= |t|
    ensures '_' !in t[1..k] && '_' !in t[k..] && t[0] != '_'
  {
    assert forall ch :: ch in t[1..k] ==> ch in t;
    assert forall ch :: ch in t[k..] ==> ch in t;
  }

  // ---------------------------------------------------------------------
  // The whole pipeline on text without `_`

  /** In `a + "'$" + b` with no `'$` in `a`, the first stage replaces exactly that `'$`. */
  lemma ProtectFirst(a: string, b: string)
    requires !Contains(a, "'$")
    ensures Replace(a + "'$" + b, "'$", EscapedDollar) == a + EscapedDollar + Replace(b, "'$", EscapedDollar)
  {
    var s := a + "'$" + b;
    assert s == a + ("'$" + b);
    forall i: nat | i < |a| ensures !OccursAt(s, "'$", i) {
      if i + 2 <= |a| {
        assert s[i..i + 2] == a[i..i + 2];
        assert !OccursAt(a, "'$", i);
      } else {
        assert s[i + 1] == '\'';
      }
    }
    ReplaceSkips(a, "'$" + b, "'$", EscapedDollar);
    ReplaceAtStart(b, "'$", EscapedDollar);
  }

  /** Text that starts with a separator and holds no `$` is copied, and splits the scan. */
  lemma RewriteAround(a: string, m: string, r: string)
    requires m != [] && Separates(m[0]) && '$' !in m
    ensures RewriteAmounts(a + m + r) == RewriteAmounts(a) + m + RewriteAmounts(r)
  {
    assert '$' !in m[1..];
    SplitOffFirst(a, m, r);
    SplitOffFirst(RewriteAmounts(a), m, RewriteAmounts(r));
    RewriteSplits(a, m[0], m[1..] + r);
    RewriteSkips(m[1..], r);
  }

  lemma SplitOffFirst(x: string, m: string, y: string)
    requires m != []
    ensures x + m + y == x + [m[0]] + (m[1..] + y)
  {
    assert m == [m[0]] + m[1..];
  }

  /** The scanner treats the marker as plain text that ends any amount before it. */
  lemma RewriteAroundMarker(a: string, r: string)
    ensures RewriteAmounts(a + EscapedDollar + r) == RewriteAmounts(a) + EscapedDollar + RewriteAmounts(r)
  {
    assert EscapedDollar[0] == '_';
    RewriteAround(a, EscapedDollar, r);
  }

  /** The last stage restores the marker that follows `_`-free text. */
  lemma RestoreAfter(x: string, y: string)
    requires '_' !in x
    ensures Replace(x + EscapedDollar + y, EscapedDollar, "'$") == x + "'$" + Replace(y, EscapedDollar, "'$")
  {
    assert x + EscapedDollar + y == x + (EscapedDollar + y);
    ReplaceSkipsFree(x, EscapedDollar + y, EscapedDollar, "'$");
    ReplaceAtStart(y, EscapedDollar, "'$");
  }

  /**
   * A quoted dollar sign is protected: in `a + "'$" + b`, where `a` holds no
   * `'$`, the `'$` appears unchanged in the output, after the rewritten `a`
   * and before the rewritten rest.
   */
  lemma QuotedDollarKept(a: string, b: string)
    requires '_' !in a && '_' !in b && !Contains(a, "'$")
    ensures ReplaceDollarSigns(a + "'$" + b) == RewriteAmounts(a) + "'$" + ReplaceDollarSigns(b)
  {
    var r1 := Replace(b, "'$", EscapedDollar);
    ProtectFirst(a, b);
    RewriteAroundMarker(a, r1);
    RewriteAddsNoUnderscore(a);
    RestoreAfter(RewriteAmounts(a), RewriteAmounts(r1));
  }

  /** Without `'$` (and without `_`), the pipeline is the amount rewrite alone. */
  lemma NoQuotedDollar(s: string)
    requires '_' !in s && !Contains(s, "'$")
    ensures ReplaceDollarSigns(s) == RewriteAmounts(s)
  {
    ReplaceAbsent(s, "'$", EscapedDollar);
    RewriteAddsNoUnderscore(s);
    var r := RewriteAmounts(s);
    assert !Contains(r, EscapedDollar) by {
      forall i: nat | i <= |r| ensures !OccursAt(r, EscapedDollar, i) {
        if i + |EscapedDollar| <= |r| {
          assert r[i..i + |EscapedDollar|][0] == r[i] != '_';
        }
      }
    }
    ReplaceAbsent(r, EscapedDollar, "'$");
  }

  /** Text without quote, dollar or underscore passes through the pipeline unchanged. */
  lemma PipelineSkips(p: string, w: string)
    requires '\'' !in p && '$' !in p && '_' !in p
    ensures ReplaceDollarSigns(p + w) == p + ReplaceDollarSigns(w)
  {
    var r1 := Replace(w, "'$", EscapedDollar);
    ReplaceSkipsFree(p, w, "'$", EscapedDollar);
    RewriteSkips(p, r1);
    ReplaceSkipsFree(p, RewriteAmounts(r1), EscapedDollar, "'$");
  }

  /** The digits after a quoted dollar sign are kept as they are too: `'$12` stays `'$12`. */
  lemma QuotedAmountKept(a: string, d: string, rest: string)
    requires '_' !in a && '_' !in rest && !Contains(a, "'$")
    requires AllDigits(d)
    ensures ReplaceDollarSigns(a + "'$" + (d + rest)) == RewriteAmounts(a) + "'$" + (d + ReplaceDollarSigns(rest))
  {
    DigitsArePlain(d);
    QuotedDollarKept(a, d + rest);
    PipelineSkips(d, rest);
  }

  lemma DigitsArePlain(d: string)
    requires AllDigits(d)
    ensures '\'' !in d && '$' !in d && '_' !in d
  {
    forall i | 0 <= i < |d| ensures d[i] != '\'' && d[i] != '$' && d[i] != '_' {
      assert IsDigit(d[i]);
    }
  }

  /**
   * The marker is not escaped itself: input that already contains
   * `__ESCAPED_DOLLAR_SIGN__` comes out with `'$` in its place.
   */
  lemma MarkerInInput(w: string)
    ensures ReplaceDollarSigns(EscapedDollar + w) == "'$" + ReplaceDollarSigns(w)
  {
    var r1 := Replace(w, "'$", EscapedDollar);
    assert '\'' !in EscapedDollar && '$' !in EscapedDollar;
    ReplaceSkipsFree(EscapedDollar, w, "'$", EscapedDollar);
    RewriteSkips(EscapedDollar, r1);
    ReplaceAtStart(RewriteAmounts(r1), EscapedDollar, "'$");
  }
}
