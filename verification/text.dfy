/**
 The string primitives the analyser is built from, with Python's meaning:
 `str.strip()`, the substring test `sub in s`, `s.split(sep)[0]` and
 `s.split(sep)[1]`, `s.split('\n')`, and the code-point ordering Python uses
 for `<` on `str`.
 */
module Text {
  import opened Wrappers

  /** Python's `str.isspace()` for one code point. */
  predicate IsSpace(c: char) {
    var n := c as int;
    (9 <= n <= 13) || (28 <= n <= 32) || n == 0x85 || n == 0xA0 || n == 0x1680
    || (0x2000 <= n <= 0x200A) || n == 0x2028 || n == 0x2029 || n == 0x202F
    || n == 0x205F || n == 0x3000
  }

  predicate AllSpace(s: string) {
    forall i :: 0 <= i < |s| ==> IsSpace(s[i])
  }

  /** Neither end of `s` is whitespace: what `strip()` leaves behind. */
  predicate Trimmed(s: string) {
    s == [] || (!IsSpace(s[0]) && !IsSpace(s[|s| - 1]))
  }

  /** `s.lstrip()`: the suffix left after dropping leading whitespace. */
  function TrimLeft(s: string): (r: string)
    ensures |r| <= |s|
    ensures r == [] || !IsSpace(r[0])
  {
    if |s| > 0 && IsSpace(s[0]) then TrimLeft(s[1..]) else s
  }

  /** What `lstrip()` keeps is a suffix of `s`. */
  lemma {:induction false} TrimLeftSuffix(s: string)
    ensures TrimLeft(s) == s[|s| - |TrimLeft(s)|..]
    decreases |s|
  {
    if |s| > 0 && IsSpace(s[0]) {
      TrimLeftSuffix(s[1..]);
    }
  }

  /** What `lstrip()` drops is whitespace. */
  lemma {:induction false} TrimLeftDropsSpace(s: string)
    ensures forall i :: 0 <= i < |s| - |TrimLeft(s)| ==> IsSpace(s[i])
    decreases |s|
  {
    if |s| > 0 && IsSpace(s[0]) {
      TrimLeftDropsSpace(s[1..]);
      forall i | 0 < i < |s| - |TrimLeft(s)| ensures IsSpace(s[i]) {
        assert s[i] == s[1..][i - 1];
      }
    }
  }

  /** `s.rstrip()`: the prefix left after dropping trailing whitespace. */
  function TrimRight(s: string): (r: string)
    ensures |r| <= |s|
    ensures r == [] || !IsSpace(r[|r| - 1])
  {
    if |s| > 0 && IsSpace(s[|s| - 1]) then TrimRight(s[..|s| - 1]) else s
  }

  /** What `rstrip()` keeps is a prefix of `s`. */
  lemma {:induction false} TrimRightPrefix(s: string)
    ensures TrimRight(s) == s[..|TrimRight(s)|]
    decreases |s|
  {
    if |s| > 0 && IsSpace(s[|s| - 1]) {
      TrimRightPrefix(s[..|s| - 1]);
    }
  }

  /** What `rstrip()` drops is whitespace. */
  lemma {:induction false} TrimRightDropsSpace(s: string)
    ensures forall i :: |TrimRight(s)| <= i < |s| ==> IsSpace(s[i])
    decreases |s|
  {
    if |s| > 0 && IsSpace(s[|s| - 1]) {
      TrimRightDropsSpace(s[..|s| - 1]);
      forall i | |TrimRight(s)| <= i < |s| - 1 ensures IsSpace(s[i]) {
        assert s[i] == s[..|s| - 1][i];
      }
    }
  }

  /** `s.strip()`: `s` without the whitespace at either end. */
  function Trim(s: string): (r: string)
    ensures |r| <= |s| && Trimmed(r)
  {
    TrimRightPrefix(TrimLeft(s));
    TrimRight(TrimLeft(s))
  }

  /** `strip()` keeps one contiguous slice of `s` and drops only whitespace around it. */
  lemma {:induction false} TrimSlice(s: string) returns (a: nat, b: nat)
    ensures a <= b <= |s| && Trim(s) == s[a..b]
    ensures AllSpace(s[..a]) && AllSpace(s[b..])
  {
    var l := TrimLeft(s);
    var r := TrimRight(l);
    TrimLeftDropsSpace(s);
    TrimRightDropsSpace(l);
    TrimLeftSuffix(s);
    TrimRightPrefix(l);
    a, b := |s| - |l|, |s| - |l| + |r|;
    assert r == s[a..b];
    assert s[b..] == l[|r|..];
  }

  lemma {:induction false} TrimLeftPrefixSpace(w: string, x: string)
    requires AllSpace(w)
    ensures TrimLeft(w + x) == TrimLeft(x)
    decreases |w|
  {
    if |w| > 0 {
      assert (w + x)[1..] == w[1..] + x;
      TrimLeftPrefixSpace(w[1..], x);
    } else {
      assert w + x == x;
    }
  }

  lemma {:induction false} TrimRightSuffixSpace(x: string, w: string)
    requires AllSpace(w)
    ensures TrimRight(x + w) == TrimRight(x)
    decreases |w|
  {
    if |w| > 0 {
      var n := |w| - 1;
      assert (x + w)[..|x + w| - 1] == x + w[..n];
      TrimRightSuffixSpace(x, w[..n]);
    } else {
      assert x + w == x;
    }
  }

  /** `lstrip()` only touches the front: whitespace appended at the back survives it. */
  lemma {:induction false} TrimLeftAppend(x: string, w: string)
    requires AllSpace(w)
    ensures TrimLeft(x + w) == if AllSpace(x) then [] else TrimLeft(x) + w
    decreases |x|
  {
    if |x| == 0 {
      assert x + w == w;
      TrimLeftPrefixSpace(w, []);
      assert w + [] == w;
    } else if IsSpace(x[0]) {
      assert (x + w)[1..] == x[1..] + w;
      TrimLeftAppend(x[1..], w);
      assert AllSpace(x) <==> AllSpace(x[1..]) by {
        if AllSpace(x[1..]) {
          forall i | 0 <= i < |x| ensures IsSpace(x[i]) {
            if i > 0 { assert x[i] == x[1..][i - 1]; }
          }
        }
      }
    } else {
      assert !AllSpace(x);
    }
  }

  lemma {:induction false} TrimRightAllSpace(w: string)
    requires AllSpace(w)
    ensures TrimRight(w) == []
    decreases |w|
  {
    if |w| > 0 {
      TrimRightAllSpace(w[..|w| - 1]);
    }
  }

  /** Whitespace on either side of a string never changes its `strip()`. */
  lemma {:induction false} TrimIgnoresSpaceEnds(w1: string, x: string, w2: string)
    requires AllSpace(w1) && AllSpace(w2)
    ensures Trim(w1 + x + w2) == Trim(x)
  {
    assert w1 + x + w2 == w1 + (x + w2);
    TrimLeftPrefixSpace(w1, x + w2);
    TrimLeftAppend(x, w2);
    if !AllSpace(x) {
      TrimRightSuffixSpace(TrimLeft(x), w2);
    } else {
      TrimLeftAppend(x, []);
      assert x + [] == x;
    }
  }

  /** A non-space character at `n - 1` survives `rstrip`. */
  lemma {:induction false} TrimRightKeeps(s: string, n: nat)
    requires 0 < n <= |s| && !IsSpace(s[n - 1])
    ensures n <= |TrimRight(s)|
    decreases |s|
  {
    if IsSpace(s[|s| - 1]) {
      TrimRightKeeps(s[..|s| - 1], n);
    }
  }

  /**
   A string that starts with a non-space and has a non-space at `n - 1`
   keeps its first `n` characters through `strip`.
   */
  lemma {:induction false} TrimKeepsHead(s: string, n: nat)
    requires 0 < n <= |s| && !IsSpace(s[0]) && !IsSpace(s[n - 1])
    ensures n <= |Trim(s)| && Trim(s) == s[..|Trim(s)|]
  {
    assert TrimLeft(s) == s;
    TrimRightKeeps(s, n);
    TrimRightPrefix(s);
  }

  /** An already stripped string is its own `strip()`; with `Trimmed(Trim(s))` this makes `strip()` idempotent. */
  lemma {:induction false} TrimTrimmed(s: string)
    requires Trimmed(s)
    ensures Trim(s) == s
  {
  }

  // ---------------------------------------------------------------------------
  // Substring search

  /** `sub` occurs in `s` starting at index `k`. */
  ghost predicate OccursAt(s: string, sub: string, k: int) {
    0 <= k && k + |sub| <= |s| && s[k..k + |sub|] == sub
  }

  /** The first index at or after `from` where `sub` occurs, as `str.find` scans. */
  function FindFrom(s: string, sub: string, from: nat): (r: Option<nat>)
    ensures r.Some? ==> from <= r.value && OccursAt(s, sub, r.value)
    ensures r.Some? ==> forall k :: from <= k < r.value ==> !OccursAt(s, sub, k)
    ensures r.None? ==> forall k :: from <= k ==> !OccursAt(s, sub, k)
    decreases |s| - from
  {
    if from + |sub| > |s| then None
    else if s[from..from + |sub|] == sub then Some(from)
    else FindFrom(s, sub, from + 1)
  }

  /** `s.find(sub)`, with `None` for Python's -1. */
  function Find(s: string, sub: string): (r: Option<nat>)
    ensures r.Some? ==> OccursAt(s, sub, r.value)
                        && forall k :: 0 <= k < r.value ==> !OccursAt(s, sub, k)
    ensures r.None? ==> forall k :: !OccursAt(s, sub, k)
  {
    FindFrom(s, sub, 0)
  }

  /** Python's substring test `sub in s`. */
  predicate Contains(s: string, sub: string) {
    Find(s, sub).Some?
  }

  /** A slice of a string without `sub` is still without `sub`. */
  lemma {:induction false} NotContainsSlice(s: string, sub: string, a: int, b: int)
    requires 0 <= a <= b <= |s|
    requires !Contains(s, sub)
    ensures !Contains(s[a..b], sub)
  {
    var t := s[a..b];
    if Contains(t, sub) {
      var k := Find(t, sub).value;
      assert t[k..k + |sub|] == s[a + k..a + k + |sub|];
      assert OccursAt(s, sub, a + k);
      assert false;
    }
  }

  lemma {:induction false} NotContainsTrim(s: string, sub: string)
    requires !Contains(s, sub)
    ensures !Contains(Trim(s), sub)
  {
    var a, b := TrimSlice(s);
    NotContainsSlice(s, sub, a, b);
  }

  /** For a one-character needle the substring test is plain membership. */
  lemma {:induction false} ContainsChar(s: string, c: char)
    ensures Contains(s, [c]) <==> c in s
  {
    if c in s {
      var k :| 0 <= k < |s| && s[k] == c;
      assert s[k..k + 1] == [c];
      assert OccursAt(s, [c], k);
    }
    if Contains(s, [c]) {
      var k := Find(s, [c]).value;
      assert s[k..k + 1] == [c];
      assert s[k] == s[k..k + 1][0];
    }
  }

  /** `s.split(sep)[0]`: everything before the first `sep`, or all of `s`. */
  function Before(s: string, sep: string): (r: string)
    requires |sep| > 0
    ensures |r| <= |s| && r == s[..|r|]
    ensures !Contains(r, sep)
    ensures |r| == |s| <==> !Contains(s, sep)
    ensures |r| < |s| ==> OccursAt(s, sep, |r|)
    ensures forall k :: 0 <= k < |r| ==> !OccursAt(s, sep, k)
  {
    match Find(s, sep)
    case Some(i) =>
      assert !Contains(s[..i], sep) by {
        if Contains(s[..i], sep) {
          var k := Find(s[..i], sep).value;
          assert s[..i][k..k + |sep|] == s[k..k + |sep|];
          assert OccursAt(s, sep, k);
        }
      }
      s[..i]
    case None => s
  }

  /**
   `s.split(sep)[1]`, defined when `sep in s`: the text after the first `sep`
   and before the second one (or the end).
   */
  function After(s: string, sep: string): (r: string)
    requires |sep| > 0 && Contains(s, sep)
    ensures var i := Find(s, sep).value;
            i + |sep| + |r| <= |s| && r == s[i + |sep|..i + |sep| + |r|]
            && (i + |sep| + |r| == |s| || OccursAt(s, sep, i + |sep| + |r|))
    ensures !Contains(r, sep)
    ensures var i := Find(s, sep).value;
            forall k :: i + |sep| <= k < i + |sep| + |r| ==> !OccursAt(s, sep, k)
  {
    var d := Find(s, sep).value + |sep|;
    var r := Before(s[d..], sep);
    BeforeInSuffix(s, sep, d);
    assert !Contains(r, sep);
    r
  }

  /** `split(sep)[0]` of a suffix, read back in the whole string. */
  lemma {:induction false} BeforeInSuffix(s: string, sep: string, d: nat)
    requires |sep| > 0 && d <= |s|
    ensures var r := Before(s[d..], sep);
            d + |r| <= |s| && r == s[d..d + |r|]
            && (d + |r| == |s| || OccursAt(s, sep, d + |r|))
            && forall k :: d <= k < d + |r| ==> !OccursAt(s, sep, k)
  {
    var rest := s[d..];
    var r := Before(rest, sep);
    assert rest[..|r|] == s[d..d + |r|];
    OccursInSuffix(s, sep, d, d + |r|);
    forall k | d <= k < d + |r|
      ensures !OccursAt(s, sep, k)
    {
      OccursInSuffix(s, sep, d, k);
    }
  }

  /** Occurrences at or after `d` are exactly those of the suffix from `d`, shifted. */
  lemma {:induction false} OccursInSuffix(s: string, sub: string, d: nat, k: int)
    requires d <= k && d <= |s|
    ensures OccursAt(s[d..], sub, k - d) <==> OccursAt(s, sub, k)
  {
    if k + |sub| <= |s| {
      assert s[d..][k - d..k - d + |sub|] == s[k..k + |sub|];
    }
  }

  /** A one-character string occurs exactly where that character stands. */
  lemma {:induction false} OccursAtChar(s: string, c: char, k: int)
    ensures OccursAt(s, [c], k) <==> 0 <= k < |s| && s[k] == c
  {
    if 0 <= k < |s| {
      assert s[k..k + 1] == [s[k]];
    }
  }

  /**
   `s.split(c)[0]` for a one-character separator is the prefix up to the
   first `c`: any cut `j` with no `c` before it and `c` (or the end) at it.
   */
  lemma {:induction false} BeforeCharIndex(s: string, c: char, j: nat)
    requires j <= |s|
    requires forall k :: 0 <= k < j ==> s[k] != c
    requires j == |s| || s[j] == c
    ensures Before(s, [c]) == s[..j]
  {
    var r := Before(s, [c]);
    OccursAtChar(s, c, |r|);
    OccursAtChar(s, c, j);
  }

  /** Without `sep` in `s`, `s.split(sep)[0]` is `s` itself. */
  lemma {:induction false} BeforeAbsent(s: string, sep: string)
    requires |sep| > 0 && !Contains(s, sep)
    ensures Before(s, sep) == s
  {
  }

  // ---------------------------------------------------------------------------
  // Python string ordering

  /** Python's `a < b` on `str`: lexicographic by code point, a proper prefix first. */
  predicate StrLess(a: string, b: string) {
    if |a| == 0 then |b| > 0
    else if |b| == 0 then false
    else if a[0] != b[0] then a[0] < b[0]
    else StrLess(a[1..], b[1..])
  }

  lemma {:induction false} StrLessIrreflexive(a: string)
    ensures !StrLess(a, a)
  {
    if |a| > 0 { StrLessIrreflexive(a[1..]); }
  }

  lemma {:induction false} StrLessTransitive(a: string, b: string, c: string)
    requires StrLess(a, b) && StrLess(b, c)
    ensures StrLess(a, c)
  {
    if |a| > 0 && |b| > 0 && |c| > 0 && a[0] == b[0] && b[0] == c[0] {
      StrLessTransitive(a[1..], b[1..], c[1..]);
    }
  }

  /** Distinct strings are always ordered one way or the other. */
  lemma {:induction false} StrLessTotal(a: string, b: string)
    requires a != b
    ensures StrLess(a, b) || StrLess(b, a)
  {
    if |a| > 0 && |b| > 0 && a[0] == b[0] {
      assert a == [a[0]] + a[1..] && b == [b[0]] + b[1..];
      StrLessTotal(a[1..], b[1..]);
    }
  }

  lemma {:induction false} StrLessAsymmetric(a: string, b: string)
    requires StrLess(a, b)
    ensures !StrLess(b, a)
  {
    if |a| > 0 && |b| > 0 && a[0] == b[0] {
      StrLessAsymmetric(a[1..], b[1..]);
    }
  }

  /** `sorted([a, b], reverse=True)[0]`: the larger of two strings in Python's order. */
  function StrMax(a: string, b: string): (r: string)
    ensures r == a || r == b
    ensures !StrLess(r, a) && !StrLess(r, b)
  {
    StrLessIrreflexive(a);
    StrLessIrreflexive(b);
    if StrLess(a, b) then
      StrLessAsymmetric(a, b);
      b
    else
      a
  }

  /** The larger one is unique: the other one is strictly below it. */
  lemma {:induction false} StrMaxStrict(a: string, b: string)
    requires a != b
    ensures StrLess(a, StrMax(a, b)) || StrLess(b, StrMax(a, b))
    ensures StrMax(a, b) == StrMax(b, a)
  {
    StrLessTotal(a, b);
    if StrLess(a, b) { StrLessAsymmetric(a, b); }
  }

  // ---------------------------------------------------------------------------
  // Line splitting

  /** `s.split('\n')`: always at least one piece, none of them holding a newline. */
  function Lines(s: string): (r: seq<string>)
    ensures |r| >= 1
    ensures forall i :: 0 <= i < |r| ==> '\n' !in r[i]
  {
    if |s| == 0 then [[]]
    else
      var rest := Lines(s[1..]);
      if s[0] == '\n' then [[]] + rest
      else [[s[0]] + rest[0]] + rest[1..]
  }

  /** `'\n'.join(pieces)`. */
  function JoinLines(pieces: seq<string>): string
    requires |pieces| >= 1
  {
    if |pieces| == 1 then pieces[0]
    else pieces[0] + "\n" + JoinLines(pieces[1..])
  }

  /** Splitting on newlines loses nothing: joining the pieces gives the text back. */
  lemma {:induction false} LinesJoin(s: string)
    ensures JoinLines(Lines(s)) == s
  {
    if |s| > 0 {
      var rest := Lines(s[1..]);
      LinesJoin(s[1..]);
      if s[0] == '\n' {
        assert s == "\n" + s[1..];
      } else if |rest| == 1 {
        assert s == [s[0]] + s[1..];
      } else {
        assert ([[s[0]] + rest[0]] + rest[1..])[1..] == rest[1..];
        assert s == [s[0]] + (rest[0] + "\n" + JoinLines(rest[1..]));
      }
    }
  }

  /** The pieces of `a + b` when `la` and `lb` are the pieces of `a` and `b`. */
  function Glue(la: seq<string>, lb: seq<string>): seq<string>
    requires |la| >= 1 && |lb| >= 1
  {
    la[..|la| - 1] + [la[|la| - 1] + lb[0]] + lb[1..]
  }

  lemma {:induction false} GlueCons(c: char, x: seq<string>, lb: seq<string>)
    requires |x| >= 1 && |lb| >= 1
    ensures var g := Glue(x, lb);
            Glue([[c] + x[0]] + x[1..], lb) == [[c] + g[0]] + g[1..]
  {
    var g := Glue(x, lb);
    var y := [[c] + x[0]] + x[1..];
    if |x| == 1 {
      assert Glue(y, lb) == [[c] + x[0] + lb[0]] + lb[1..];
      assert g == [x[0] + lb[0]] + lb[1..];
      assert g[0] == x[0] + lb[0] && g[1..] == lb[1..];
      assert [c] + x[0] + lb[0] == [c] + (x[0] + lb[0]);
    } else {
      assert y[..|y| - 1] == [[c] + x[0]] + x[1..|x| - 1];
      assert g[0] == x[0];
      assert g[1..] == x[1..|x| - 1] + [x[|x| - 1] + lb[0]] + lb[1..];
    }
  }

  lemma {:induction false} GlueNewline(x: seq<string>, lb: seq<string>)
    requires |x| >= 1 && |lb| >= 1
    ensures Glue([[]] + x, lb) == [[]] + Glue(x, lb)
  {
    var y := [[]] + x;
    assert y[..|y| - 1] == [[]] + x[..|x| - 1];
  }

  /** Splitting a text that starts with one character. */
  lemma {:induction false} LinesCons(c: char, s: string)
    ensures var rest := Lines(s);
            Lines([c] + s) == if c == '\n' then [[]] + rest else [[c] + rest[0]] + rest[1..]
  {
    assert ([c] + s)[1..] == s;
  }

  lemma {:induction false} LinesAppendEmpty(b: string)
    ensures Lines(b) == Glue(Lines([]), Lines(b))
  {
    var lb := Lines(b);
    assert Lines([]) == [[]];
    assert [] + lb[0] == lb[0];
    assert lb == [lb[0]] + lb[1..];
  }

  /** Splitting a concatenation glues the last piece of the left to the first of the right. */
  lemma {:induction false} LinesAppend(a: string, b: string)
    ensures Lines(a + b) == Glue(Lines(a), Lines(b))
    decreases |a|
  {
    if |a| == 0 {
      assert a + b == b;
      LinesAppendEmpty(b);
    } else {
      var lb := Lines(b);
      assert a + b == [a[0]] + (a[1..] + b);
      assert a == [a[0]] + a[1..];
      LinesCons(a[0], a[1..] + b);
      LinesCons(a[0], a[1..]);
      LinesAppend(a[1..], b);
      if a[0] == '\n' {
        GlueNewline(Lines(a[1..]), lb);
      } else {
        GlueCons(a[0], Lines(a[1..]), lb);
      }
    }
  }
}
