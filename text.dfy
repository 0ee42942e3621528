/**
 * The few java.lang.String operations the exporter relies on, over `seq<char>`:
 * `replace`, `trim`, `startsWith` and `equalsIgnoreCase`.
 */
module Text {

  type String = seq<char>

  predicate StartsWith(s: String, prefix: String) {
    |prefix| <= |s| && s[..|prefix|] == prefix
  }

  predicate EndsWith(s: String, suffix: String) {
    |suffix| <= |s| && s[|s| - |suffix|..] == suffix
  }

  /** An occurrence of `p` starts at index `i` of `s`. */
  predicate MatchAt(s: String, p: String, i: nat) {
    i + |p| <= |s| && s[i..i + |p|] == p
  }

  predicate Occurs(s: String, p: String) {
    exists i: nat | i <= |s| :: MatchAt(s, p, i)
  }

  /** `replacement` before every character of `s` and once more at the end. */
  function Interleave(s: String, replacement: String): String {
    if s == [] then replacement else replacement + [s[0]] + Interleave(s[1..], replacement)
  }

  /**
   * String.replace(target, replacement): every occurrence of `target`, found
   * left to right without overlap, is replaced. An empty target matches at
   * every position, as in Java.
   */
  function ReplaceAll(s: String, target: String, replacement: String): String
    decreases |s|
  {
    if |target| == 0 then Interleave(s, replacement)
    else if |s| < |target| then s
    else if s[..|target|] == target then replacement + ReplaceAll(s[|target|..], target, replacement)
    else [s[0]] + ReplaceAll(s[1..], target, replacement)
  }

  /** A string that does not contain the target is returned unchanged. */
  lemma {:induction false} ReplaceAbsent(s: String, target: String, replacement: String)
    requires |target| > 0 && !Occurs(s, target)
    ensures ReplaceAll(s, target, replacement) == s
  {
    if |s| >= |target| {
      assert !MatchAt(s, target, 0);
      forall i: nat | MatchAt(s[1..], target, i) ensures MatchAt(s, target, i + 1) {
        assert s[i + 1..i + 1 + |target|] == s[1..][i..i + |target|];
      }
      ReplaceAbsent(s[1..], target, replacement);
    }
  }

  /** An occurrence at the very start is replaced, and the scan resumes after it. */
  lemma ReplaceAtStart(target: String, rest: String, replacement: String)
    requires |target| > 0
    ensures ReplaceAll(target + rest, target, replacement) == replacement + ReplaceAll(rest, target, replacement)
  {
    var s := target + rest;
    assert s[..|target|] == target;
    assert s[|target|..] == rest;
  }

  /** A prefix in which no occurrence starts is copied through unchanged. */
  lemma {:induction false} ReplaceSkipsPrefix(x: String, y: String, target: String, replacement: String)
    requires |target| > 0
    requires forall i: nat :: i < |x| ==> !MatchAt(x + y, target, i)
    ensures ReplaceAll(x + y, target, replacement) == x + ReplaceAll(y, target, replacement)
  {
    var s := x + y;
    if x == [] {
      assert s == y;
    } else if |s| < |target| {
      assert ReplaceAll(y, target, replacement) == y;
    } else {
      assert !MatchAt(s, target, 0);
      assert ReplaceAll(s, target, replacement) == [s[0]] + ReplaceAll(s[1..], target, replacement);
      assert s[1..] == x[1..] + y;
      forall i: nat | i < |x[1..]| ensures !MatchAt(x[1..] + y, target, i) {
        assert !MatchAt(s, target, i + 1);
        if i + |target| <= |s[1..]| {
          assert s[1..][i..i + |target|] == s[i + 1..i + 1 + |target|];
        }
      }
      ReplaceSkipsPrefix(x[1..], y, target, replacement);
      assert x == [s[0]] + x[1..];
    }
  }

  /** A pattern cannot match where the text differs from one of its characters. */
  lemma MismatchAt(s: String, p: String, i: nat, j: nat)
    requires j < |p| && i + j < |s| && s[i + j] != p[j]
    ensures !MatchAt(s, p, i)
  {
    if i + |p| <= |s| {
      assert s[i..i + |p|][j] == s[i + j];
    }
  }

  /** A pattern ending in a character the text lacks occurs nowhere in it. */
  lemma AbsentLast(s: String, p: String)
    requires |p| > 0 && forall k :: 0 <= k < |s| ==> s[k] != p[|p| - 1]
    ensures !Occurs(s, p)
  {
    forall i: nat | i <= |s|
      ensures !MatchAt(s, p, i)
    {
      if i + |p| <= |s| {
        MismatchAt(s, p, i, |p| - 1);
      }
    }
  }

  /** Number of characters `<= ' '` that String.trim removes at the front. */
  function LeadingBlanks(s: String): (n: nat)
    ensures n <= |s|
    ensures forall k :: 0 <= k < n ==> s[k] <= ' '
    ensures n < |s| ==> s[n] > ' '
  {
    if s == [] || s[0] > ' ' then 0 else 1 + LeadingBlanks(s[1..])
  }

  /** Length that remains once String.trim has removed the characters `<= ' '` at the end. */
  function TrailingCut(s: String): (n: nat)
    ensures n <= |s|
    ensures forall k :: n <= k < |s| ==> s[k] <= ' '
    ensures n > 0 ==> s[n - 1] > ' '
  {
    if s == [] || s[|s| - 1] > ' ' then |s| else TrailingCut(s[..|s| - 1])
  }

  /** The cut is right after the last character above the space. */
  lemma {:induction false} TrailingCutAt(s: String, n: nat)
    requires 0 < n <= |s| && s[n - 1] > ' '
    requires forall k :: n <= k < |s| ==> s[k] <= ' '
    ensures TrailingCut(s) == n
    decreases |s|
  {
    if |s| > n {
      var u := s[..|s| - 1];
      assert u[n - 1] == s[n - 1];
      assert forall k :: n <= k < |u| ==> u[k] <= ' ' by {
        forall k | n <= k < |u| ensures u[k] <= ' ' { assert u[k] == s[k]; }
      }
      TrailingCutAt(u, n);
    }
  }

  /**
   * String.trim: the slice of `s` left after removing every leading and
   * trailing character whose code is at most that of the space.
   */
  function Trim(s: String): (t: String)
    ensures LeadingBlanks(s) + |t| <= |s|
    ensures t == s[LeadingBlanks(s)..LeadingBlanks(s) + |t|]
    ensures forall k :: LeadingBlanks(s) + |t| <= k < |s| ==> s[k] <= ' '
    ensures t != [] ==> t[0] > ' ' && t[|t| - 1] > ' '
  {
    var u := s[LeadingBlanks(s)..];
    u[..TrailingCut(u)]
  }

  function ToUpper(c: char): char {
    if 'a' <= c <= 'z' then (c as int - 32) as char else c
  }

  /** String.equalsIgnoreCase, restricted to ASCII case folding. */
  predicate EqualsIgnoreCase(a: String, b: String) {
    |a| == |b| && forall i :: 0 <= i < |a| ==> ToUpper(a[i]) == ToUpper(b[i])
  }

  /** A concatenation ends with its last part. */
  lemma EndsWithAppend(h: String, t: String)
    ensures EndsWith(h + t, t)
  {
    assert (h + t)[|h|..] == t;
  }

  /** The middle of a three-part concatenation is the slice between the lengths of the outer parts. */
  lemma Middle(h: String, x: String, t: String)
    ensures var f := h + x + t; |h| + |t| <= |f| && f[|h|..|f| - |t|] == x
  {
  }
}
