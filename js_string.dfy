/**
 * The JavaScript string operations the extension relies on, with their
 * ECMAScript semantics: `includes`, `indexOf`, `startsWith`, `endsWith`,
 * `trim` and `substring`. A JavaScript string is a sequence of UTF-16
 * code units; here it is a `seq<char>`, whose elements are Unicode scalar
 * values. The two agree on text without surrogate pairs, which covers the
 * markers and settings the extension compares; a character outside the
 * Basic Multilingual Plane is one element here and two units there.
 */
module JsString {

  /** `sub` occurs in `s` starting at index `i`. */
  predicate OccursAt(s: string, sub: string, i: int) {
    0 <= i && i + |sub| <= |s| && s[i..i + |sub|] == sub
  }

  /** `s.includes(sub)`. */
  predicate Contains(s: string, sub: string) {
    exists i | 0 <= i <= |s| - |sub| :: OccursAt(s, sub, i)
  }

  /**
   * `s.indexOf(sub, from)`: the first index at or after `from` where `sub`
   * occurs, or -1 when there is none (`IndexOfFromFinds` proves it).
   */
  function IndexOfFrom(s: string, sub: string, from: nat): (r: int)
    ensures r == -1 || (from <= r && r + |sub| <= |s|)
    decreases |s| - from
  {
    if from + |sub| > |s| then -1
    else if s[from..from + |sub|] == sub then from
    else IndexOfFrom(s, sub, from + 1)
  }

  /** `s.indexOf(sub)`. */
  function IndexOf(s: string, sub: string): (r: int)
    ensures r == -1 || 0 <= r <= |s| - |sub|
  {
    IndexOfFrom(s, sub, 0)
  }

  /** `indexOf` finds an occurrence at or after `from`, and no occurrence lies between `from` and it. */
  lemma {:induction false} IndexOfFromFinds(s: string, sub: string, from: nat)
    ensures var r := IndexOfFrom(s, sub, from);
            && (r == -1 || OccursAt(s, sub, r))
            && forall j :: from <= j && (r == -1 || j < r) ==> !OccursAt(s, sub, j)
    decreases |s| - from
  {
    if from + |sub| <= |s| && s[from..from + |sub|] != sub {
      IndexOfFromFinds(s, sub, from + 1);
    }
  }

  /** `indexOf` returns -1 exactly when `sub` does not occur, and otherwise its first occurrence. */
  lemma IndexOfFinds(s: string, sub: string)
    ensures var r := IndexOf(s, sub);
            && (r == -1 <==> !Contains(s, sub))
            && (r != -1 ==> OccursAt(s, sub, r) && forall j :: 0 <= j < r ==> !OccursAt(s, sub, j))
  {
    IndexOfFromFinds(s, sub, 0);
  }

  /** The result of `indexOf` is determined by where `sub` first occurs at or after `from`. */
  lemma {:induction false} IndexOfFromIs(s: string, sub: string, from: nat, r: nat)
    requires from <= r && OccursAt(s, sub, r)
    requires forall j :: from <= j < r ==> !OccursAt(s, sub, j)
    ensures IndexOfFrom(s, sub, from) == r
    decreases r - from
  {
    if from < r {
      assert !OccursAt(s, sub, from);
      IndexOfFromIs(s, sub, from + 1, r);
    }
  }

  /** `indexOf` returns -1 when `sub` does not occur at or after `from`. */
  lemma {:induction false} IndexOfFromAbsent(s: string, sub: string, from: nat)
    requires forall j :: from <= j ==> !OccursAt(s, sub, j)
    ensures IndexOfFrom(s, sub, from) == -1
    decreases |s| - from
  {
    if from + |sub| <= |s| {
      assert !OccursAt(s, sub, from);
      IndexOfFromAbsent(s, sub, from + 1);
    }
  }

  /** Starting the search earlier changes nothing when `sub` does not occur in between. */
  lemma {:induction false} IndexOfFromSkips(s: string, sub: string, from: nat, f: nat)
    requires from <= f
    requires forall j :: from <= j < f ==> !OccursAt(s, sub, j)
    ensures IndexOfFrom(s, sub, from) == IndexOfFrom(s, sub, f)
    decreases f - from
  {
    if from < f && from + |sub| <= |s| {
      assert !OccursAt(s, sub, from);
      IndexOfFromSkips(s, sub, from + 1, f);
    }
  }

  /** Occurrences in `a + b` past `a` are occurrences in `b`. */
  lemma OccursAtShift(a: string, b: string, sub: string, j: nat)
    ensures OccursAt(a + b, sub, |a| + j) <==> OccursAt(b, sub, j)
  {
    if 0 <= j && j + |sub| <= |b| {
      assert (a + b)[|a| + j..|a| + j + |sub|] == b[j..j + |sub|];
    }
  }

  /** An occurrence that ends within the first `n` characters depends only on them. */
  lemma OccursAtCommonPrefix(s: string, t: string, sub: string, j: int, n: nat)
    requires n <= |s| && n <= |t| && s[..n] == t[..n]
    requires 0 <= j && j + |sub| <= n
    ensures OccursAt(s, sub, j) <==> OccursAt(t, sub, j)
  {
    assert s[j..j + |sub|] == s[..n][j..j + |sub|];
    assert t[j..j + |sub|] == t[..n][j..j + |sub|];
  }

  /**
   * A line break separates `a` from `b` for any needle without line breaks:
   * searching `a + "\n" + b` from a point past which `a` holds no occurrence
   * finds exactly what searching `b` finds, shifted past `a` and the break.
   */
  lemma {:induction false} IndexOfPastLineBreak(a: string, b: string, sub: string, from: nat)
    requires |sub| > 0 && '\n' !in sub
    requires from <= |a|
    requires forall j :: from <= j ==> !OccursAt(a, sub, j)
    ensures IndexOfFrom(a + "\n" + b, sub, from) ==
              (var r := IndexOf(b, sub); if r == -1 then -1 else |a| + 1 + r)
  {
    var s := a + "\n" + b;
    assert s == (a + "\n") + b;
    forall j | from <= j <= |a|
      ensures !OccursAt(s, sub, j)
    {
      if j + |sub| <= |a| {
        OccursAtCommonPrefix(s, a, sub, j, |a|);
      } else if j + |sub| <= |s| {
        assert s[j..j + |sub|][|a| - j] == '\n';
      }
    }
    forall j | 0 <= j
      ensures OccursAt(s, sub, |a| + 1 + j) <==> OccursAt(b, sub, j)
    {
      OccursAtShift(a + "\n", b, sub, j);
    }
    var r := IndexOf(b, sub);
    IndexOfFinds(b, sub);
    if r == -1 {
      forall j | from <= j
        ensures !OccursAt(s, sub, j)
      {
        if j > |a| {
          assert !OccursAt(b, sub, j - |a| - 1);
        }
      }
      IndexOfFromAbsent(s, sub, from);
    } else {
      forall j | from <= j < |a| + 1 + r
        ensures !OccursAt(s, sub, j)
      {
        if j > |a| {
          assert !OccursAt(b, sub, j - |a| - 1);
        }
      }
      IndexOfFromIs(s, sub, from, |a| + 1 + r);
    }
  }

  /** `s.startsWith(prefix)`. */
  predicate StartsWith(s: string, prefix: string) {
    |prefix| <= |s| && s[..|prefix|] == prefix
  }

  /** `s.endsWith(suffix)`. */
  predicate EndsWith(s: string, suffix: string) {
    |suffix| <= |s| && s[|s| - |suffix|..] == suffix
  }

  /**
   * The characters `String.prototype.trim` strips: ECMAScript's WhiteSpace
   * and LineTerminator productions.
   */
  predicate IsWhitespace(c: char) {
    c == '\t' || c == '\n' || c == '\U{000B}' || c == '\U{000C}' || c == '\r' || c == ' '
    || c == '\U{00A0}' || c == '\U{1680}' || ('\U{2000}' <= c <= '\U{200A}')
    || c == '\U{2028}' || c == '\U{2029}' || c == '\U{202F}' || c == '\U{205F}'
    || c == '\U{3000}' || c == '\U{FEFF}'
  }

  predicate AllWhitespace(s: string) {
    forall i :: 0 <= i < |s| ==> IsWhitespace(s[i])
  }

  /**
   * Leading whitespace removed: a suffix of `s` that is empty or starts
   * with a non-whitespace character (`TrimStartStrips` proves that only
   * whitespace was removed).
   */
  function TrimStart(s: string): (r: string)
    ensures |r| <= |s|
    ensures r == [] || !IsWhitespace(r[0])
  {
    if |s| > 0 && IsWhitespace(s[0]) then TrimStart(s[1..]) else s
  }

  /** `TrimStart` keeps a suffix of `s` and removes only whitespace in front of it. */
  lemma {:induction false} TrimStartStrips(s: string)
    ensures TrimStart(s) == s[|s| - |TrimStart(s)|..]
    ensures AllWhitespace(s[..|s| - |TrimStart(s)|])
  {
    if |s| > 0 && IsWhitespace(s[0]) {
      var r := TrimStart(s[1..]);
      TrimStartStrips(s[1..]);
      assert s[1..][|s| - 1 - |r|..] == s[|s| - |r|..];
      var removed := s[..|s| - |r|];
      forall i | 0 <= i < |removed|
        ensures IsWhitespace(removed[i])
      {
        if i > 0 {
          assert removed[i] == s[1..][..|s| - 1 - |r|][i - 1];
        }
      }
    } else {
      assert s[0..] == s;
    }
  }

  /**
   * Trailing whitespace removed: a prefix of `s` that is empty or ends
   * with a non-whitespace character (`TrimEndStrips` proves that only
   * whitespace was removed).
   */
  function TrimEnd(s: string): (r: string)
    ensures |r| <= |s|
    ensures r == [] || !IsWhitespace(r[|r| - 1])
  {
    if |s| > 0 && IsWhitespace(s[|s| - 1]) then TrimEnd(s[..|s| - 1]) else s
  }

  /** `TrimEnd` keeps a prefix of `s` and removes only whitespace after it. */
  lemma {:induction false} TrimEndStrips(s: string)
    ensures TrimEnd(s) == s[..|TrimEnd(s)|]
    ensures AllWhitespace(s[|TrimEnd(s)|..])
  {
    if |s| > 0 && IsWhitespace(s[|s| - 1]) {
      var r := TrimEnd(s[..|s| - 1]);
      TrimEndStrips(s[..|s| - 1]);
      assert s[..|s| - 1][..|r|] == s[..|r|];
      forall i | 0 <= i < |s| - |r|
        ensures IsWhitespace(s[|r|..][i])
      {
        if |r| + i < |s| - 1 {
          assert s[|r|..][i] == s[..|s| - 1][|r|..][i];
        }
      }
    } else {
      assert s[..|s|] == s;
    }
  }

  /** `s.trim()`. */
  function Trim(s: string): (r: string)
    ensures |r| <= |s|
  {
    TrimEnd(TrimStart(s))
  }

  /** `trim` leaves nothing exactly when the text is all whitespace. */
  lemma TrimEmptyIff(s: string)
    ensures Trim(s) == [] <==> AllWhitespace(s)
  {
    var t := TrimStart(s);
    TrimStartStrips(s);
    if t == [] {
      assert s[..|s|] == s;
    } else {
      assert s[|s| - |t|] == t[0];
      TrimEndStrips(t);
    }
  }

  /** Trailing whitespace does not survive `trimEnd`. */
  lemma {:induction false} TrimEndAppendWhitespace(s: string, w: string)
    requires AllWhitespace(w)
    ensures TrimEnd(s + w) == TrimEnd(s)
    decreases |w|
  {
    if |w| > 0 {
      var w' := w[..|w| - 1];
      assert (s + w)[..|s + w| - 1] == s + w';
      TrimEndAppendWhitespace(s, w');
    } else {
      assert s + w == s;
    }
  }

  /** Appending whitespace to a string with visible content keeps its leading trim in front. */
  lemma {:induction false} TrimStartAppendWhitespace(s: string, w: string)
    ensures !AllWhitespace(s) ==> TrimStart(s + w) == TrimStart(s) + w
    decreases |s|
  {
    if |s| == 0 {
      assert s + w == w;
    } else {
      assert (s + w)[0] == s[0];
      assert (s + w)[1..] == s[1..] + w;
      if IsWhitespace(s[0]) {
        TrimStartAppendWhitespace(s[1..], w);
        assert !AllWhitespace(s) ==> !AllWhitespace(s[1..]);
      }
    }
  }

  /** Whitespace appended to a string does not change its `trim`. */
  lemma TrimAppendWhitespace(s: string, w: string)
    requires AllWhitespace(w)
    ensures Trim(s + w) == Trim(s)
  {
    TrimStartAppendWhitespace(s, w);
    if AllWhitespace(s) {
      assert AllWhitespace(s + w);
      TrimEmptyIff(s + w);
      TrimEmptyIff(s);
    } else {
      TrimEndAppendWhitespace(TrimStart(s), w);
    }
  }

  /** A string that starts and ends with visible characters is its own `trim`. */
  lemma TrimVisibleEdges(s: string)
    requires |s| > 0 && !IsWhitespace(s[0]) && !IsWhitespace(s[|s| - 1])
    ensures Trim(s) == s
  {
    assert TrimStart(s) == s;
    assert TrimEnd(s) == s;
  }

  /** A needle with a character the haystack lacks does not occur in it. */
  lemma MissingCharNotContained(s: string, sub: string, i: nat)
    requires i < |sub| && sub[i] !in s
    ensures !Contains(s, sub)
  {
    forall j | 0 <= j <= |s| - |sub|
      ensures !OccursAt(s, sub, j)
    {
      assert s[j..j + |sub|][i] == s[j + i];
    }
  }

  /** Clamps an index argument of `substring` to `[0, n]`. */
  function Clamp(x: int, n: nat): (r: nat)
    ensures r <= n
  {
    if x < 0 then 0 else if x > n then n else x
  }

  /**
   * `s.substring(a, b)`: both arguments are clamped to the string and are
   * swapped when the end lies before the start.
   */
  function Substring(s: string, a: int, b: int): (r: string)
    ensures 0 <= a <= b <= |s| ==> r == s[a..b]
    ensures 0 <= b <= a <= |s| ==> r == s[b..a]
  {
    var x := Clamp(a, |s|);
    var y := Clamp(b, |s|);
    if x <= y then s[x..y] else s[y..x]
  }

  /** `s.substring(a)`. */
  function SubstringFrom(s: string, a: int): (r: string)
    ensures 0 <= a <= |s| ==> r == s[a..]
  {
    s[Clamp(a, |s|)..]
  }
}
