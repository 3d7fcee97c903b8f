/**
 * `re.sub` with a literal pattern, as the program uses it: the leftmost, non-overlapping
 * matches of the pattern are replaced, scanning left to right.  Three ways of matching occur:
 * case-insensitively (`re.IGNORECASE`), exactly, and exactly between two word boundaries
 * (`\b` + escaped code + `\b`).  `str.replace` is the exact mode.
 */
module Substitution {
  import opened Chars

  datatype Mode = Mode(ignoreCase: bool, wordBounded: bool)

  /** `re.sub(pattern, rep, text, flags=re.IGNORECASE)`. */
  const IgnoreCase := Mode(true, false)
  /** `re.sub(pattern, rep, text)` on a literal pattern, and `str.replace`. */
  const Exact := Mode(false, false)
  /** `re.sub(r'\b' + re.escape(code) + r'\b', rep, text)`. */
  const WholeWord := Mode(false, true)

  predicate Same(a: char, b: char, ignoreCase: bool) {
    if ignoreCase then Lower(a) == Lower(b) else a == b
  }

  /** The characters of `pat` stand at index `i` of `s`. */
  predicate LiteralAt(s: string, i: int, pat: string, ignoreCase: bool) {
    0 <= i && i + |pat| <= |s| && forall k :: 0 <= k < |pat| ==> Same(s[i + k], pat[k], ignoreCase)
  }

  predicate IsWordAt(s: string, i: int) {
    0 <= i < |s| && IsWordChar(s[i])
  }

  /** `\b` holds at position `i` (between `s[i-1]` and `s[i]`). */
  predicate Boundary(s: string, i: int) {
    IsWordAt(s, i - 1) != IsWordAt(s, i)
  }

  /** The pattern matches `s` at index `i`. */
  predicate MatchAt(s: string, i: int, pat: string, mode: Mode) {
    LiteralAt(s, i, pat, mode.ignoreCase)
    && (mode.wordBounded ==> Boundary(s, i) && Boundary(s, i + |pat|))
  }

  /**
   * The result of substituting from index `i` on.  An empty pattern matches at every
   * position it may (Python inserts the replacement there); a non-empty one is replaced
   * where it matches and scanning resumes after the match.
   */
  function SubFrom(s: string, i: nat, pat: string, rep: string, mode: Mode): string
    requires i <= |s|
    decreases |s| - i
  {
    if |pat| == 0 then
      var here := if MatchAt(s, i, pat, mode) then rep else "";
      if i == |s| then here else here + [s[i]] + SubFrom(s, i + 1, pat, rep, mode)
    else if i + |pat| > |s| then s[i..]
    else if MatchAt(s, i, pat, mode) then rep + SubFrom(s, i + |pat|, pat, rep, mode)
    else [s[i]] + SubFrom(s, i + 1, pat, rep, mode)
  }

  /** `re.sub` on the whole string. */
  function Sub(s: string, pat: string, rep: string, mode: Mode): string {
    SubFrom(s, 0, pat, rep, mode)
  }

  /** `s.replace(target, replacement)`. */
  function Replace(s: string, target: string, replacement: string): string {
    Sub(s, target, replacement, Exact)
  }

  /** Where the pattern does not match, the scan copies the input. */
  lemma {:induction false} SubSkip(s: string, i: nat, j: nat, pat: string, rep: string, mode: Mode)
    requires |pat| > 0 && i <= j <= |s|
    requires forall k :: i <= k < j ==> !MatchAt(s, k, pat, mode)
    ensures SubFrom(s, i, pat, rep, mode) == s[i..j] + SubFrom(s, j, pat, rep, mode)
    decreases j - i
  {
    if i < j && i + |pat| <= |s| {
      SubSkip(s, i + 1, j, pat, rep, mode);
      assert s[i..j] == [s[i]] + s[i + 1..j];
    }
  }

  /** Where the pattern matches, the scan emits the replacement and resumes after the match. */
  /** Nothing is left to substitute at the end of the text. */
  lemma SubAtEnd(s: string, pat: string, rep: string, mode: Mode)
    requires |pat| > 0
    ensures SubFrom(s, |s|, pat, rep, mode) == []
  {
  }

  lemma SubHit(s: string, i: nat, pat: string, rep: string, mode: Mode)
    requires |pat| > 0 && i <= |s| && MatchAt(s, i, pat, mode)
    ensures i + |pat| <= |s|
    ensures SubFrom(s, i, pat, rep, mode) == rep + SubFrom(s, i + |pat|, pat, rep, mode)
  {
  }

  /** A non-empty pattern that matches nowhere leaves the text unchanged. */
  lemma SubNoMatch(s: string, pat: string, rep: string, mode: Mode)
    requires |pat| > 0
    requires forall k :: 0 <= k <= |s| ==> !MatchAt(s, k, pat, mode)
    ensures Sub(s, pat, rep, mode) == s
  {
    SubSkip(s, 0, |s|, pat, rep, mode);
    assert s[0..|s|] == s;
  }

  /** Text that is one whole match of the pattern becomes the replacement. */
  lemma SubWholeMatch(s: string, pat: string, rep: string, mode: Mode)
    requires |pat| > 0 && MatchAt(s, 0, pat, mode) && |s| == |pat|
    ensures Sub(s, pat, rep, mode) == rep
  {
    SubHit(s, 0, pat, rep, mode);
  }

  /** `s` contains no case-insensitive occurrence of `p`. */
  ghost predicate FreeOf(s: string, p: string) {
    forall i :: 0 <= i ==> !LiteralAt(s, i, p, true)
  }

  /** A non-empty pattern absent from the text, ignoring case, is never replaced. */
  lemma SubFreeIdentity(s: string, p: string, rep: string, mode: Mode)
    requires |p| > 0 && FreeOf(s, p)
    ensures Sub(s, p, rep, mode) == s
  {
    forall k | 0 <= k <= |s|
      ensures !MatchAt(s, k, p, mode)
    {
      if LiteralAt(s, k, p, mode.ignoreCase) {
        assert LiteralAt(s, k, p, true);
      }
    }
    SubNoMatch(s, p, rep, mode);
  }

  /** Placing `y` at offset `d` against `x`, the overlapping characters agree ignoring case. */
  ghost predicate AlignsAt(x: string, y: string, d: int) {
    forall q :: 0 <= q < |x| && 0 <= q - d < |y| ==> Lower(x[q]) == Lower(y[q - d])
  }

  /** `y` is non-empty and no placement of it overlapping `x` agrees with `x` ignoring case. */
  ghost predicate NoClash(x: string, y: string) {
    |y| > 0 && forall d :: -|y| < d < |x| ==> !AlignsAt(x, y, d)
  }

  /** The only overlapping placement of `y` on `x` that agrees ignoring case is the exact cover. */
  ghost predicate OnlyWholeOverlap(x: string, y: string) {
    forall d :: -|y| < d < |x| && AlignsAt(x, y, d) ==> d == 0 && |x| == |y|
  }

  /** Two strings equal ignoring case. */
  predicate FoldEq(x: string, y: string) {
    |x| == |y| && LiteralAt(x, 0, y, true)
  }

  /** An occurrence in the right part of a concatenation is an occurrence in that part. */
  lemma LiteralInRight(a: string, b: string, m: int, p: string, ignoreCase: bool)
    requires LiteralAt(a + b, m, p, ignoreCase) && m >= |a|
    ensures LiteralAt(b, m - |a|, p, ignoreCase)
  {
    forall x | 0 <= x < |p|
      ensures Same(b[m - |a| + x], p[x], ignoreCase)
    {
      assert b[m - |a| + x] == (a + b)[m + x];
    }
  }

  /** An occurrence in a suffix `s[i..]` is an occurrence in `s`. */
  lemma LiteralInSuffix(s: string, i: nat, m: int, p: string, ignoreCase: bool)
    requires i <= |s| && LiteralAt(s[i..], m, p, ignoreCase)
    ensures LiteralAt(s, i + m, p, ignoreCase)
  {
    forall x | 0 <= x < |p|
      ensures Same(s[i + m + x], p[x], ignoreCase)
    {
      assert s[i..][m + x] == s[i + m + x];
    }
  }

  /** A tail `p[k..]` at the front of `rep + rest` places `rep` at offset `k` against `p`. */
  lemma AlignsWithFront(rep: string, rest: string, p: string, k: nat)
    requires 0 < k <= |p| && LiteralAt(rep + rest, 0, p[k..], true)
    ensures AlignsAt(p, rep, k)
  {
    var o := rep + rest;
    forall x | 0 <= x < |p| && 0 <= x - k < |rep|
      ensures Lower(p[x]) == Lower(rep[x - k])
    {
      assert o[x - k] == rep[x - k];
      assert p[k..][x - k] == p[x];
    }
  }

  /** An occurrence of `p` starting inside `rep` in `rep + rest` places `rep` at offset `-m` against `p`. */
  lemma AlignsInside(rep: string, rest: string, p: string, m: nat)
    requires m < |rep| && LiteralAt(rep + rest, m, p, true)
    ensures AlignsAt(p, rep, -(m as int))
  {
    var o := rep + rest;
    forall x | 0 <= x < |p| && 0 <= x + m < |rep|
      ensures Lower(p[x]) == Lower(rep[x + m])
    {
      assert o[m + x] == rep[m + x];
    }
  }

  /** Text none of whose characters is, ignoring case, the pattern's first one holds no occurrence of it. */
  lemma FreeByFront(v: string, w: string, p: string)
    requires FoldEq(v, w) && |p| > 0
    requires forall k :: 0 <= k < |w| ==> Lower(w[k]) != Lower(p[0])
    ensures FreeOf(v, p)
  {
    forall m | 0 <= m
      ensures !LiteralAt(v, m, p, true)
    {
      if m < |v| {
        assert Same(v[0 + m], w[m], true);
        assert !Same(v[m + 0], p[0], true);
      }
    }
  }

  lemma FoldEqRefl(a: string)
    ensures FoldEq(a, a)
  {
    forall k | 0 <= k < |a|
      ensures Same(a[0 + k], a[k], true)
    {
    }
  }

  lemma FoldEqSym(a: string, b: string)
    requires FoldEq(a, b)
    ensures FoldEq(b, a)
  {
    forall k | 0 <= k < |a|
      ensures Same(b[0 + k], a[k], true)
    {
      assert Same(a[0 + k], b[k], true);
    }
  }

  /** Two strings equal ignoring case to a third are equal ignoring case to each other. */
  lemma FoldEqViaThird(a: string, b: string, c: string)
    requires FoldEq(a, b) && FoldEq(c, b)
    ensures FoldEq(a, c)
  {
    forall k | 0 <= k < |c|
      ensures Lower(a[k]) == Lower(c[k])
    {
      assert Same(a[0 + k], b[k], true) && Same(c[0 + k], b[k], true);
    }
  }

  /**
   * If the output of a scan begins with the tail `p[k..]` of a pattern `p` that clashes with
   * no part of the replacement, that tail was already in the input at the scan position.
   */
  lemma {:induction false} OutputPrefixFromInput(s: string, i: nat, q: string, rep: string, mode: Mode,
                                                 p: string, k: nat)
    requires i <= |s| && |q| > 0 && 0 < k <= |p| && NoClash(p, rep)
    requires LiteralAt(SubFrom(s, i, q, rep, mode), 0, p[k..], true)
    ensures LiteralAt(s, i, p[k..], true)
    decreases |s| - i
  {
    var o := SubFrom(s, i, q, rep, mode);
    if k == |p| {
    } else if i + |q| > |s| {
      LiteralInSuffix(s, i, 0, p[k..], true);
    } else if MatchAt(s, i, q, mode) {
      AlignsWithFront(rep, SubFrom(s, i + |q|, q, rep, mode), p, k);
      assert false;
    } else {
      var o' := SubFrom(s, i + 1, q, rep, mode);
      assert o == [s[i]] + o';
      assert LiteralAt(o', 0, p[k + 1..], true) by {
        forall x | 0 <= x < |p[k + 1..]|
          ensures Lower(o'[x]) == Lower(p[k + 1..][x])
        {
          assert o'[x] == o[x + 1];
          assert p[k + 1..][x] == p[k..][x + 1];
        }
      }
      OutputPrefixFromInput(s, i + 1, q, rep, mode, p, k + 1);
      assert Lower(s[i]) == Lower(p[k..][0]) by { assert o[0] == s[i]; }
      forall x | 0 <= x < |p[k..]|
        ensures Lower(s[i + x]) == Lower(p[k..][x])
      {
        if x > 0 {
          assert p[k..][x] == p[k + 1..][x - 1];
        }
      }
    }
  }

  /** An occurrence at the front of `[c] + rest` is `c` then the pattern's tail in `rest`. */
  lemma OccurrenceAtFront(c: char, rest: string, p: string)
    requires |p| > 0 && LiteralAt([c] + rest, 0, p, true)
    ensures Lower(c) == Lower(p[0]) && LiteralAt(rest, 0, p[1..], true)
  {
    var o := [c] + rest;
    assert o[0] == c;
    forall x | 0 <= x < |p[1..]|
      ensures Lower(rest[x]) == Lower(p[1..][x])
    {
      assert rest[x] == o[x + 1];
    }
  }

  /** Case analysis of [SubFreeOf] when the scan reaches the end of the input. */
  lemma SubFreeOfTail(s: string, i: nat, q: string, rep: string, mode: Mode, p: string)
    requires i <= |s| && |q| > 0 && |p| > 0 && i + |q| > |s|
    requires forall k :: i <= k <= |s| && LiteralAt(s, k, p, true) ==> MatchAt(s, k, q, mode)
    ensures FreeOf(SubFrom(s, i, q, rep, mode), p)
  {
    forall m | 0 <= m
      ensures !LiteralAt(s[i..], m, p, true)
    {
      if LiteralAt(s[i..], m, p, true) {
        LiteralInSuffix(s, i, m, p, true);
      }
    }
  }

  /** The output started by a replacement holds no occurrence of `p` where `p` clashes with none of it. */
  lemma FreeAfterReplacement(rep: string, o': string, p: string)
    requires |p| > 0 && NoClash(p, rep) && FreeOf(o', p)
    ensures FreeOf(rep + o', p)
  {
    var o := rep + o';
    forall m | 0 <= m
      ensures !LiteralAt(o, m, p, true)
    {
      if LiteralAt(o, m, p, true) {
        if m < |rep| {
          AlignsInside(rep, o', p, m);
          assert false;
        } else {
          LiteralInRight(rep, o', m, p, true);
        }
      }
    }
  }

  /**
   * An occurrence of `p` that starts with an input character copied to the output, followed by
   * the rest of the pass, was an occurrence in the input.
   */
  lemma OccurrenceFromInput(s: string, i: nat, q: string, rep: string, mode: Mode, p: string)
    requires i < |s| && |q| > 0 && |p| > 0 && NoClash(p, rep)
    requires LiteralAt([s[i]] + SubFrom(s, i + 1, q, rep, mode), 0, p, true)
    ensures LiteralAt(s, i, p, true)
  {
    OccurrenceAtFront(s[i], SubFrom(s, i + 1, q, rep, mode), p);
    if |p| > 1 {
      OutputPrefixFromInput(s, i + 1, q, rep, mode, p, 1);
    }
    forall x | 0 <= x < |p|
      ensures Lower(s[i + x]) == Lower(p[x])
    {
      if x > 0 {
        assert p[x] == p[1..][x - 1];
      }
    }
  }

  /**
   * One substitution pass leaves no case-insensitive occurrence of `p` behind, provided the
   * replacement never clashes with `p` and every occurrence of `p` in the input from `i` on is
   * a match of the pass's pattern.  Both the pass of `p` itself (ignoring case) and a pass over
   * text already free of `p` qualify.
   */
  lemma {:induction false} SubFreeOf(s: string, i: nat, q: string, rep: string, mode: Mode, p: string)
    requires i <= |s| && |q| > 0 && |p| > 0 && NoClash(p, rep)
    requires forall k :: i <= k <= |s| && LiteralAt(s, k, p, true) ==> MatchAt(s, k, q, mode)
    ensures FreeOf(SubFrom(s, i, q, rep, mode), p)
    decreases |s| - i
  {
    if i + |q| > |s| {
      SubFreeOfTail(s, i, q, rep, mode, p);
    } else if MatchAt(s, i, q, mode) {
      SubFreeOf(s, i + |q|, q, rep, mode, p);
      FreeAfterReplacement(rep, SubFrom(s, i + |q|, q, rep, mode), p);
    } else {
      var o' := SubFrom(s, i + 1, q, rep, mode);
      SubFreeOf(s, i + 1, q, rep, mode, p);
      var o := [s[i]] + o';
      assert SubFrom(s, i, q, rep, mode) == o;
      forall m | 0 <= m
        ensures !LiteralAt(o, m, p, true)
      {
        if LiteralAt(o, m, p, true) {
          if m == 0 {
            OccurrenceFromInput(s, i, q, rep, mode, p);
          } else {
            LiteralInRight([s[i]], o', m, p, true);
          }
        }
      }
    }
  }

  /** A slice of text free of `p` is free of `p`. */
  lemma FreeOfSlice(s: string, a: nat, b: nat, p: string)
    requires a <= b <= |s| && FreeOf(s, p)
    ensures FreeOf(s[a..b], p)
  {
    forall m | 0 <= m
      ensures !LiteralAt(s[a..b], m, p, true)
    {
      if LiteralAt(s[a..b], m, p, true) {
        assert LiteralAt(s, a + m, p, true) by {
          forall x | 0 <= x < |p|
            ensures Lower(s[a + m + x]) == Lower(p[x])
          {
            assert s[a..b][m + x] == s[a + m + x];
          }
        }
      }
    }
  }

  /** Patterns equal ignoring case occur at the same places. */
  lemma FoldEqFree(s: string, p: string, p': string)
    requires FoldEq(p, p') && FreeOf(s, p)
    ensures FreeOf(s, p')
  {
    forall m | 0 <= m
      ensures !LiteralAt(s, m, p', true)
    {
      if LiteralAt(s, m, p', true) {
        assert LiteralAt(s, m, p, true) by {
          forall x | 0 <= x < |p|
            ensures Lower(s[m + x]) == Lower(p[x])
          {
            assert Lower(p[x]) == Lower(p'[x]) by { assert Same(p[x], p'[x], true); }
          }
        }
      }
    }
  }

  /**
   * A sufficient test for [NoClash]: the first character of each string occurs in the other only
   * at the front, and the fronts disagree somewhere.
   */
  lemma NoClashByFronts(x: string, y: string, k: nat)
    requires |x| > 0 && |y| > 0
    requires forall d :: 0 < d < |x| ==> Lower(x[d]) != Lower(y[0])
    requires forall e :: 0 < e < |y| ==> Lower(y[e]) != Lower(x[0])
    requires k < |x| && k < |y| && Lower(x[k]) != Lower(y[k])
    ensures NoClash(x, y)
  {
    forall d | -|y| < d < |x|
      ensures !AlignsAt(x, y, d)
    {
      if d > 0 {
        assert Lower(x[d]) != Lower(y[d - d]);
      } else if d < 0 {
        assert Lower(x[0]) != Lower(y[0 - d]);
      } else {
        assert Lower(x[k]) != Lower(y[k - d]);
      }
    }
  }

  /** A sufficient test for [OnlyWholeOverlap], in the style of [NoClashByFronts]. */
  lemma OnlyWholeOverlapByFronts(x: string, y: string)
    requires |x| > 0 && |y| > 0
    requires forall d :: 0 < d < |x| ==> Lower(x[d]) != Lower(y[0])
    requires forall e :: 0 < e < |y| ==> Lower(y[e]) != Lower(x[0])
    requires Lower(x[0]) != Lower(y[0]) || |x| == |y|
    ensures OnlyWholeOverlap(x, y)
  {
    forall d | -|y| < d < |x| && d != 0
      ensures !AlignsAt(x, y, d)
    {
      if d > 0 {
        assert Lower(x[d]) != Lower(y[d - d]);
      } else {
        assert Lower(x[0]) != Lower(y[0 - d]);
      }
    }
    if Lower(x[0]) != Lower(y[0]) {
      assert !AlignsAt(x, y, 0) by {
        assert Lower(x[0]) != Lower(y[0 - 0]);
      }
    }
  }

  /**
   * For a code made of word characters, a whole-word match is the code itself, preceded by the
   * start of the text or a non-word character and followed by a non-word character or the end.
   */
  lemma WholeWordMatchIff(s: string, k: int, c: string)
    requires |c| > 0 && forall j :: 0 <= j < |c| ==> IsWordChar(c[j])
    ensures MatchAt(s, k, c, WholeWord) <==>
      0 <= k && k + |c| <= |s| && s[k..k + |c|] == c
      && (k == 0 || !IsWordChar(s[k - 1]))
      && (k + |c| == |s| || !IsWordChar(s[k + |c|]))
  {
    if 0 <= k && k + |c| <= |s| {
      if s[k..k + |c|] == c {
        assert s[k] == s[k..k + |c|][0] && s[k + |c| - 1] == s[k..k + |c|][|c| - 1];
      }
      if LiteralAt(s, k, c, false) {
        assert s[k..k + |c|] == c by {
          forall j | 0 <= j < |c|
            ensures s[k..k + |c|][j] == c[j]
          {
            assert Same(s[k + j], c[j], false);
          }
        }
      }
    }
  }
}
