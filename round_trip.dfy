/**
 * The round trip `reverse_sanitize_text(sanitize_text(text))` over a text that is split into
 * plain stretches and occurrences of confidential terms.  Sanitizing replaces each occurrence,
 * in whatever casing, by the code of the first pattern it equals ignoring case and leaves the
 * plain stretches alone; restoring puts back, for each code, the display term of the first
 * dictionary entry carrying that code.  So the round trip gives back every occurrence in the
 * casing of that first entry: exact for first-declared casings, lossy for the others.
 *
 * The split has to be one where these passes cannot interfere: plain stretches hold no
 * pattern and no whole-word code, and a plain stretch meets an occurrence at a character
 * that is not a word character.  The dictionary has to be one where patterns only overlap by
 * covering each other, no code rebuilds a pattern, codes are words and no display term
 * contains a whole-word code.
 */
module RoundTrip {
  import opened Wrappers
  import opened Chars
  import opened Substitution
  import opened ConfidentialTerms
  import opened Sanitizer
  import opened Restorer

  /** The concatenation of a sequence of pieces of text. */
  function Flat(ts: seq<string>): string
    decreases |ts|
  {
    if ts == [] then "" else ts[0] + Flat(ts[1..])
  }

  lemma {:induction false} FlatAppend(a: seq<string>, b: seq<string>)
    ensures Flat(a + b) == Flat(a) + Flat(b)
    decreases |a|
  {
    if a == [] {
      assert a + b == b;
    } else {
      assert (a + b)[1..] == a[1..] + b;
      FlatAppend(a[1..], b);
    }
  }

  /** Where piece `j` starts in the concatenation. */
  function Off(ts: seq<string>, j: nat): nat
    requires j <= |ts|
  {
    |Flat(ts[..j])|
  }

  lemma OffEnds(ts: seq<string>)
    ensures Off(ts, 0) == 0 && Off(ts, |ts|) == |Flat(ts)|
  {
    assert ts[..|ts|] == ts;
  }

  /** Piece `j` occupies the positions from its offset up to the next piece's. */
  lemma PieceAt(ts: seq<string>, j: nat)
    requires j < |ts|
    ensures Off(ts, j) + |ts[j]| == Off(ts, j + 1) <= |Flat(ts)|
    ensures forall q :: 0 <= q < |ts[j]| ==> Flat(ts)[Off(ts, j) + q] == ts[j][q]
  {
    assert ts[..j + 1] == ts[..j] + [ts[j]];
    FlatAppend(ts[..j], [ts[j]]);
    assert Flat([ts[j]]) == ts[j] by {
      assert [ts[j]][1..] == [];
    }
    assert ts == ts[..j + 1] + ts[j + 1..];
    FlatAppend(ts[..j + 1], ts[j + 1..]);
  }

  lemma OffNext(ts: seq<string>, j: nat)
    requires j < |ts|
    ensures Off(ts, j) + |ts[j]| == Off(ts, j + 1) <= |Flat(ts)|
  {
    PieceAt(ts, j);
  }

  /** Piece `j` is the slice of the concatenation from its offset on, over its length. */
  lemma PieceSlice(ts: seq<string>, j: nat)
    requires j < |ts|
    ensures Off(ts, j) + |ts[j]| <= |Flat(ts)| && Flat(ts)[Off(ts, j)..Off(ts, j) + |ts[j]|] == ts[j]
  {
    PieceAt(ts, j);
    var s, o := Flat(ts), Off(ts, j);
    assert s[o..o + |ts[j]|] == ts[j];
  }

  /**
   * What one pass does to the piece `t` at offset `o` of `s`, becoming `u`: either the pass
   * matches at the piece's start over its whole length and puts `rep` in its place, or the
   * pass matches nowhere in the piece and leaves it as it is.
   */
  ghost predicate PieceStep(s: string, o: nat, t: string, u: string, p: string, rep: string, mode: Mode) {
    (MatchAt(s, o, p, mode) && |t| == |p| && u == rep)
    || (u == t && forall k :: o <= k < o + |t| ==> !MatchAt(s, k, p, mode))
  }

  /** A piece the pass matches nowhere in is copied, and the pass goes on after it. */
  lemma SkipPiece(s: string, o: nat, j: nat, t: string, p: string, rep: string, mode: Mode, rest: string)
    requires |p| > 0 && o <= j <= |s| && s[o..j] == t
    requires forall k :: o <= k < j ==> !MatchAt(s, k, p, mode)
    requires SubFrom(s, j, p, rep, mode) == rest
    ensures SubFrom(s, o, p, rep, mode) == t + rest
  {
    SubSkip(s, o, j, p, rep, mode);
  }

  /** A piece the pass matches over its whole length is replaced, and the pass goes on after it. */
  lemma HitPiece(s: string, o: nat, t: string, p: string, rep: string, mode: Mode, rest: string)
    requires |p| > 0 && o + |t| <= |s| && MatchAt(s, o, p, mode) && |t| == |p|
    requires SubFrom(s, o + |t|, p, rep, mode) == rest
    ensures SubFrom(s, o, p, rep, mode) == rep + rest
  {
    SubHit(s, o, p, rep, mode);
  }

  /**
   * One piece's step: the pass over the text from the piece's offset yields the piece's
   * result followed by the pass from the next piece on.
   */
  lemma PassStep(s: string, o: nat, t: string, u: string, p: string, rep: string, mode: Mode, rest: string)
    requires |p| > 0 && o + |t| <= |s| && s[o..o + |t|] == t
    requires PieceStep(s, o, t, u, p, rep, mode)
    requires SubFrom(s, o + |t|, p, rep, mode) == rest
    ensures SubFrom(s, o, p, rep, mode) == u + rest
  {
    if MatchAt(s, o, p, mode) && |t| == |p| && u == rep {
      HitPiece(s, o, t, p, rep, mode, rest);
    } else {
      SkipPiece(s, o, o + |t|, t, p, rep, mode, rest);
    }
  }

  /** The pieces from `j` on are piece `j` followed by the pieces after it. */
  lemma FlatFrom(us: seq<string>, j: nat)
    requires j < |us|
    ensures Flat(us[j..]) == us[j] + Flat(us[j + 1..])
  {
    assert us[j..][1..] == us[j + 1..];
  }

  /** The pass from piece `j` on, given the pass from piece `j + 1` on. */
  lemma PassFromStep(s: string, ts: seq<string>, us: seq<string>, at: seq<nat>,
                     p: string, rep: string, mode: Mode, j: nat)
    requires |p| > 0 && |us| == |ts| && j < |ts| && |at| == |ts| + 1
    requires at[j] + |ts[j]| == at[j + 1] <= |s| && s[at[j]..at[j] + |ts[j]|] == ts[j]
    requires PieceStep(s, at[j], ts[j], us[j], p, rep, mode)
    requires SubFrom(s, at[j + 1], p, rep, mode) == Flat(us[j + 1..])
    ensures SubFrom(s, at[j], p, rep, mode) == Flat(us[j..])
  {
    PassStep(s, at[j], ts[j], us[j], p, rep, mode, Flat(us[j + 1..]));
    FlatFrom(us, j);
  }

  /**
   * The pass from piece `j` on, over pieces standing at the offsets `at` of `s`: the results
   * of the pieces from `j` on, one after the other.
   */
  lemma {:induction false} PassFrom(s: string, ts: seq<string>, us: seq<string>, at: seq<nat>,
                                    p: string, rep: string, mode: Mode, j: nat)
    requires |p| > 0 && |us| == |ts| && j <= |ts| && |at| == |ts| + 1 && at[|ts|] == |s|
    requires forall m :: j <= m < |ts| ==> at[m] + |ts[m]| == at[m + 1]
    requires forall m :: j <= m < |ts| ==> at[m] + |ts[m]| <= |s| && s[at[m]..at[m] + |ts[m]|] == ts[m]
    requires forall m :: j <= m < |ts| ==> PieceStep(s, at[m], ts[m], us[m], p, rep, mode)
    ensures at[j] <= |s| && SubFrom(s, at[j], p, rep, mode) == Flat(us[j..])
    decreases |ts| - j
  {
    if j == |ts| {
      assert us[j..] == [];
      SubAtEnd(s, p, rep, mode);
    } else {
      PassFrom(s, ts, us, at, p, rep, mode, j + 1);
      PassFromStep(s, ts, us, at, p, rep, mode, j);
    }
  }

  /** The offsets of all pieces, with the facts a pass over them needs. */
  lemma Offsets(ts: seq<string>) returns (at: seq<nat>)
    ensures |at| == |ts| + 1 && at[|ts|] == |Flat(ts)|
    ensures forall m :: 0 <= m < |ts| ==> at[m] == Off(ts, m)
    ensures forall m :: 0 <= m < |ts| ==> at[m] + |ts[m]| == at[m + 1]
    ensures forall m :: 0 <= m < |ts| ==> at[m] + |ts[m]| <= |Flat(ts)| && Flat(ts)[at[m]..at[m] + |ts[m]|] == ts[m]
  {
    at := seq(|ts| + 1, m requires 0 <= m <= |ts| => Off(ts, m));
    OffEnds(ts);
    forall m | 0 <= m < |ts|
      ensures at[m] + |ts[m]| == at[m + 1]
    {
      PieceAt(ts, m);
    }
    forall m | 0 <= m < |ts|
      ensures at[m] + |ts[m]| <= |Flat(ts)| && Flat(ts)[at[m]..at[m] + |ts[m]|] == ts[m]
    {
      PieceSlice(ts, m);
    }
  }

  /** A pass over a split text acts piece by piece. */
  lemma Pass(ts: seq<string>, us: seq<string>, p: string, rep: string, mode: Mode)
    requires |p| > 0 && |us| == |ts|
    requires forall m :: 0 <= m < |ts| ==> PieceStep(Flat(ts), Off(ts, m), ts[m], us[m], p, rep, mode)
    ensures Sub(Flat(ts), p, rep, mode) == Flat(us)
  {
    var at := Offsets(ts);
    PassFrom(Flat(ts), ts, us, at, p, rep, mode, 0);
    assert us[0..] == us;
  }

  /** A piece of the original text: a plain stretch, or an occurrence of a confidential term. */
  datatype Piece = Plain(text: string) | Term(text: string)

  function Texts(xs: seq<Piece>): seq<string> {
    seq(|xs|, j requires 0 <= j < |xs| => xs[j].text)
  }

  /** The index of the first pattern equal to `w` ignoring case, or `|terms|` when there is none. */
  function Win(terms: TermMap, w: string): (k: nat)
    ensures k <= |terms|
    decreases |terms|
  {
    if terms == [] then 0 else if FoldEq(w, terms[0].0) then 0 else 1 + Win(terms[1..], w)
  }

  lemma {:induction false} WinSpec(terms: TermMap, w: string)
    ensures Win(terms, w) < |terms| ==> FoldEq(w, terms[Win(terms, w)].0)
    ensures forall m :: 0 <= m < Win(terms, w) ==> !FoldEq(w, terms[m].0)
    decreases |terms|
  {
    if terms != [] && !FoldEq(w, terms[0].0) {
      WinSpec(terms[1..], w);
      forall m | 0 <= m < Win(terms, w)
        ensures !FoldEq(w, terms[m].0)
      {
        if m > 0 {
          assert terms[m] == terms[1..][m - 1];
        }
      }
    }
  }

  /** The code an occurrence is sanitized to: that of the first pattern it equals ignoring case. */
  function CodeOf(terms: TermMap, w: string): string {
    if Win(terms, w) < |terms| then terms[Win(terms, w)].1 else w
  }

  /** The sanitized text: each occurrence replaced by its code. */
  function Coded(xs: seq<Piece>, terms: TermMap): seq<string> {
    seq(|xs|, j requires 0 <= j < |xs| => if xs[j].Term? then CodeOf(terms, xs[j].text) else xs[j].text)
  }

  /**
   * The split is one the passes cannot disturb: no empty piece, plain stretches and
   * occurrences alternate, a plain stretch meets an occurrence at a non-word character, and
   * every occurrence equals some pattern ignoring case.
   */
  ghost predicate Layout(xs: seq<Piece>, terms: TermMap) {
    (forall j :: 0 <= j < |xs| ==> |xs[j].text| > 0)
    && (forall j :: 0 < j < |xs| ==> xs[j - 1].Plain? != xs[j].Plain?)
    && (forall j :: 0 <= j < |xs| - 1 && xs[j].Plain? ==> !IsWordChar(xs[j].text[|xs[j].text| - 1]))
    && (forall j :: 0 < j < |xs| && xs[j].Plain? ==> !IsWordChar(xs[j].text[0]))
    && (forall j :: 0 <= j < |xs| && xs[j].Term? ==> Win(terms, xs[j].text) < |terms|)
  }

  /** No plain stretch holds a pattern, in any casing. */
  ghost predicate PlainsFree(xs: seq<Piece>, terms: TermMap) {
    forall j, i :: 0 <= j < |xs| && xs[j].Plain? && 0 <= i < |terms| ==> FreeOf(xs[j].text, terms[i].0)
  }

  /** No plain stretch holds a code as a whole word. */
  ghost predicate PlainsNoCode(xs: seq<Piece>, terms: TermMap) {
    forall j, i, k :: 0 <= j < |xs| && xs[j].Plain? && 0 <= i < |terms| && 0 <= k <= |xs[j].text| ==>
      !MatchAt(xs[j].text, k, terms[i].1, WholeWord)
  }

  /** Patterns are non-empty, overlap each other only by covering exactly, and no code rebuilds one. */
  ghost predicate SanitizableTerms(terms: TermMap) {
    (forall i :: 0 <= i < |terms| ==> |terms[i].0| > 0)
    && (forall i, j :: 0 <= i < |terms| && 0 <= j < |terms| ==>
          OnlyWholeOverlap(terms[i].0, terms[j].0) && NoClash(terms[i].0, terms[j].1))
  }

  // ---------------------------------------------------------------- sanitizing

  /** The text of a piece after the first `i` term passes. */
  function SanText(x: Piece, terms: TermMap, i: nat): string {
    if x.Term? && Win(terms, x.text) < i && Win(terms, x.text) < |terms| then terms[Win(terms, x.text)].1
    else x.text
  }

  function SanStage(xs: seq<Piece>, terms: TermMap, i: nat): seq<string> {
    seq(|xs|, j requires 0 <= j < |xs| => SanText(xs[j], terms, i))
  }

  /** An occurrence of `p` at `k` and a piece `u` at `o` agree ignoring case where they overlap. */
  lemma OverlapAligns(s: string, k: nat, p: string, o: nat, u: string)
    requires LiteralAt(s, k, p, true) && o + |u| <= |s|
    requires forall q :: 0 <= q < |u| ==> s[o + q] == u[q]
    ensures AlignsAt(p, u, o as int - k)
  {
    var d := o as int - k;
    forall q | 0 <= q < |p| && 0 <= q - d < |u|
      ensures Lower(p[q]) == Lower(u[q - d])
    {
      assert s[o + (q - d)] == u[q - d];
      assert Same(s[k + q], p[q], true);
    }
  }

  /** An occurrence lying inside a piece is an occurrence in the piece. */
  lemma LiteralInPiece(s: string, o: nat, u: string, k: nat, p: string, ignoreCase: bool)
    requires o + |u| <= |s| && forall q :: 0 <= q < |u| ==> s[o + q] == u[q]
    requires LiteralAt(s, k, p, ignoreCase) && o <= k && k + |p| <= o + |u|
    ensures LiteralAt(u, k - o, p, ignoreCase)
  {
    forall x | 0 <= x < |p|
      ensures Same(u[k - o + x], p[x], ignoreCase)
    {
      assert s[o + (k - o + x)] == u[k - o + x];
      assert Same(s[k + x], p[x], ignoreCase);
    }
  }

  lemma AlignsViaFold(p: string, u: string, v: string, d: int)
    requires AlignsAt(p, u, d) && FoldEq(u, v)
    ensures AlignsAt(p, v, d)
  {
    forall q | 0 <= q < |p| && 0 <= q - d < |v|
      ensures Lower(p[q]) == Lower(v[q - d])
    {
      assert Same(u[0 + (q - d)], v[q - d], true);
    }
  }

  /** No placement of `p` shifted against `u` by more than `lo` and less than `hi` agrees with it ignoring case. */
  ghost predicate Unaligned(p: string, u: string, lo: int, hi: int) {
    forall d :: lo < d < hi ==> !AlignsAt(p, u, d)
  }

  /** An occurrence of `p` that starts inside piece `m` and runs past its end overlaps piece `m + 1`. */
  lemma CrossingOverlap(ts: seq<string>, m: nat, k: nat, p: string) returns (d: int)
    requires m < |ts| && Off(ts, m) <= k < Off(ts, m) + |ts[m]| < k + |p|
    requires LiteralAt(Flat(ts), k, p, true)
    ensures m + 1 < |ts| && 0 < d < |p| && AlignsAt(p, ts[m + 1], d)
  {
    PieceAt(ts, m);
    OffEnds(ts);
    assert m + 1 < |ts|;
    PieceAt(ts, m + 1);
    d := Off(ts, m + 1) - k;
    OverlapAligns(Flat(ts), k, p, Off(ts, m + 1), ts[m + 1]);
  }

  /** An occurrence of `p` starting in a piece that no occurrence of `p` can run past ends in it. */
  lemma NoCrossing(ts: seq<string>, m: nat, k: nat, p: string)
    requires m < |ts| && Off(ts, m) <= k < Off(ts, m) + |ts[m]| && LiteralAt(Flat(ts), k, p, true)
    requires m + 1 < |ts| ==> Unaligned(p, ts[m + 1], 0, |p|)
    ensures k + |p| <= Off(ts, m) + |ts[m]|
  {
    if k + |p| > Off(ts, m) + |ts[m]| {
      var d := CrossingOverlap(ts, m, k, p);
      assert false;
    }
  }

  /** No occurrence of `p` starts at `k` inside a piece free of `p` that no occurrence can run past. */
  lemma FreePieceNoMatchAt(ts: seq<string>, m: nat, k: nat, p: string)
    requires m < |ts| && FreeOf(ts[m], p) && Off(ts, m) <= k < Off(ts, m) + |ts[m]|
    requires m + 1 < |ts| ==> Unaligned(p, ts[m + 1], 0, |p|)
    ensures !MatchAt(Flat(ts), k, p, IgnoreCase)
  {
    if LiteralAt(Flat(ts), k, p, true) {
      NoCrossing(ts, m, k, p);
      PieceAt(ts, m);
      LiteralInPiece(Flat(ts), Off(ts, m), ts[m], k, p, true);
      assert false;
    }
  }

  /**
   * A piece free of `p`, whose next piece no occurrence of `p` can run into, holds no match of
   * `p` ignoring case within the text.
   */
  lemma FreePieceNoMatch(ts: seq<string>, m: nat, p: string)
    requires m < |ts| && FreeOf(ts[m], p)
    requires m + 1 < |ts| ==> Unaligned(p, ts[m + 1], 0, |p|)
    ensures forall k :: Off(ts, m) <= k < Off(ts, m) + |ts[m]| ==> !MatchAt(Flat(ts), k, p, IgnoreCase)
  {
    forall k | Off(ts, m) <= k < Off(ts, m) + |ts[m]|
      ensures !MatchAt(Flat(ts), k, p, IgnoreCase)
    {
      FreePieceNoMatchAt(ts, m, k, p);
    }
  }

  /** A piece that no placement of `p` overlapping its start agrees with holds no match of `p`. */
  lemma UnalignedPieceNoMatch(ts: seq<string>, m: nat, p: string)
    requires m < |ts| && Unaligned(p, ts[m], -|ts[m]|, 1)
    ensures forall k :: Off(ts, m) <= k < Off(ts, m) + |ts[m]| ==> !MatchAt(Flat(ts), k, p, IgnoreCase)
  {
    PieceAt(ts, m);
    forall k | Off(ts, m) <= k < Off(ts, m) + |ts[m]|
      ensures !MatchAt(Flat(ts), k, p, IgnoreCase)
    {
      if LiteralAt(Flat(ts), k, p, true) {
        OverlapAligns(Flat(ts), k, p, Off(ts, m), ts[m]);
        assert false;
      }
    }
  }

  /** A piece equal to `p` ignoring case is matched at its start. */
  lemma FoldPieceMatch(ts: seq<string>, m: nat, p: string)
    requires m < |ts| && FoldEq(ts[m], p)
    ensures MatchAt(Flat(ts), Off(ts, m), p, IgnoreCase)
  {
    PieceAt(ts, m);
    forall x | 0 <= x < |p|
      ensures Same(Flat(ts)[Off(ts, m) + x], p[x], true)
    {
      assert Same(ts[m][0 + x], p[x], true);
    }
  }

  /**
   * During term pass `i`, a placement of pattern `i` overlapping an occurrence `w` that agrees
   * with it ignoring case covers it exactly, and `w` first equals pattern `i`.
   */
  lemma SanTokenAlign(terms: TermMap, i: nat, w: string, d: int)
    requires i < |terms| && Win(terms, w) < |terms|
    requires OnlyWholeOverlap(terms[i].0, terms[Win(terms, w)].0) && NoClash(terms[i].0, terms[Win(terms, w)].1)
    requires -|SanText(Term(w), terms, i)| < d < |terms[i].0| && AlignsAt(terms[i].0, SanText(Term(w), terms, i), d)
    ensures d == 0 && |w| == |terms[i].0| && SanText(Term(w), terms, i) == w && Win(terms, w) == i
  {
    var wi := Win(terms, w);
    WinSpec(terms, w);
    if wi < i {
      assert false;
    } else {
      AlignsViaFold(terms[i].0, w, terms[wi].0, d);
      assert FoldEq(w, terms[i].0);
    }
  }

  /**
   * During term pass `i`, no placement of pattern `i` that starts before an occurrence and runs
   * into it agrees with it, and none overlapping it at all unless it first equals pattern `i`.
   */
  lemma SanTokenUnaligned(terms: TermMap, i: nat, w: string)
    requires i < |terms| && |terms[i].0| > 0 && Win(terms, w) < |terms|
    requires OnlyWholeOverlap(terms[i].0, terms[Win(terms, w)].0) && NoClash(terms[i].0, terms[Win(terms, w)].1)
    ensures Unaligned(terms[i].0, SanText(Term(w), terms, i), 0, |terms[i].0|)
    ensures Win(terms, w) != i ==> Unaligned(terms[i].0, SanText(Term(w), terms, i), -|SanText(Term(w), terms, i)|, 1)
  {
    var p, u := terms[i].0, SanText(Term(w), terms, i);
    forall d | 0 < d < |p|
      ensures !AlignsAt(p, u, d)
    {
      if AlignsAt(p, u, d) {
        SanTokenAlign(terms, i, w, d);
        assert false;
      }
    }
    if Win(terms, w) != i {
      forall d | -|u| < d < 1
        ensures !AlignsAt(p, u, d)
      {
        if AlignsAt(p, u, d) {
          SanTokenAlign(terms, i, w, d);
          assert false;
        }
      }
    }
  }

  /** During term pass `i`, a plain stretch stays as it is and holds no match. */
  lemma SanPlainStep(xs: seq<Piece>, terms: TermMap, i: nat, m: nat)
    requires SanitizableTerms(terms) && Layout(xs, terms) && PlainsFree(xs, terms)
    requires i < |terms| && m < |xs| && xs[m].Plain?
    ensures SanStage(xs, terms, i + 1)[m] == SanStage(xs, terms, i)[m]
    ensures forall k :: Off(SanStage(xs, terms, i), m) <= k < Off(SanStage(xs, terms, i), m) + |SanStage(xs, terms, i)[m]| ==>
      !MatchAt(Flat(SanStage(xs, terms, i)), k, terms[i].0, IgnoreCase)
  {
    var ts := SanStage(xs, terms, i);
    assert ts[m] == xs[m].text;
    if m + 1 < |xs| {
      var w := xs[m + 1].text;
      assert xs[m + 1] == Term(w);
      assert ts[m + 1] == SanText(Term(w), terms, i);
      SanTokenUnaligned(terms, i, w);
    }
    FreePieceNoMatch(ts, m, terms[i].0);
  }

  /** Term pass `i` matches an occurrence whose first equal pattern is pattern `i`, over its whole length. */
  lemma SanHitStep(xs: seq<Piece>, terms: TermMap, i: nat, m: nat)
    requires i < |terms| && m < |xs| && xs[m].Term? && Win(terms, xs[m].text) == i
    ensures SanStage(xs, terms, i + 1)[m] == terms[i].1
    ensures |SanStage(xs, terms, i)[m]| == |terms[i].0|
    ensures MatchAt(Flat(SanStage(xs, terms, i)), Off(SanStage(xs, terms, i), m), terms[i].0, IgnoreCase)
  {
    WinSpec(terms, xs[m].text);
    FoldPieceMatch(SanStage(xs, terms, i), m, terms[i].0);
  }

  /** Term pass `i` leaves an occurrence of another pattern as it is, and matches nowhere in it. */
  lemma SanMissStep(xs: seq<Piece>, terms: TermMap, i: nat, m: nat)
    requires SanitizableTerms(terms) && Layout(xs, terms)
    requires i < |terms| && m < |xs| && xs[m].Term? && Win(terms, xs[m].text) != i
    ensures SanStage(xs, terms, i + 1)[m] == SanStage(xs, terms, i)[m]
    ensures forall k :: Off(SanStage(xs, terms, i), m) <= k < Off(SanStage(xs, terms, i), m) + |SanStage(xs, terms, i)[m]| ==>
      !MatchAt(Flat(SanStage(xs, terms, i)), k, terms[i].0, IgnoreCase)
  {
    var ts := SanStage(xs, terms, i);
    var w := xs[m].text;
    assert xs[m] == Term(w);
    assert ts[m] == SanText(Term(w), terms, i);
    SanTokenUnaligned(terms, i, w);
    UnalignedPieceNoMatch(ts, m, terms[i].0);
  }
  /** During the term passes, each piece is either replaced whole by the current pass or left without a match. */
  lemma SanPieceStep(xs: seq<Piece>, terms: TermMap, i: nat, m: nat)
    requires SanitizableTerms(terms) && Layout(xs, terms) && PlainsFree(xs, terms)
    requires i < |terms| && m < |xs|
    ensures PieceStep(Flat(SanStage(xs, terms, i)), Off(SanStage(xs, terms, i), m),
                      SanStage(xs, terms, i)[m], SanStage(xs, terms, i + 1)[m],
                      terms[i].0, terms[i].1, IgnoreCase)
  {
    if xs[m].Plain? {
      SanPlainStep(xs, terms, i, m);
    } else if Win(terms, xs[m].text) == i {
      SanHitStep(xs, terms, i, m);
    } else {
      SanMissStep(xs, terms, i, m);
    }
  }

  /** Term pass `i` takes the text after `i` passes to the text after `i + 1`. */
  lemma SanPass(xs: seq<Piece>, terms: TermMap, i: nat)
    requires SanitizableTerms(terms) && Layout(xs, terms) && PlainsFree(xs, terms) && i < |terms|
    ensures Sub(Flat(SanStage(xs, terms, i)), terms[i].0, terms[i].1, IgnoreCase) == Flat(SanStage(xs, terms, i + 1))
  {
    forall m | 0 <= m < |xs|
      ensures PieceStep(Flat(SanStage(xs, terms, i)), Off(SanStage(xs, terms, i), m),
                        SanStage(xs, terms, i)[m], SanStage(xs, terms, i + 1)[m],
                        terms[i].0, terms[i].1, IgnoreCase)
    {
      SanPieceStep(xs, terms, i, m);
    }
    Pass(SanStage(xs, terms, i), SanStage(xs, terms, i + 1), terms[i].0, terms[i].1, IgnoreCase);
  }

  lemma {:induction false} SanStages(xs: seq<Piece>, terms: TermMap, i: nat)
    requires SanitizableTerms(terms) && Layout(xs, terms) && PlainsFree(xs, terms) && i <= |terms|
    ensures SanitizeTerms(Flat(Texts(xs)), terms) == SanitizeTerms(Flat(SanStage(xs, terms, i)), terms[i..])
    decreases i
  {
    if i == 0 {
      assert SanStage(xs, terms, 0) == Texts(xs);
      assert terms[0..] == terms;
    } else {
      SanStages(xs, terms, i - 1);
      SanPass(xs, terms, i - 1);
      assert terms[i - 1..][1..] == terms[i..];
    }
  }

  /**
   * Sanitizing a split text replaces each occurrence by the code of the first pattern it
   * equals ignoring case, and leaves every plain stretch as it is.
   */
  lemma SanitizeReplacesTerms(xs: seq<Piece>, terms: TermMap)
    requires SanitizableTerms(terms) && Layout(xs, terms) && PlainsFree(xs, terms)
    ensures Sanitized(Flat(Texts(xs)), terms, []) == Flat(Coded(xs, terms))
  {
    SanStages(xs, terms, |terms|);
    assert SanStage(xs, terms, |terms|) == Coded(xs, terms);
    assert terms[|terms|..] == [];
  }

  // ---------------------------------------------------------------- restoring

  /** A non-empty run of word characters. */
  predicate Wordy(c: string) {
    |c| > 0 && forall q :: 0 <= q < |c| ==> IsWordChar(c[q])
  }

  /** Codes are words, and no display term stored in the reverse dictionary holds a code as a whole word. */
  ghost predicate RestorableTerms(terms: TermMap) {
    (forall i :: 0 <= i < |terms| ==> Wordy(terms[i].1))
    && (forall r, i, k :: 0 <= r < |ReverseMapOf(terms)| && 0 <= i < |terms| && 0 <= k <= |ReverseMapOf(terms)[r].1| ==>
          !MatchAt(ReverseMapOf(terms)[r].1, k, terms[i].1, WholeWord))
  }

  /** The index of the entry with key `c`, or `|rm|` when there is none. */
  function KeyIndex(rm: ReverseMap, c: string): (k: nat)
    ensures k <= |rm|
    decreases |rm|
  {
    if rm == [] then 0 else if rm[0].0 == c then 0 else 1 + KeyIndex(rm[1..], c)
  }

  lemma {:induction false} KeyIndexSpec(rm: ReverseMap, c: string)
    ensures KeyIndex(rm, c) < |rm| ==> rm[KeyIndex(rm, c)].0 == c
    ensures forall m :: 0 <= m < KeyIndex(rm, c) ==> rm[m].0 != c
    ensures c in Keys(rm) ==> KeyIndex(rm, c) < |rm|
    ensures Lookup(rm, c) == if KeyIndex(rm, c) < |rm| then Some(rm[KeyIndex(rm, c)].1) else None
    decreases |rm|
  {
    if rm != [] && rm[0].0 != c {
      KeyIndexSpec(rm[1..], c);
      forall m | 0 <= m < KeyIndex(rm, c)
        ensures rm[m].0 != c
      {
        if m > 0 {
          assert rm[m] == rm[1..][m - 1];
        }
      }
    }
  }

  /** The text of a piece after the first `r` restoring passes. */
  function RestText(x: Piece, terms: TermMap, rm: ReverseMap, r: nat): string {
    if x.Plain? then x.text
    else
      var k := KeyIndex(rm, CodeOf(terms, x.text));
      if k < r && k < |rm| then rm[k].1 else CodeOf(terms, x.text)
  }

  function RestStage(xs: seq<Piece>, terms: TermMap, rm: ReverseMap, r: nat): seq<string> {
    seq(|xs|, j requires 0 <= j < |xs| => RestText(xs[j], terms, rm, r))
  }

  /** What an occurrence comes back as: the term stored under its code. */
  function Recovered(terms: TermMap, w: string): string {
    match Lookup(ReverseMapOf(terms), CodeOf(terms, w))
    case Some(d) => d
    case None => w
  }

  /** The restored text: each occurrence replaced by what it comes back as. */
  function Back(xs: seq<Piece>, terms: TermMap): seq<string> {
    seq(|xs|, j requires 0 <= j < |xs| => if xs[j].Term? then Recovered(terms, xs[j].text) else xs[j].text)
  }

  /** The piece of length `n` at `o` meets a non-word character, or an end of the text, on both sides. */
  ghost predicate Isolated(s: string, o: nat, n: nat) {
    o + n <= |s| && (o == 0 || !IsWordChar(s[o - 1])) && (o + n == |s| || !IsWordChar(s[o + n]))
  }

  lemma InsideIsWord(s: string, k: int, c: string, a: int)
    requires LiteralAt(s, k, c, false) && Wordy(c) && k <= a < k + |c|
    ensures IsWordChar(s[a])
  {
    assert Same(s[k + (a - k)], c[a - k], false);
  }

  lemma WordyPieceChar(s: string, o: nat, cw: string, a: int)
    requires o + |cw| <= |s| && forall q :: 0 <= q < |cw| ==> s[o + q] == cw[q]
    requires Wordy(cw) && o <= a < o + |cw|
    ensures IsWordChar(s[a])
  {
    assert s[o + (a - o)] == cw[a - o];
  }

  /** A whole-word match lying inside a piece is a whole-word match in the piece alone. */
  lemma WholeWordInPiece(s: string, o: nat, u: string, k: nat, c: string)
    requires o + |u| <= |s| && forall q :: 0 <= q < |u| ==> s[o + q] == u[q]
    requires MatchAt(s, k, c, WholeWord) && Wordy(c) && o <= k && k + |c| <= o + |u|
    ensures MatchAt(u, k - o, c, WholeWord)
  {
    WholeWordMatchIff(s, k, c);
    WholeWordMatchIff(u, k - o, c);
    forall q | 0 <= q < |c|
      ensures u[k - o..k - o + |c|][q] == c[q]
    {
      assert s[o + (k - o + q)] == u[k - o + q];
      assert s[k..k + |c|][q] == s[k + q];
    }
    assert u[k - o..k - o + |c|] == c;
    if k > o {
      assert s[o + (k - o - 1)] == u[k - o - 1];
    }
    if k + |c| < o + |u| {
      assert s[o + (k - o + |c|)] == u[k - o + |c|];
    }
  }

  /** In a text, a whole-word match that starts inside an isolated code is that same code. */
  lemma CodeMatch(s: string, o: nat, cw: string, c: string)
    requires o + |cw| <= |s| && forall q :: 0 <= q < |cw| ==> s[o + q] == cw[q]
    requires Wordy(cw) && Wordy(c) && Isolated(s, o, |cw|)
    ensures forall k :: o <= k < o + |cw| && MatchAt(s, k, c, WholeWord) ==> k == o && c == cw
    ensures c == cw ==> MatchAt(s, o, c, WholeWord)
  {
    forall k | o <= k < o + |cw| && MatchAt(s, k, c, WholeWord)
      ensures k == o && c == cw
    {
      WholeWordMatchIff(s, k, c);
      if k > o {
        WordyPieceChar(s, o, cw, k - 1);
        assert false;
      }
      if |c| < |cw| {
        WordyPieceChar(s, o, cw, o + |c|);
        assert false;
      }
      if |c| > |cw| {
        InsideIsWord(s, o, c, o + |cw|);
        assert false;
      }
      forall q | 0 <= q < |c|
        ensures c[q] == cw[q]
      {
        assert s[o..o + |c|][q] == s[o + q];
      }
    }
    if c == cw {
      WholeWordMatchIff(s, o, c);
      assert s[o..o + |c|] == c;
    }
  }

  /** An isolated piece holding no whole-word match of `c` holds none within the text either. */
  lemma IsolatedNoMatch(s: string, o: nat, u: string, c: string)
    requires o + |u| <= |s| && forall q :: 0 <= q < |u| ==> s[o + q] == u[q]
    requires Isolated(s, o, |u|) && Wordy(c)
    requires forall k :: 0 <= k <= |u| ==> !MatchAt(u, k, c, WholeWord)
    ensures forall k :: o <= k < o + |u| ==> !MatchAt(s, k, c, WholeWord)
  {
    forall k | o <= k < o + |u|
      ensures !MatchAt(s, k, c, WholeWord)
    {
      if MatchAt(s, k, c, WholeWord) {
        if k + |c| > o + |u| {
          InsideIsWord(s, k, c, o + |u|);
          assert false;
        }
        WholeWordInPiece(s, o, u, k, c);
        assert false;
      }
    }
  }

  /**
   * What the restoring passes need of a reverse dictionary `rm` built from `terms`: its keys
   * are the codes, codes are words, and no stored term holds a code as a whole word.
   */
  ghost predicate RestorableMap(terms: TermMap, rm: ReverseMap) {
    Keys(rm) == Values(terms)
    && (forall i :: 0 <= i < |terms| ==> Wordy(terms[i].1))
    && (forall r, i, k :: 0 <= r < |rm| && 0 <= i < |terms| && 0 <= k <= |rm[r].1| ==>
          !MatchAt(rm[r].1, k, terms[i].1, WholeWord))
  }

  lemma RestorableMapOf(terms: TermMap)
    requires RestorableTerms(terms)
    ensures RestorableMap(terms, ReverseMapOf(terms))
  {
    ReverseMapKeys(terms);
  }

  /** The code of restoring pass `r` is the code of some entry, and a word. */
  lemma PassCode(terms: TermMap, rm: ReverseMap, r: nat) returns (ci: nat)
    requires RestorableMap(terms, rm) && r < |rm|
    ensures ci < |terms| && terms[ci].1 == rm[r].0 && Wordy(rm[r].0)
  {
    EntryMember(rm, r);
    ci := ValueWitness(terms, rm[r].0);
  }

  /** The code an occurrence is sanitized to has an entry in the reverse dictionary, and is a word. */
  lemma OccurrenceCode(terms: TermMap, rm: ReverseMap, w: string)
    requires RestorableMap(terms, rm) && Win(terms, w) < |terms|
    ensures Wordy(CodeOf(terms, w))
    ensures KeyIndex(rm, CodeOf(terms, w)) < |rm|
    ensures rm[KeyIndex(rm, CodeOf(terms, w))].0 == CodeOf(terms, w)
    ensures forall n :: 0 <= n < KeyIndex(rm, CodeOf(terms, w)) ==> rm[n].0 != CodeOf(terms, w)
    ensures Lookup(rm, CodeOf(terms, w)) == Some(rm[KeyIndex(rm, CodeOf(terms, w))].1)
  {
    EntryMember(terms, Win(terms, w));
    KeyIndexSpec(rm, CodeOf(terms, w));
  }

  /** The character just before piece `m` is the last one of the piece before it. */
  lemma LeftNeighbour(ts: seq<string>, m: nat)
    requires 0 < m < |ts| && |ts[m - 1]| > 0
    ensures 0 < Off(ts, m) <= |Flat(ts)| && Flat(ts)[Off(ts, m) - 1] == ts[m - 1][|ts[m - 1]| - 1]
  {
    var t := ts[m - 1];
    PieceAt(ts, m - 1);
    assert Flat(ts)[Off(ts, m - 1) + (|t| - 1)] == t[|t| - 1];
  }

  /** The character at the start of piece `m` is the first one of that piece. */
  lemma RightNeighbour(ts: seq<string>, m: nat)
    requires m < |ts| && |ts[m]| > 0
    ensures Off(ts, m) < |Flat(ts)| && Flat(ts)[Off(ts, m)] == ts[m][0]
  {
    PieceAt(ts, m);
    assert Flat(ts)[Off(ts, m) + 0] == ts[m][0];
  }

  /** A piece whose neighbours meet it at non-word characters is isolated in the text. */
  lemma PieceIsolated(ts: seq<string>, m: nat)
    requires m < |ts|
    requires m > 0 ==> |ts[m - 1]| > 0 && !IsWordChar(ts[m - 1][|ts[m - 1]| - 1])
    requires m + 1 < |ts| ==> |ts[m + 1]| > 0 && !IsWordChar(ts[m + 1][0])
    ensures Isolated(Flat(ts), Off(ts, m), |ts[m]|)
  {
    PieceAt(ts, m);
    OffEnds(ts);
    if m > 0 {
      LeftNeighbour(ts, m);
    }
    if m + 1 < |ts| {
      RightNeighbour(ts, m + 1);
    }
  }

  /** A whole-word match starting in a piece that ends in a non-word character, or ends the text, ends in it. */
  lemma WordNoCrossing(ts: seq<string>, m: nat, k: nat, c: string)
    requires m < |ts| && Off(ts, m) <= k < Off(ts, m) + |ts[m]| && Wordy(c) && MatchAt(Flat(ts), k, c, WholeWord)
    requires m + 1 < |ts| ==> |ts[m]| > 0 && !IsWordChar(ts[m][|ts[m]| - 1])
    ensures k + |c| <= Off(ts, m) + |ts[m]|
  {
    if k + |c| > Off(ts, m) + |ts[m]| {
      OffNext(ts, m);
      OffEnds(ts);
      assert m + 1 < |ts|;
      LeftNeighbour(ts, m + 1);
      InsideIsWord(Flat(ts), k, c, Off(ts, m + 1) - 1);
      assert false;
    }
  }

  /**
   * A piece holding no whole-word match of the word `c`, and ending in a non-word character
   * unless it is the last, holds no whole-word match of `c` within the text.
   */
  lemma PlainPieceNoWord(ts: seq<string>, m: nat, c: string)
    requires m < |ts| && Wordy(c)
    requires forall k :: 0 <= k <= |ts[m]| ==> !MatchAt(ts[m], k, c, WholeWord)
    requires m + 1 < |ts| ==> |ts[m]| > 0 && !IsWordChar(ts[m][|ts[m]| - 1])
    ensures forall k :: Off(ts, m) <= k < Off(ts, m) + |ts[m]| ==> !MatchAt(Flat(ts), k, c, WholeWord)
  {
    PieceAt(ts, m);
    forall k | Off(ts, m) <= k < Off(ts, m) + |ts[m]|
      ensures !MatchAt(Flat(ts), k, c, WholeWord)
    {
      if MatchAt(Flat(ts), k, c, WholeWord) {
        WordNoCrossing(ts, m, k, c);
        WholeWordInPiece(Flat(ts), Off(ts, m), ts[m], k, c);
        assert false;
      }
    }
  }

  /** A pass of the word `c` leaves an isolated piece holding no whole-word match of `c` as it is. */
  lemma DonePieceStep(ts: seq<string>, us: seq<string>, m: nat, c: string, rep: string)
    requires m < |ts| && m < |us| && us[m] == ts[m] && Wordy(c) && Isolated(Flat(ts), Off(ts, m), |ts[m]|)
    requires forall k :: 0 <= k <= |ts[m]| ==> !MatchAt(ts[m], k, c, WholeWord)
    ensures PieceStep(Flat(ts), Off(ts, m), ts[m], us[m], c, rep, WholeWord)
  {
    PieceAt(ts, m);
    IsolatedNoMatch(Flat(ts), Off(ts, m), ts[m], c);
  }

  /**
   * A pass of the word `c` over an isolated word piece replaces the piece when it is `c`, and
   * otherwise matches nowhere in it.
   */
  lemma CodePieceStep(ts: seq<string>, us: seq<string>, m: nat, c: string, rep: string)
    requires m < |ts| && m < |us| && Wordy(ts[m]) && Wordy(c) && Isolated(Flat(ts), Off(ts, m), |ts[m]|)
    requires us[m] == if c == ts[m] then rep else ts[m]
    ensures PieceStep(Flat(ts), Off(ts, m), ts[m], us[m], c, rep, WholeWord)
  {
    PieceAt(ts, m);
    CodeMatch(Flat(ts), Off(ts, m), ts[m], c);
  }

  /** The pieces next to piece `m` are plain stretches that meet it at non-word characters. */
  ghost predicate Fenced(xs: seq<Piece>, m: nat)
    requires m < |xs|
  {
    (m > 0 ==> xs[m - 1].Plain? && |xs[m - 1].text| > 0 && !IsWordChar(xs[m - 1].text[|xs[m - 1].text| - 1]))
    && (m + 1 < |xs| ==> xs[m + 1].Plain? && |xs[m + 1].text| > 0 && !IsWordChar(xs[m + 1].text[0]))
  }

  lemma LayoutFenced(xs: seq<Piece>, terms: TermMap, m: nat)
    requires Layout(xs, terms) && m < |xs| && xs[m].Term?
    ensures Fenced(xs, m)
  {
  }

  /** During the restoring passes, an occurrence piece stands isolated in the text. */
  lemma RestIsolated(xs: seq<Piece>, terms: TermMap, rm: ReverseMap, r: nat, m: nat)
    requires m < |xs| && Fenced(xs, m)
    ensures Isolated(Flat(RestStage(xs, terms, rm, r)), Off(RestStage(xs, terms, rm, r), m), |RestStage(xs, terms, rm, r)[m]|)
  {
    var ts := RestStage(xs, terms, rm, r);
    if m > 0 {
      assert ts[m - 1] == xs[m - 1].text;
    }
    if m + 1 < |xs| {
      assert ts[m + 1] == xs[m + 1].text;
    }
    PieceIsolated(ts, m);
  }

  /** During restoring pass `r`, a plain stretch stays as it is and holds no match. */
  lemma RestPlainStep(xs: seq<Piece>, terms: TermMap, rm: ReverseMap, r: nat, m: nat)
    requires r < |rm| && m < |xs| && xs[m].Plain? && Wordy(rm[r].0)
    requires forall k :: 0 <= k <= |xs[m].text| ==> !MatchAt(xs[m].text, k, rm[r].0, WholeWord)
    requires m + 1 < |xs| ==> |xs[m].text| > 0 && !IsWordChar(xs[m].text[|xs[m].text| - 1])
    ensures RestStage(xs, terms, rm, r + 1)[m] == RestStage(xs, terms, rm, r)[m]
    ensures forall k :: Off(RestStage(xs, terms, rm, r), m) <= k < Off(RestStage(xs, terms, rm, r), m) + |RestStage(xs, terms, rm, r)[m]| ==>
      !MatchAt(Flat(RestStage(xs, terms, rm, r)), k, rm[r].0, WholeWord)
  {
    var ts := RestStage(xs, terms, rm, r);
    assert ts[m] == xs[m].text;
    PlainPieceNoWord(ts, m, rm[r].0);
  }

  /** An occurrence already restored by an earlier pass `kw` stays as it is and holds no match of the current code. */
  lemma RestDoneStep(xs: seq<Piece>, terms: TermMap, rm: ReverseMap, r: nat, m: nat, kw: nat)
    requires r < |rm| && m < |xs| && xs[m].Term? && Fenced(xs, m) && Wordy(rm[r].0)
    requires kw == KeyIndex(rm, CodeOf(terms, xs[m].text)) < r
    requires forall k :: 0 <= k <= |rm[kw].1| ==> !MatchAt(rm[kw].1, k, rm[r].0, WholeWord)
    ensures PieceStep(Flat(RestStage(xs, terms, rm, r)), Off(RestStage(xs, terms, rm, r), m),
                      RestStage(xs, terms, rm, r)[m], RestStage(xs, terms, rm, r + 1)[m],
                      rm[r].0, rm[r].1, WholeWord)
  {
    var ts, us := RestStage(xs, terms, rm, r), RestStage(xs, terms, rm, r + 1);
    assert ts[m] == rm[kw].1 == us[m];
    RestIsolated(xs, terms, rm, r, m);
    DonePieceStep(ts, us, m, rm[r].0, rm[r].1);
  }

  /** Restoring pass `r` replaces a code whose entry is entry `r`, and leaves a code with a later entry. */
  lemma RestCodeText(x: Piece, terms: TermMap, rm: ReverseMap, r: nat, kw: nat)
    requires x.Term? && kw == KeyIndex(rm, CodeOf(terms, x.text)) && r <= kw < |rm|
    requires rm[kw].0 == CodeOf(terms, x.text) && forall n :: 0 <= n < kw ==> rm[n].0 != CodeOf(terms, x.text)
    ensures RestText(x, terms, rm, r) == CodeOf(terms, x.text)
    ensures RestText(x, terms, rm, r + 1) == if rm[r].0 == CodeOf(terms, x.text) then rm[r].1 else CodeOf(terms, x.text)
  {
    if kw == r {
      assert rm[r].0 == CodeOf(terms, x.text);
    } else {
      assert rm[r].0 != CodeOf(terms, x.text);
    }
  }

  /** An occurrence still standing as its code `cw` is matched by its own code's pass, and by no other. */
  lemma RestCodeStep(xs: seq<Piece>, terms: TermMap, rm: ReverseMap, r: nat, m: nat, kw: nat)
    requires r < |rm| && m < |xs| && xs[m].Term? && Fenced(xs, m) && Wordy(rm[r].0)
    requires Wordy(CodeOf(terms, xs[m].text)) && kw == KeyIndex(rm, CodeOf(terms, xs[m].text))
    requires r <= kw < |rm| && rm[kw].0 == CodeOf(terms, xs[m].text)
    requires forall n :: 0 <= n < kw ==> rm[n].0 != CodeOf(terms, xs[m].text)
    ensures PieceStep(Flat(RestStage(xs, terms, rm, r)), Off(RestStage(xs, terms, rm, r), m),
                      RestStage(xs, terms, rm, r)[m], RestStage(xs, terms, rm, r + 1)[m],
                      rm[r].0, rm[r].1, WholeWord)
  {
    var ts, us := RestStage(xs, terms, rm, r), RestStage(xs, terms, rm, r + 1);
    RestCodeText(xs[m], terms, rm, r, kw);
    assert ts[m] == RestText(xs[m], terms, rm, r) && us[m] == RestText(xs[m], terms, rm, r + 1);
    RestIsolated(xs, terms, rm, r, m);
    CodePieceStep(ts, us, m, rm[r].0, rm[r].1);
  }

  /** During the restoring passes, each piece is either replaced whole by the current pass or left without a match. */
  lemma RestPieceStep(xs: seq<Piece>, terms: TermMap, rm: ReverseMap, r: nat, m: nat)
    requires RestorableMap(terms, rm) && Layout(xs, terms) && PlainsNoCode(xs, terms)
    requires r < |rm| && m < |xs|
    ensures PieceStep(Flat(RestStage(xs, terms, rm, r)), Off(RestStage(xs, terms, rm, r), m),
                      RestStage(xs, terms, rm, r)[m], RestStage(xs, terms, rm, r + 1)[m],
                      rm[r].0, rm[r].1, WholeWord)
  {
    var ci := PassCode(terms, rm, r);
    if xs[m].Plain? {
      RestPlainStep(xs, terms, rm, r, m);
    } else {
      var kw := KeyIndex(rm, CodeOf(terms, xs[m].text));
      LayoutFenced(xs, terms, m);
      if kw < r {
        RestDoneStep(xs, terms, rm, r, m, kw);
      } else {
        OccurrenceCode(terms, rm, xs[m].text);
        RestCodeStep(xs, terms, rm, r, m, kw);
      }
    }
  }
  /** Restoring pass `r` takes the text after `r` passes to the text after `r + 1`. */
  lemma RestPass(xs: seq<Piece>, terms: TermMap, rm: ReverseMap, r: nat)
    requires RestorableMap(terms, rm) && Layout(xs, terms) && PlainsNoCode(xs, terms) && r < |rm|
    ensures Sub(Flat(RestStage(xs, terms, rm, r)), rm[r].0, rm[r].1, WholeWord) == Flat(RestStage(xs, terms, rm, r + 1))
  {
    var ci := PassCode(terms, rm, r);
    forall m | 0 <= m < |xs|
      ensures PieceStep(Flat(RestStage(xs, terms, rm, r)), Off(RestStage(xs, terms, rm, r), m),
                        RestStage(xs, terms, rm, r)[m], RestStage(xs, terms, rm, r + 1)[m],
                        rm[r].0, rm[r].1, WholeWord)
    {
      RestPieceStep(xs, terms, rm, r, m);
    }
    Pass(RestStage(xs, terms, rm, r), RestStage(xs, terms, rm, r + 1), rm[r].0, rm[r].1, WholeWord);
  }

  lemma {:induction false} RestStages(xs: seq<Piece>, terms: TermMap, rm: ReverseMap, r: nat)
    requires RestorableMap(terms, rm) && Layout(xs, terms) && PlainsNoCode(xs, terms) && r <= |rm|
    ensures RestoreAll(Flat(Coded(xs, terms)), rm) == RestoreAll(Flat(RestStage(xs, terms, rm, r)), rm[r..])
    decreases r
  {
    if r == 0 {
      assert RestStage(xs, terms, rm, 0) == Coded(xs, terms);
      assert rm[0..] == rm;
    } else {
      RestStages(xs, terms, rm, r - 1);
      RestPass(xs, terms, rm, r - 1);
      assert rm[r - 1..][1..] == rm[r..];
    }
  }

  /**
   * Restoring a sanitized split text puts back, in place of each code, the term stored under
   * it, and leaves every plain stretch as it is.
   */
  lemma RestoreReplacesCodes(xs: seq<Piece>, terms: TermMap)
    requires RestorableTerms(terms) && Layout(xs, terms) && PlainsNoCode(xs, terms)
    ensures Restored(Flat(Coded(xs, terms)), terms) == Flat(Back(xs, terms))
  {
    var rm := ReverseMapOf(terms);
    RestorableMapOf(terms);
    RestStages(xs, terms, rm, |rm|);
    assert rm[|rm|..] == [];
    forall j | 0 <= j < |xs|
      ensures RestStage(xs, terms, rm, |rm|)[j] == Back(xs, terms)[j]
    {
      if xs[j].Term? {
        OccurrenceCode(terms, rm, xs[j].text);
      }
    }
    assert RestStage(xs, terms, rm, |rm|) == Back(xs, terms);
  }

  /**
   * The round trip: sanitizing, then restoring, gives back the plain stretches unchanged and
   * each occurrence as the term stored under its code.
   */
  lemma SanitizeThenRestore(xs: seq<Piece>, terms: TermMap)
    requires SanitizableTerms(terms) && RestorableTerms(terms)
    requires Layout(xs, terms) && PlainsFree(xs, terms) && PlainsNoCode(xs, terms)
    ensures Restored(Sanitized(Flat(Texts(xs)), terms, []), terms) == Flat(Back(xs, terms))
  {
    SanitizeReplacesTerms(xs, terms);
    RestoreReplacesCodes(xs, terms);
  }

  /** An occurrence comes back as the display term of the first entry carrying its code. */
  lemma RecoveredIsFirstEntry(terms: TermMap, w: string, i: nat)
    requires i < |terms| && terms[i].1 == CodeOf(terms, w)
    requires forall k :: 0 <= k < i ==> terms[k].1 != terms[i].1
    ensures Recovered(terms, w) == DisplayTerm(terms[i].0)
  {
    ReverseMapFirstWins(terms, i);
  }

  // ---------------------------------------------------------------- the default dictionary

  lemma DefaultSanitizable()
    ensures SanitizableTerms(DefaultTerms)
  {
    DefaultCodesNeverClash();
    DefaultPatternsOverlapOnlyWholly();
  }

  /** In a dictionary, each entry is what its own key looks up. */
  lemma LookupEntry(rm: ReverseMap, r: nat)
    requires DistinctKeys(rm) && r < |rm|
    ensures Lookup(rm, rm[r].0) == Some(rm[r].1)
  {
    KeyIndexSpec(rm, rm[r].0);
    EntryMember(rm, r);
  }

  /** A text in which the `j`-th character of `c` never occurs holds no match of `c`. */
  lemma NoMatchByChar(t: string, c: string, j: nat)
    requires j < |c| && forall x :: 0 <= x < |t| ==> t[x] != c[j]
    ensures forall k :: 0 <= k <= |t| ==> !MatchAt(t, k, c, WholeWord)
  {
    forall k | 0 <= k <= |t|
      ensures !MatchAt(t, k, c, WholeWord)
    {
      if k + |c| <= |t| {
        assert t[k + j] != c[j];
      }
    }
  }

  /** A text in which no character is, ignoring case, the `j`-th one of `p` is free of `p`. */
  lemma FreeByMissingChar(s: string, p: string, j: nat)
    requires j < |p| && forall x :: 0 <= x < |s| ==> Lower(s[x]) != Lower(p[j])
    ensures FreeOf(s, p)
  {
    forall m | 0 <= m
      ensures !LiteralAt(s, m, p, true)
    {
      if m + |p| <= |s| {
        assert Lower(s[m + j]) != Lower(p[j]);
      }
    }
  }

  /** The display terms stored in the default reverse dictionary. */
  lemma DefaultDisplays()
    ensures forall r :: 0 <= r < |ReverseMapOf(DefaultTerms)| ==>
      ReverseMapOf(DefaultTerms)[r].1 == "Anh chị" || ReverseMapOf(DefaultTerms)[r].1 == "Kiến thức"
  {
    var rm := ReverseMapOf(DefaultTerms);
    DefaultReverseMap();
    ReverseMapKeys(DefaultTerms);
    forall r | 0 <= r < |rm|
      ensures rm[r].1 == "Anh chị" || rm[r].1 == "Kiến thức"
    {
      EntryMember(rm, r);
      LookupEntry(rm, r);
    }
  }

  lemma DefaultCodesWordy()
    ensures forall i :: 0 <= i < |DefaultTerms| ==> Wordy(DefaultTerms[i].1)
  {
  }

  lemma DefaultRestorable()
    ensures RestorableTerms(DefaultTerms)
  {
    DefaultCodesWordy();
    DefaultDisplays();
    NoMatchByChar("Anh chị", "AC", 1);
    NoMatchByChar("Anh chị", "KT", 0);
    NoMatchByChar("Kiến thức", "AC", 0);
    NoMatchByChar("Kiến thức", "KT", 1);
  }

  /** With the default dictionary every casing of `anh chị` comes back as `Anh chị`, every casing of `kiến thức` as `Kiến thức`. */
  lemma DefaultRecovered(w: string)
    requires Win(DefaultTerms, w) < |DefaultTerms|
    ensures Recovered(DefaultTerms, w) == if FoldEq(w, "anh chị") then "Anh chị" else "Kiến thức"
  {
    DefaultReverseMap();
    WinSpec(DefaultTerms, w);
    if Win(DefaultTerms, w) == 0 {
      DefaultTermsShape();
      FoldEqSym(DefaultTerms[0].0, DefaultTerms[1].0);
      FoldEqViaThird(w, DefaultTerms[0].0, DefaultTerms[1].0);
    }
  }

  /**
   * The round trip with the default dictionary: plain stretches come back unchanged, every
   * casing of `anh chị` comes back as `Anh chị` and every casing of `kiến thức` as `Kiến thức`.
   */
  lemma DefaultRoundTrip(xs: seq<Piece>)
    requires Layout(xs, DefaultTerms) && PlainsFree(xs, DefaultTerms) && PlainsNoCode(xs, DefaultTerms)
    ensures Restored(Sanitized(Flat(Texts(xs)), DefaultTerms, DefaultAdvanced), DefaultTerms) == Flat(Back(xs, DefaultTerms))
    ensures forall j :: 0 <= j < |xs| && xs[j].Term? ==>
      Back(xs, DefaultTerms)[j] == if FoldEq(xs[j].text, "anh chị") then "Anh chị" else "Kiến thức"
  {
    DefaultSanitizable();
    DefaultRestorable();
    SanitizeThenRestore(xs, DefaultTerms);
    forall j | 0 <= j < |xs| && xs[j].Term?
      ensures Back(xs, DefaultTerms)[j] == if FoldEq(xs[j].text, "anh chị") then "Anh chị" else "Kiến thức"
    {
      DefaultRecovered(xs[j].text);
    }
  }

  /** With the default dictionary the round trip is exact when every occurrence is in its first-declared casing. */
  lemma DefaultExactRoundTrip(xs: seq<Piece>)
    requires Layout(xs, DefaultTerms) && PlainsFree(xs, DefaultTerms) && PlainsNoCode(xs, DefaultTerms)
    requires forall j :: 0 <= j < |xs| && xs[j].Term? ==> xs[j].text == "Anh chị" || xs[j].text == "Kiến thức"
    ensures Restored(Sanitized(Flat(Texts(xs)), DefaultTerms, DefaultAdvanced), DefaultTerms) == Flat(Texts(xs))
  {
    DefaultRoundTrip(xs);
    DefaultTermsShape();
    assert FoldEq("Anh chị", "anh chị");
    assert !FoldEq("Kiến thức", "anh chị") by {
      assert |"Kiến thức"| != |"anh chị"|;
    }
    assert Back(xs, DefaultTerms) == Texts(xs);
  }

  /** The file-based test sentence, split at its two occurrences. */
  const ExampleSplit: seq<Piece> :=
    [Plain("Xin chào "), Term("Anh chị"), Plain(", chúng ta sẽ học "), Term("Kiến thức"), Plain(" mới.")]

  /** No character of `t` lowers to `ị` or to `k`, and none is `A` or `K`. */
  predicate ClearText(t: string) {
    forall x :: 0 <= x < |t| ==> Lower(t[x]) != 'ị' && Lower(t[x]) != 'k' && t[x] != 'A' && t[x] != 'K'
  }

  /**
   * Text with no character that lowers to `ị` or to `k`, and no `A` or `K`, holds no default
   * pattern in any casing and no default code.
   */
  lemma ClearOfDefaults(t: string)
    requires ClearText(t)
    ensures forall i :: 0 <= i < |DefaultTerms| ==> FreeOf(t, DefaultTerms[i].0)
    ensures forall i, k :: 0 <= i < |DefaultTerms| && 0 <= k <= |t| ==> !MatchAt(t, k, DefaultTerms[i].1, WholeWord)
  {
    FreeByMissingChar(t, "Anh chị", 6);
    FreeByMissingChar(t, "anh chị", 6);
    FreeByMissingChar(t, "Kiến thức", 0);
    FreeByMissingChar(t, "kiến thức", 0);
    NoMatchByChar(t, "AC", 0);
    NoMatchByChar(t, "KT", 0);
  }

  lemma ExampleGreetingClear()
    ensures ClearText("Xin chào ")
  {
  }

  lemma ExampleMiddleClear()
    ensures ClearText(", chúng ta sẽ học ")
  {
  }

  lemma ExampleEndClear()
    ensures ClearText(" mới.")
  {
  }

  lemma ExampleAlternates()
    ensures forall j :: 0 <= j < |ExampleSplit| ==> |ExampleSplit[j].text| > 0
    ensures forall j :: 0 < j < |ExampleSplit| ==> ExampleSplit[j - 1].Plain? != ExampleSplit[j].Plain?
  {
  }

  lemma ExampleSeparated()
    ensures forall j :: 0 <= j < |ExampleSplit| - 1 && ExampleSplit[j].Plain? ==>
      !IsWordChar(ExampleSplit[j].text[|ExampleSplit[j].text| - 1])
    ensures forall j :: 0 < j < |ExampleSplit| && ExampleSplit[j].Plain? ==> !IsWordChar(ExampleSplit[j].text[0])
  {
  }

  lemma ExampleLayout()
    ensures Layout(ExampleSplit, DefaultTerms)
  {
    ExampleAlternates();
    ExampleSeparated();
    ExampleCodes();
  }

  lemma ExampleSplitFits()
    ensures Layout(ExampleSplit, DefaultTerms)
    ensures PlainsFree(ExampleSplit, DefaultTerms)
    ensures PlainsNoCode(ExampleSplit, DefaultTerms)
  {
    ExampleLayout();
    ExampleGreetingClear();
    ExampleMiddleClear();
    ExampleEndClear();
    forall j | 0 <= j < |ExampleSplit| && ExampleSplit[j].Plain?
      ensures forall i :: 0 <= i < |DefaultTerms| ==> FreeOf(ExampleSplit[j].text, DefaultTerms[i].0)
      ensures forall i, k :: 0 <= i < |DefaultTerms| && 0 <= k <= |ExampleSplit[j].text| ==>
        !MatchAt(ExampleSplit[j].text, k, DefaultTerms[i].1, WholeWord)
    {
      assert ClearText(ExampleSplit[j].text);
      ClearOfDefaults(ExampleSplit[j].text);
    }
  }

  /** The five pieces of a split, one after the other. */
  lemma FlatFive(a: string, b: string, c: string, d: string, e: string)
    ensures Flat([a, b, c, d, e]) == a + b + c + d + e
  {
    assert [a, b, c, d, e][1..] == [b, c, d, e];
    assert [b, c, d, e][1..] == [c, d, e];
    assert [c, d, e][1..] == [d, e];
    assert [d, e][1..] == [e];
    assert [e][1..] == [];
    assert Flat([e]) == e;
    assert Flat([d, e]) == d + e;
    assert Flat([c, d, e]) == c + d + e;
    assert Flat([b, c, d, e]) == b + c + d + e;
  }

  lemma ExampleCodes()
    ensures Win(DefaultTerms, "Anh chị") == 0 && Win(DefaultTerms, "Kiến thức") == 2
    ensures CodeOf(DefaultTerms, "Anh chị") == "AC" && CodeOf(DefaultTerms, "Kiến thức") == "KT"
  {
    FoldEqRefl("Anh chị");
    FoldEqRefl("Kiến thức");
    assert |"Kiến thức"| == 9;
    assert DefaultTerms[1..][1..][0].0 == "Kiến thức";
  }

  /** `Xin chào Anh chị, chúng ta sẽ học Kiến thức mới.`, written piece by piece. */
  const ExampleText: string := "Xin chào " + "Anh chị" + ", chúng ta sẽ học " + "Kiến thức" + " mới."
  /** `Xin chào AC, chúng ta sẽ học KT mới.`, written piece by piece. */
  const ExampleSanitized: string := "Xin chào " + "AC" + ", chúng ta sẽ học " + "KT" + " mới."

  lemma ExampleTexts()
    ensures Flat(Texts(ExampleSplit)) == ExampleText
  {
    var a, b, c, d, e := "Xin chào ", "Anh chị", ", chúng ta sẽ học ", "Kiến thức", " mới.";
    assert Texts(ExampleSplit) == [a, b, c, d, e];
    FlatFive(a, b, c, d, e);
  }

  lemma ExampleCoded()
    ensures Flat(Coded(ExampleSplit, DefaultTerms)) == ExampleSanitized
  {
    ExampleCodes();
    var a, c, e := "Xin chào ", ", chúng ta sẽ học ", " mới.";
    assert Coded(ExampleSplit, DefaultTerms) == [a, "AC", c, "KT", e];
    FlatFive(a, "AC", c, "KT", e);
  }

  /** What a split of five pieces, occurrences second and fourth, comes back as. */
  lemma BackOfFive(xs: seq<Piece>, terms: TermMap)
    requires |xs| == 5 && xs[0].Plain? && xs[1].Term? && xs[2].Plain? && xs[3].Term? && xs[4].Plain?
    ensures Back(xs, terms)
         == [xs[0].text, Recovered(terms, xs[1].text), xs[2].text, Recovered(terms, xs[3].text), xs[4].text]
  {
  }

  lemma ExampleRecoveredFirst()
    ensures Recovered(DefaultTerms, "Anh chị") == "Anh chị"
  {
    ExampleCodes();
    DefaultTermsShape();
    assert FoldEq("Anh chị", "anh chị");
    DefaultRecovered("Anh chị");
  }

  lemma ExampleRecoveredSecond()
    ensures Recovered(DefaultTerms, "Kiến thức") == "Kiến thức"
  {
    ExampleCodes();
    assert !FoldEq("Kiến thức", "anh chị") by {
      assert |"Kiến thức"| != |"anh chị"|;
    }
    DefaultRecovered("Kiến thức");
  }

  lemma ExampleBack()
    ensures Flat(Back(ExampleSplit, DefaultTerms)) == ExampleText
  {
    BackOfFive(ExampleSplit, DefaultTerms);
    ExampleRecoveredFirst();
    ExampleRecoveredSecond();
    FlatFive("Xin chào ", "Anh chị", ", chúng ta sẽ học ", "Kiến thức", " mới.");
  }

  /**
   * The file-based test of the pipeline: `Xin chào Anh chị, chúng ta sẽ học Kiến thức mới.`
   * sanitizes to `Xin chào AC, chúng ta sẽ học KT mới.`, which restores to the original.
   */
  lemma DefaultExample()
    ensures Sanitized(ExampleText, DefaultTerms, DefaultAdvanced) == ExampleSanitized
    ensures Restored(ExampleSanitized, DefaultTerms) == ExampleText
  {
    ExampleSplitFits();
    DefaultSanitizable();
    DefaultRestorable();
    SanitizeReplacesTerms(ExampleSplit, DefaultTerms);
    RestoreReplacesCodes(ExampleSplit, DefaultTerms);
    ExampleTexts();
    ExampleCoded();
    ExampleBack();
  }
}
