/**
 * The forward direction of `main.py`: `sanitize_text`, which replaces every confidential term
 * by its code, and the part of `transcribe_video` that joins the transcript and writes the
 * original and the sanitized text files.  The speech recogniser is a parameter: the segment
 * texts it produced, or `None` when it raised.
 */
module Sanitizer {
  import opened Wrappers
  import opened Chars
  import opened Strings
  import opened Paths
  import opened Substitution
  import opened ConfidentialTerms

  /** The term passes, in dictionary order, each case-insensitive over the text produced so far. */
  function SanitizeTerms(text: string, terms: TermMap): string
    decreases |terms|
  {
    if terms == [] then text
    else SanitizeTerms(Sub(text, terms[0].0, terms[0].1, IgnoreCase), terms[1..])
  }

  /** The further rewrites, in list order, each case-sensitive. */
  function ApplyRewrites(text: string, rewrites: Rewrites): string
    decreases |rewrites|
  {
    if rewrites == [] then text
    else ApplyRewrites(Sub(text, rewrites[0].0, rewrites[0].1, Exact), rewrites[1..])
  }

  /** What `sanitize_text` returns. */
  function Sanitized(text: string, terms: TermMap, rewrites: Rewrites): string {
    ApplyRewrites(SanitizeTerms(text, terms), rewrites)
  }

  /** `sanitize_text`: the accumulator loops over the terms, then over the rewrites. */
  method SanitizeText(text: string, terms: TermMap, rewrites: Rewrites) returns (r: string)
    ensures r == Sanitized(text, terms, rewrites)
  {
    r := text;
    var i := 0;
    while i < |terms|
      invariant 0 <= i <= |terms|
      invariant SanitizeTerms(r, terms[i..]) == SanitizeTerms(text, terms)
    {
      assert terms[i..][1..] == terms[i + 1..];
      r := Sub(r, terms[i].0, terms[i].1, IgnoreCase);
      i := i + 1;
    }
    var j := 0;
    while j < |rewrites|
      invariant 0 <= j <= |rewrites|
      invariant ApplyRewrites(r, rewrites[j..]) == Sanitized(text, terms, rewrites)
    {
      assert rewrites[j..][1..] == rewrites[j + 1..];
      r := Sub(r, rewrites[j].0, rewrites[j].1, Exact);
      j := j + 1;
    }
  }

  /** Patterns are non-empty and no code or rewrite result can rebuild a pattern. */
  ghost predicate CodesNeverClash(terms: TermMap, rewrites: Rewrites) {
    (forall i :: 0 <= i < |terms| ==> |terms[i].0| > 0)
    && (forall i, j :: 0 <= i < |terms| && 0 <= j < |terms| ==> NoClash(terms[i].0, terms[j].1))
    && (forall j :: 0 <= j < |rewrites| ==> |rewrites[j].0| > 0)
    && (forall i, j :: 0 <= i < |terms| && 0 <= j < |rewrites| ==> NoClash(terms[i].0, rewrites[j].1))
  }

  /** Passes whose replacements do not clash with `p` keep text free of `p`. */
  lemma {:induction false} RewritesKeepFree(text: string, rewrites: Rewrites, p: string)
    requires |p| > 0 && FreeOf(text, p)
    requires forall j :: 0 <= j < |rewrites| ==> |rewrites[j].0| > 0 && NoClash(p, rewrites[j].1)
    ensures FreeOf(ApplyRewrites(text, rewrites), p)
    decreases |rewrites|
  {
    if rewrites != [] {
      SubFreeOf(text, 0, rewrites[0].0, rewrites[0].1, Exact, p);
      RewritesKeepFree(Sub(text, rewrites[0].0, rewrites[0].1, Exact), rewrites[1..], p);
    }
  }

  lemma {:induction false} TermsKeepFree(text: string, terms: TermMap, p: string)
    requires |p| > 0 && FreeOf(text, p)
    requires forall j :: 0 <= j < |terms| ==> |terms[j].0| > 0 && NoClash(p, terms[j].1)
    ensures FreeOf(SanitizeTerms(text, terms), p)
    decreases |terms|
  {
    if terms != [] {
      SubFreeOf(text, 0, terms[0].0, terms[0].1, IgnoreCase, p);
      TermsKeepFree(Sub(text, terms[0].0, terms[0].1, IgnoreCase), terms[1..], p);
    }
  }

  /** After the term passes, no pattern occurs in the text, in any casing. */
  lemma {:induction false} TermPassesLeaveNoTerm(text: string, terms: TermMap)
    requires forall i :: 0 <= i < |terms| ==> |terms[i].0| > 0
    requires forall i, j :: 0 <= i < |terms| && 0 <= j < |terms| ==> NoClash(terms[i].0, terms[j].1)
    ensures forall i :: 0 <= i < |terms| ==> FreeOf(SanitizeTerms(text, terms), terms[i].0)
    decreases |terms|
  {
    if terms != [] {
      var p := terms[0].0;
      var next := Sub(text, p, terms[0].1, IgnoreCase);
      TermPassesLeaveNoTerm(next, terms[1..]);
      SubFreeOf(text, 0, p, terms[0].1, IgnoreCase, p);
      TermsKeepFree(next, terms[1..], p);
      forall i | 0 <= i < |terms|
        ensures FreeOf(SanitizeTerms(text, terms), terms[i].0)
      {
        if i > 0 {
          assert terms[i] == terms[1..][i - 1];
        }
      }
    }
  }

  /**
   * Non-leakage: `sanitize_text` leaves no case-insensitive occurrence of any pattern, as long
   * as no code or rewrite result can rebuild one.
   */
  lemma SanitizedHasNoTerm(text: string, terms: TermMap, rewrites: Rewrites)
    requires CodesNeverClash(terms, rewrites)
    ensures forall i :: 0 <= i < |terms| ==> FreeOf(Sanitized(text, terms, rewrites), terms[i].0)
  {
    TermPassesLeaveNoTerm(text, terms);
    forall i | 0 <= i < |terms|
      ensures FreeOf(Sanitized(text, terms, rewrites), terms[i].0)
    {
      RewritesKeepFree(SanitizeTerms(text, terms), rewrites, terms[i].0);
    }
  }

  /** Text in which no pattern and no rewrite pattern occurs comes back unchanged. */
  lemma {:induction false} TermFreeTextUnchanged(text: string, terms: TermMap, rewrites: Rewrites)
    requires forall i :: 0 <= i < |terms| ==> |terms[i].0| > 0 && FreeOf(text, terms[i].0)
    requires forall j :: 0 <= j < |rewrites| ==> |rewrites[j].0| > 0 && FreeOf(text, rewrites[j].0)
    ensures Sanitized(text, terms, rewrites) == text
    decreases |terms| + |rewrites|
  {
    if terms != [] {
      SubFreeIdentity(text, terms[0].0, terms[0].1, IgnoreCase);
      TermFreeTextUnchanged(text, terms[1..], rewrites);
    } else if rewrites != [] {
      SubFreeIdentity(text, rewrites[0].0, rewrites[0].1, Exact);
      TermFreeTextUnchanged(text, terms, rewrites[1..]);
    }
  }

  /** The empty transcript stays empty when no pattern is empty. */
  lemma EmptyTextUnchanged(terms: TermMap, rewrites: Rewrites)
    requires forall i :: 0 <= i < |terms| ==> |terms[i].0| > 0
    requires forall j :: 0 <= j < |rewrites| ==> |rewrites[j].0| > 0
    ensures Sanitized("", terms, rewrites) == ""
  {
    TermFreeTextUnchanged("", terms, rewrites);
  }

  /** The default configuration has no rewrites, so its second pass changes nothing. */
  lemma DefaultRewritesIdentity(text: string)
    ensures Sanitized(text, DefaultTerms, DefaultAdvanced) == SanitizeTerms(text, DefaultTerms)
  {
  }

  /** With the default configuration, the sanitized text contains no casing of either phrase. */
  lemma DefaultSanitizedHasNoTerm(text: string)
    ensures forall i :: 0 <= i < |DefaultTerms| ==>
      FreeOf(Sanitized(text, DefaultTerms, DefaultAdvanced), DefaultTerms[i].0)
  {
    DefaultCodesNeverClash();
    SanitizedHasNoTerm(text, DefaultTerms, DefaultAdvanced);
  }

  /**
   * In the default dictionary the first entry of each pair already replaces every casing, so
   * the second entry (`anh chị`, `kiến thức`) never finds a match.
   */
  lemma DefaultSecondCasingsInert(text: string)
    ensures SanitizeTerms(text, DefaultTerms)
         == Sub(Sub(text, "Anh chị", "AC", IgnoreCase), "Kiến thức", "KT", IgnoreCase)
  {
    DefaultCodesNeverClash();
    DefaultTermsShape();
    var t1 := Sub(text, "Anh chị", "AC", IgnoreCase);
    SubFreeOf(text, 0, "Anh chị", "AC", IgnoreCase, "Anh chị");
    FoldEqFree(t1, "Anh chị", "anh chị");
    SubFreeIdentity(t1, "anh chị", "AC", IgnoreCase);
    var t3 := Sub(t1, "Kiến thức", "KT", IgnoreCase);
    SubFreeOf(t1, 0, "Kiến thức", "KT", IgnoreCase, "Kiến thức");
    FoldEqFree(t3, "Kiến thức", "kiến thức");
    SubFreeIdentity(t3, "kiến thức", "KT", IgnoreCase);
    assert DefaultTerms[1..][1..][1..][1..] == [];
  }

  /** Text too short to hold a pattern is not changed by its pass. */
  lemma ShortTextUnchanged(text: string, p: string, rep: string, mode: Mode)
    requires |text| < |p|
    ensures Sub(text, p, rep, mode) == text
  {
    SubNoMatch(text, p, rep, mode);
  }

  /** Every casing of `anh chị` sanitizes to `AC`. */
  lemma FirstPhraseCasing(v: string)
    requires FoldEq(v, "anh chị")
    ensures Sanitized(v, DefaultTerms, DefaultAdvanced) == "AC"
  {
    DefaultSecondCasingsInert(v);
    DefaultFirstCasings();
    FoldEqViaThird(v, "anh chị", "Anh chị");
    SubWholeMatch(v, "Anh chị", "AC", IgnoreCase);
    ShortTextUnchanged("AC", "Kiến thức", "KT", IgnoreCase);
  }

  /** Every casing of `kiến thức` sanitizes to `KT`. */
  lemma SecondPhraseCasing(v: string)
    requires FoldEq(v, "kiến thức")
    ensures Sanitized(v, DefaultTerms, DefaultAdvanced) == "KT"
  {
    DefaultSecondCasingsInert(v);
    DefaultSecondCasings();
    FreeByFront(v, "kiến thức", "Anh chị");
    SubFreeIdentity(v, "Anh chị", "AC", IgnoreCase);
    FoldEqViaThird(v, "kiến thức", "Kiến thức");
    SubWholeMatch(v, "Kiến thức", "KT", IgnoreCase);
  }

  /** Every casing of `anh chị` sanitizes to `AC`, and every casing of `kiến thức` to `KT`. */
  lemma DefaultAnyCasingSameCode(v: string)
    ensures FoldEq(v, "anh chị") ==> Sanitized(v, DefaultTerms, DefaultAdvanced) == "AC"
    ensures FoldEq(v, "kiến thức") ==> Sanitized(v, DefaultTerms, DefaultAdvanced) == "KT"
  {
    if FoldEq(v, "anh chị") {
      FirstPhraseCasing(v);
    }
    if FoldEq(v, "kiến thức") {
      SecondPhraseCasing(v);
    }
  }
}
