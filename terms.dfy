/**
 * The configuration of confidential terms: an ordered dictionary from pattern to code
 * (a Python `dict` keeps insertion order) and an ordered list of further rewrites applied
 * after it.  Patterns are literal phrases.
 */
module ConfidentialTerms {
  import opened Substitution

  /** (pattern, code) pairs in dictionary order. */
  type TermMap = seq<(string, string)>

  /** (pattern, replacement) pairs in list order. */
  type Rewrites = seq<(string, string)>

  /** A dictionary never holds the same key twice. */
  predicate DistinctKeys(m: seq<(string, string)>) {
    forall i, j :: 0 <= i < j < |m| ==> m[i].0 != m[j].0
  }

  /** `CONFIDENTIAL_TERMS`; `main.py` and `reverse_sanitize.py` fall back to the same four entries. */
  const DefaultTerms: TermMap :=
    [("Anh chị", "AC"), ("anh chị", "AC"), ("Kiến thức", "KT"), ("kiến thức", "KT")]

  /** `ADVANCED_PATTERNS`: no rewrites. */
  const DefaultAdvanced: Rewrites := []

  /** The keys of a dictionary held as a sequence of pairs. */
  function Keys(m: seq<(string, string)>): set<string>
    decreases |m|
  {
    if m == [] then {} else {m[0].0} + Keys(m[1..])
  }

  /** The values of a dictionary held as a sequence of pairs: for a term map, its codes. */
  function Values(m: seq<(string, string)>): set<string>
    decreases |m|
  {
    if m == [] then {} else {m[0].1} + Values(m[1..])
  }

  lemma {:induction false} KeysValuesAppend(m: seq<(string, string)>, e: (string, string))
    ensures Keys(m + [e]) == Keys(m) + {e.0}
    ensures Values(m + [e]) == Values(m) + {e.1}
    decreases |m|
  {
    if m == [] {
      assert [e][1..] == [];
    } else {
      assert (m + [e])[1..] == m[1..] + [e];
      KeysValuesAppend(m[1..], e);
    }
  }

  /** Every entry's key and value are among the keys and the values. */
  lemma {:induction false} EntryMember(m: seq<(string, string)>, i: nat)
    requires i < |m|
    ensures m[i].0 in Keys(m) && m[i].1 in Values(m)
    decreases i
  {
    if i > 0 {
      EntryMember(m[1..], i - 1);
    }
  }

  /** A value no entry carries is not among the values. */
  lemma {:induction false} ValueAbsent(m: seq<(string, string)>, v: string)
    requires forall i :: 0 <= i < |m| ==> m[i].1 != v
    ensures v !in Values(m)
    decreases |m|
  {
    if m != [] {
      ValueAbsent(m[1..], v);
    }
  }

  /** A value of a dictionary is carried by one of its entries. */
  lemma {:induction false} ValueWitness(m: seq<(string, string)>, v: string) returns (i: nat)
    requires v in Values(m)
    ensures i < |m| && m[i].1 == v
    decreases |m|
  {
    if m[0].1 == v {
      i := 0;
    } else {
      var i' := ValueWitness(m[1..], v);
      i := i' + 1;
    }
  }

  /** The default dictionary is well formed, and its two codes come from two casings of one phrase each. */
  lemma DefaultTermsShape()
    ensures DistinctKeys(DefaultTerms)
    ensures |DefaultTerms| == 4
    ensures Values(DefaultTerms) == {"AC", "KT"}
    ensures FoldEq(DefaultTerms[0].0, DefaultTerms[1].0) && DefaultTerms[0].1 == DefaultTerms[1].1
    ensures FoldEq(DefaultTerms[2].0, DefaultTerms[3].0) && DefaultTerms[2].1 == DefaultTerms[3].1
  {
    DefaultKeysDistinct();
    DefaultValues();
    DefaultFirstCasings();
    DefaultSecondCasings();
  }

  lemma DefaultKeysDistinct()
    ensures DistinctKeys(DefaultTerms)
  {
  }

  lemma DefaultValues()
    ensures Values(DefaultTerms) == {"AC", "KT"}
  {
    assert DefaultTerms[1..][1..][1..][1..] == [];
  }

  lemma DefaultFirstCasings()
    ensures FoldEq("Anh chị", "anh chị")
  {
  }

  lemma DefaultSecondCasings()
    ensures FoldEq("Kiến thức", "kiến thức")
  {
  }

  /** Neither default code can rebuild `Anh chị`, in any casing or overlap. */
  lemma FirstPatternsNeverClash()
    ensures NoClash("Anh chị", "AC") && NoClash("anh chị", "AC")
    ensures NoClash("Anh chị", "KT") && NoClash("anh chị", "KT")
  {
    NoClashByFronts("Anh chị", "AC", 1);
    NoClashByFronts("anh chị", "AC", 1);
    NoClashByFronts("Anh chị", "KT", 0);
    NoClashByFronts("anh chị", "KT", 0);
  }

  lemma UpperSecondNeverClashes()
    ensures NoClash("Kiến thức", "AC") && NoClash("Kiến thức", "KT")
  {
    NoClashByFronts("Kiến thức", "AC", 0);
    NoClashByFronts("Kiến thức", "KT", 1);
  }

  lemma LowerSecondNeverClashes()
    ensures NoClash("kiến thức", "AC") && NoClash("kiến thức", "KT")
  {
    NoClashByFronts("kiến thức", "AC", 0);
    NoClashByFronts("kiến thức", "KT", 1);
  }

  /** Neither default code can rebuild `Kiến thức`, in any casing or overlap. */
  lemma SecondPatternsNeverClash()
    ensures NoClash("Kiến thức", "AC") && NoClash("kiến thức", "AC")
    ensures NoClash("Kiến thức", "KT") && NoClash("kiến thức", "KT")
  {
    UpperSecondNeverClashes();
    LowerSecondNeverClashes();
  }

  /** No default code can rebuild a default pattern, in any casing or overlap. */
  lemma DefaultCodesNeverClash()
    ensures forall i, j :: 0 <= i < |DefaultTerms| && 0 <= j < |DefaultTerms| ==>
      NoClash(DefaultTerms[i].0, DefaultTerms[j].1)
  {
    FirstPatternsNeverClash();
    SecondPatternsNeverClash();
  }

  /** `Anh chị` in either casing overlaps a default pattern only by covering it exactly. */
  lemma FirstPatternsOverlapOnlyWholly(y: string)
    requires y in {"Anh chị", "anh chị", "Kiến thức", "kiến thức"}
    ensures OnlyWholeOverlap("Anh chị", y) && OnlyWholeOverlap("anh chị", y)
  {
    OnlyWholeOverlapByFronts("Anh chị", y);
    OnlyWholeOverlapByFronts("anh chị", y);
  }

  /** `Kiến thức` in either casing overlaps a default pattern only by covering it exactly. */
  lemma SecondPatternsOverlapOnlyWholly(y: string)
    requires y in {"Anh chị", "anh chị", "Kiến thức", "kiến thức"}
    ensures OnlyWholeOverlap("Kiến thức", y) && OnlyWholeOverlap("kiến thức", y)
  {
    OnlyWholeOverlapByFronts("Kiến thức", y);
    OnlyWholeOverlapByFronts("kiến thức", y);
  }

  /** Two default patterns overlap ignoring case only by covering each other exactly. */
  lemma DefaultPatternsOverlapOnlyWholly()
    ensures forall i, j :: 0 <= i < |DefaultTerms| && 0 <= j < |DefaultTerms| ==>
      OnlyWholeOverlap(DefaultTerms[i].0, DefaultTerms[j].0)
  {
    forall y | y in {"Anh chị", "anh chị", "Kiến thức", "kiến thức"}
      ensures OnlyWholeOverlap("Anh chị", y) && OnlyWholeOverlap("anh chị", y)
      ensures OnlyWholeOverlap("Kiến thức", y) && OnlyWholeOverlap("kiến thức", y)
    {
      FirstPatternsOverlapOnlyWholly(y);
      SecondPatternsOverlapOnlyWholly(y);
    }
  }
}
