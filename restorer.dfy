/**
 * `reverse_sanitize.py`: the reverse dictionary from code to display term, the restorer that
 * puts display terms back where a code stands as a whole word, and the file-level wrapper
 * `process_sanitized_file`.  `src/reverse_sanitize.py` is the same code.
 */
module Restorer {
  import opened Wrappers
  import opened Chars
  import opened Strings
  import opened Paths
  import opened Substitution
  import opened ConfidentialTerms

  /** A code-to-term dictionary, in insertion order. */
  type ReverseMap = seq<(string, string)>

  /** The term a pattern stands for: every `\b` removed, then stripped. */
  function DisplayTerm(pattern: string): string {
    Strip(Replace(pattern, "\\b", ""))
  }

  /** Dictionary lookup: the value stored under the first (and, for a dictionary, only) equal key. */
  function Lookup(rm: ReverseMap, code: string): Option<string>
    decreases |rm|
  {
    if rm == [] then None else if rm[0].0 == code then Some(rm[0].1) else Lookup(rm[1..], code)
  }

  /** One step of `create_reverse_mapping`: a code already present keeps its term. */
  function Insert(rm: ReverseMap, entry: (string, string)): ReverseMap {
    if entry.1 in Keys(rm) then rm else rm + [(entry.1, DisplayTerm(entry.0))]
  }

  /** The reverse dictionary built so far, extended by the remaining entries in order. */
  function ReverseMapFrom(rm: ReverseMap, terms: TermMap): ReverseMap
    decreases |terms|
  {
    if terms == [] then rm else ReverseMapFrom(Insert(rm, terms[0]), terms[1..])
  }

  /** What `create_reverse_mapping` returns. */
  function ReverseMapOf(terms: TermMap): ReverseMap {
    ReverseMapFrom([], terms)
  }

  /** `create_reverse_mapping`, filling the dictionary in a loop. */
  method CreateReverseMapping(terms: TermMap) returns (rm: ReverseMap)
    ensures rm == ReverseMapOf(terms)
  {
    rm := [];
    for i := 0 to |terms|
      invariant ReverseMapFrom(rm, terms[i..]) == ReverseMapOf(terms)
    {
      assert terms[i..][1..] == terms[i + 1..];
      var (pattern, code) := terms[i];
      var term := DisplayTerm(pattern);
      if code !in Keys(rm) {
        rm := rm + [(code, term)];
      }
    }
  }

  /** Looking up in an extended dictionary finds an old key first. */
  lemma {:induction false} LookupAppend(rm: ReverseMap, e: (string, string), code: string)
    ensures Lookup(rm + [e], code)
         == if Lookup(rm, code).Some? then Lookup(rm, code) else if e.0 == code then Some(e.1) else None
    decreases |rm|
  {
    if rm != [] {
      assert (rm + [e])[1..] == rm[1..] + [e];
      LookupAppend(rm[1..], e, code);
    }
  }

  lemma {:induction false} LookupHasKey(rm: ReverseMap, code: string)
    ensures Lookup(rm, code).Some? <==> code in Keys(rm)
    decreases |rm|
  {
    if rm != [] {
      LookupHasKey(rm[1..], code);
    }
  }

  /** Appending an entry under a new key keeps the keys distinct. */
  lemma AppendNewKeyDistinct(rm: ReverseMap, e: (string, string))
    requires DistinctKeys(rm) && e.0 !in Keys(rm)
    ensures DistinctKeys(rm + [e])
  {
    forall i, j | 0 <= i < j < |rm + [e]|
      ensures (rm + [e])[i].0 != (rm + [e])[j].0
    {
      if j == |rm| {
        EntryMember(rm, i);
      }
    }
  }

  /** Processing entries adds exactly their codes to the keys, each key once. */
  lemma {:induction false} ReverseMapFromKeys(rm: ReverseMap, terms: TermMap)
    ensures Keys(ReverseMapFrom(rm, terms)) == Keys(rm) + Values(terms)
    ensures DistinctKeys(rm) ==> DistinctKeys(ReverseMapFrom(rm, terms))
    ensures |ReverseMapFrom(rm, terms)| <= |rm| + |terms|
    decreases |terms|
  {
    if terms != [] {
      var e := (terms[0].1, DisplayTerm(terms[0].0));
      if terms[0].1 !in Keys(rm) {
        KeysValuesAppend(rm, e);
        if DistinctKeys(rm) {
          AppendNewKeyDistinct(rm, e);
        }
      }
      ReverseMapFromKeys(Insert(rm, terms[0]), terms[1..]);
    }
  }

  /**
   * The reverse dictionary's keys are exactly the codes of the term map, each once, so it has at
   * most as many entries as the term map.
   */
  lemma ReverseMapKeys(terms: TermMap)
    ensures Keys(ReverseMapOf(terms)) == Values(terms)
    ensures DistinctKeys(ReverseMapOf(terms))
    ensures |ReverseMapOf(terms)| <= |terms|
  {
    ReverseMapFromKeys([], terms);
  }

  /** Entries already in the dictionary keep their term whatever follows. */
  lemma {:induction false} ReverseMapFromKeepsOld(rm: ReverseMap, terms: TermMap, code: string)
    requires code in Keys(rm)
    ensures Lookup(ReverseMapFrom(rm, terms), code) == Lookup(rm, code)
    decreases |terms|
  {
    if terms != [] {
      var e := (terms[0].1, DisplayTerm(terms[0].0));
      LookupHasKey(rm, code);
      if terms[0].1 !in Keys(rm) {
        LookupAppend(rm, e, code);
        KeysValuesAppend(rm, e);
      }
      ReverseMapFromKeepsOld(Insert(rm, terms[0]), terms[1..], code);
    }
  }

  lemma {:induction false} ReverseMapFromFirstWins(rm: ReverseMap, terms: TermMap, i: nat)
    requires i < |terms| && terms[i].1 !in Keys(rm)
    requires forall k :: 0 <= k < i ==> terms[k].1 != terms[i].1
    ensures Lookup(ReverseMapFrom(rm, terms), terms[i].1) == Some(DisplayTerm(terms[i].0))
    decreases |terms|
  {
    var e := (terms[0].1, DisplayTerm(terms[0].0));
    KeysValuesAppend(rm, e);
    if i == 0 {
      LookupHasKey(rm, terms[0].1);
      LookupAppend(rm, e, terms[0].1);
      ReverseMapFromKeepsOld(rm + [e], terms[1..], terms[0].1);
    } else {
      assert terms[1..][i - 1] == terms[i];
      ReverseMapFromFirstWins(Insert(rm, terms[0]), terms[1..], i - 1);
    }
  }

  /**
   * First wins: the term stored under a code is the display term of the first entry with that
   * code.
   */
  lemma ReverseMapFirstWins(terms: TermMap, i: nat)
    requires i < |terms| && forall k :: 0 <= k < i ==> terms[k].1 != terms[i].1
    ensures Lookup(ReverseMapOf(terms), terms[i].1) == Some(DisplayTerm(terms[i].0))
  {
    ReverseMapFromFirstWins([], terms, i);
  }

  /** Only codes of the term map have an entry in the reverse dictionary. */
  lemma OnlyCodesHaveEntries(terms: TermMap, code: string)
    requires code !in Values(terms)
    ensures Lookup(ReverseMapOf(terms), code) == None
  {
    ReverseMapKeys(terms);
    LookupHasKey(ReverseMapOf(terms), code);
  }

  /** A pattern with no backslash and no surrounding whitespace is its own display term. */
  lemma DisplayOfPlainPattern(p: string)
    requires forall k :: 0 <= k < |p| ==> p[k] != '\\'
    requires |p| > 0 ==> !IsSpace(p[0]) && !IsSpace(p[|p| - 1])
    ensures DisplayTerm(p) == p
  {
    forall k | 0 <= k <= |p|
      ensures !MatchAt(p, k, "\\b", Exact)
    {
      if k + 2 <= |p| {
        assert !Same(p[k + 0], "\\b"[0], false);
      }
    }
    SubNoMatch(p, "\\b", "", Exact);
  }

  /** The first pattern of each default pair has no `\b` and no surrounding whitespace: it is its own display term. */
  lemma DefaultDisplayFirst()
    ensures DisplayTerm("Anh chị") == "Anh chị"
  {
    DisplayOfPlainPattern("Anh chị");
  }

  lemma DefaultDisplaySecond()
    ensures DisplayTerm("Kiến thức") == "Kiến thức"
  {
    DisplayOfPlainPattern("Kiến thức");
  }

  /** For the default dictionary the reverse dictionary is `{AC: Anh chị, KT: Kiến thức}`. */
  lemma DefaultReverseMap()
    ensures Keys(ReverseMapOf(DefaultTerms)) == {"AC", "KT"}
    ensures Lookup(ReverseMapOf(DefaultTerms), "AC") == Some("Anh chị")
    ensures Lookup(ReverseMapOf(DefaultTerms), "KT") == Some("Kiến thức")
  {
    DefaultTermsShape();
    ReverseMapKeys(DefaultTerms);
    DefaultDisplayFirst();
    DefaultDisplaySecond();
    ReverseMapFirstWins(DefaultTerms, 0);
    ReverseMapFirstWins(DefaultTerms, 2);
  }

  /** One whole-word, case-sensitive pass per entry of the reverse dictionary, in order. */
  function RestoreAll(text: string, rm: ReverseMap): string
    decreases |rm|
  {
    if rm == [] then text else RestoreAll(Sub(text, rm[0].0, rm[0].1, WholeWord), rm[1..])
  }

  /** What `reverse_sanitize_text` returns for the configured term map. */
  function Restored(text: string, terms: TermMap): string {
    RestoreAll(text, ReverseMapOf(terms))
  }

  /** `reverse_sanitize_text`: builds the reverse dictionary, then loops over it. */
  method ReverseSanitizeText(text: string, terms: TermMap) returns (r: string)
    ensures r == Restored(text, terms)
  {
    var rm := CreateReverseMapping(terms);
    r := text;
    var i := 0;
    while i < |rm|
      invariant 0 <= i <= |rm|
      invariant RestoreAll(r, rm[i..]) == Restored(text, terms)
    {
      assert rm[i..][1..] == rm[i + 1..];
      var (code, term) := rm[i];
      r := Sub(r, code, term, WholeWord);
      i := i + 1;
    }
  }

  /** Text in which no code stands as a whole word comes back unchanged. */
  lemma {:induction false} NoWholeWordCodeUnchanged(text: string, rm: ReverseMap)
    requires forall j :: 0 <= j < |rm| ==> |rm[j].0| > 0
    requires forall j, k :: 0 <= j < |rm| && 0 <= k <= |text| ==> !MatchAt(text, k, rm[j].0, WholeWord)
    ensures RestoreAll(text, rm) == text
    decreases |rm|
  {
    if rm != [] {
      SubNoMatch(text, rm[0].0, rm[0].1, WholeWord);
      NoWholeWordCodeUnchanged(text, rm[1..]);
    }
  }

  /** The empty text comes back empty, whatever the codes. */
  lemma {:induction false} EmptyTextUnchanged(rm: ReverseMap)
    ensures RestoreAll("", rm) == ""
    decreases |rm|
  {
    if rm != [] {
      assert !Boundary("", 0);
      assert Sub("", rm[0].0, rm[0].1, WholeWord) == "";
      EmptyTextUnchanged(rm[1..]);
    }
  }

  /** A text holding neither default code as a whole word comes back unchanged. */
  lemma DefaultNoCodeUnchanged(text: string)
    requires forall k :: 0 <= k <= |text| ==> !MatchAt(text, k, "AC", WholeWord) && !MatchAt(text, k, "KT", WholeWord)
    ensures Restored(text, DefaultTerms) == text
  {
    DefaultReverseMap();
    var rm := ReverseMapOf(DefaultTerms);
    forall j | 0 <= j < |rm|
      ensures rm[j].0 == "AC" || rm[j].0 == "KT"
    {
      EntryMember(rm, j);
    }
    NoWholeWordCodeUnchanged(text, rm);
  }

  lemma GapLowerCase()
    ensures forall k :: 0 <= k <= 2 ==> !MatchAt("ac", k, "AC", WholeWord) && !MatchAt("ac", k, "KT", WholeWord)
  {
    forall k | 0 <= k <= 2
      ensures !MatchAt("ac", k, "AC", WholeWord) && !MatchAt("ac", k, "KT", WholeWord)
    {
      if k == 0 {
        assert !Same("ac"[0 + 0], "AC"[0], false) && !Same("ac"[0 + 0], "KT"[0], false);
      }
    }
  }

  lemma GapWordAfter()
    ensures forall k :: 0 <= k <= 3 ==> !MatchAt("ACB", k, "AC", WholeWord) && !MatchAt("ACB", k, "KT", WholeWord)
  {
    assert IsWordChar("ACB"[2]);
  }

  lemma GapWordBefore()
    ensures forall k :: 0 <= k <= 3 ==> !MatchAt("xAC", k, "AC", WholeWord) && !MatchAt("xAC", k, "KT", WholeWord)
  {
    assert IsWordChar("xAC"[0]);
  }

  /** The case-sensitivity gap: `ac`, and codes inside words such as `ACB` and `xAC`, stay as they are. */
  lemma DefaultCaseGap()
    ensures Restored("ac", DefaultTerms) == "ac"
    ensures Restored("ACB", DefaultTerms) == "ACB"
    ensures Restored("xAC", DefaultTerms) == "xAC"
  {
    GapLowerCase();
    DefaultNoCodeUnchanged("ac");
    GapWordAfter();
    DefaultNoCodeUnchanged("ACB");
    GapWordBefore();
    DefaultNoCodeUnchanged("xAC");
  }

  /** `process_sanitized_file`'s base name: every `_sanitized` removed, if the stem ends with one. */
  function RestoredBase(stem: string): string {
    if EndsWith(stem, "_sanitized") then Replace(stem, "_sanitized", "") else stem
  }

  /** The default restored file: `{base}_restored{suffix}` in the current directory. */
  function RestoredPath(input: Path, output: Option<Path>): Path {
    if output.Some? then output.value
    else Path("", RestoredBase(Stem(input)) + "_restored" + Suffix(input))
  }

  /** A stem `base_sanitized`, with no other `_sanitized` in it, restores to `base`. */
  lemma RestoredBaseOfSanitized(base: string)
    requires !Contains(base, "_sanitized")
    ensures RestoredBase(base + "_sanitized") == base
  {
    var pat := "_sanitized";
    var s := base + pat;
    assert s[|s| - |pat|..] == pat;
    forall k | 0 <= k < |base|
      ensures !MatchAt(s, k, pat, Exact)
    {
      if k + |pat| <= |base| {
        if LiteralAt(s, k, pat, false) {
          assert base[k..k + |pat|] == pat by {
            forall j | 0 <= j < |pat|
              ensures base[k..k + |pat|][j] == pat[j]
            {
              assert Same(s[k + j], pat[j], false);
            }
          }
          assert OccursAt(base, k, pat);
        }
      } else if k + |pat| <= |s| {
        assert s[k + (|base| - k)] == '_';
        assert pat[|base| - k] != '_';
        assert !Same(s[k + (|base| - k)], pat[|base| - k], false);
      }
    }
    SubSkip(s, 0, |base|, pat, "", Exact);
    assert MatchAt(s, |base|, pat, Exact) by {
      forall j | 0 <= j < |pat|
        ensures Same(s[|base| + j], pat[j], false)
      {
      }
    }
    SubHit(s, |base|, pat, "", Exact);
  }

  /**
   * `process_sanitized_file`: a missing input gives `False` and writes nothing; otherwise the
   * restored text (not stripped) is written and the result is `True`.
   */
  method ProcessSanitizedFile(fs: FileSystem, input: Path, output: Option<Path>, terms: TermMap)
    returns (ok: bool, fs': FileSystem)
    ensures input !in fs ==> !ok && fs' == fs
    ensures input in fs ==> ok && fs' == fs[RestoredPath(input, output) := Restored(fs[input], terms)]
  {
    if input !in fs {
      return false, fs;
    }
    var restored := ReverseSanitizeText(fs[input], terms);
    var out := RestoredPath(input, output);
    fs' := fs[out := restored];
    ok := true;
  }
}
