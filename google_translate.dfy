/**
 * The pure parts of `src/auto_translate_google.py`: turning a language name or code into the
 * code Google Translate expects, the page address, the rule that decides whether the text read
 * back from the page is a translation, and the input checks and output naming of `process_file`.
 * The browser session is a collaborator: from the text and the two codes it yields the text read
 * back (from the clipboard or the page), or `None` when any step of the automation raised.
 */
module GoogleTranslate {
  import opened Wrappers
  import opened Chars
  import opened Strings
  import opened Paths
  import opened ConfidentialTerms
  import opened Restorer
  import opened RoundTrip

  /** `LANGUAGE_CODES`: lower-case language names and their codes, in dictionary order. */
  const LanguageCodes: seq<(string, string)> := [
    ("english", "en"), ("vietnamese", "vi"), ("spanish", "es"), ("french", "fr"),
    ("german", "de"), ("chinese", "zh-CN"), ("japanese", "ja"), ("korean", "ko"),
    ("thai", "th"), ("russian", "ru"), ("portuguese", "pt"), ("italian", "it"),
    ("arabic", "ar"), ("hindi", "hi")]

  /** What `get_language_code` treats as a code already: two characters, or five with a `-`. */
  predicate CodeShaped(language: string) {
    |language| == 2 || (|language| == 5 && '-' in language)
  }

  /** `get_language_code`; `None` and the empty string are Python-falsy and mean auto-detection. */
  function LanguageCode(language: Option<string>): string {
    if language.None? || language.value == "" then "auto"
    else if CodeShaped(language.value) then LowerStr(language.value)
    else
      var lower := LowerStr(language.value);
      match Lookup(LanguageCodes, lower)
      case Some(code) => code
      case None => lower
  }

  /** A value found in a dictionary is one of its values. */
  lemma {:induction false} LookupIsValue(m: seq<(string, string)>, key: string)
    ensures Lookup(m, key).Some? ==> Lookup(m, key).value in Values(m)
    decreases |m|
  {
    if m != [] && m[0].0 != key {
      LookupIsValue(m[1..], key);
    }
  }

  /** The result is always `auto`, the input lower-cased, or one of the table's codes. */
  lemma LanguageCodeRange(language: Option<string>)
    ensures var r := LanguageCode(language);
      r == "auto" || (language.Some? && r == LowerStr(language.value)) || r in Values(LanguageCodes)
  {
    if language.Some? && language.value != "" && !CodeShaped(language.value) {
      LookupIsValue(LanguageCodes, LowerStr(language.value));
    }
  }

  /** Any code-shaped input, two characters or five with a `-`, is lower-cased character by character. */
  lemma CodeShapedIsLowered(v: string)
    requires CodeShaped(v)
    ensures var r := LanguageCode(Some(v));
      r == LowerStr(v) && |r| == |v| && forall i :: 0 <= i < |v| ==> r[i] == Lower(v[i])
  {
  }

  /** Two examples: `EN` gives `en`, and `zh-CN` gives `zh-cn`, not the table's `zh-CN`. */
  lemma CodesAreLowered()
    ensures LanguageCode(Some("EN")) == "en"
    ensures LanguageCode(Some("zh-CN")) == "zh-cn"
  {
    assert CodeShaped("zh-CN") by {
      assert "zh-CN"[2] == '-';
    }
    assert LowerStr("EN") == "en" by {
      assert LowerStr("EN")[0] == 'e' && LowerStr("EN")[1] == 'n';
    }
    assert LowerStr("zh-CN") == "zh-cn" by {
      var l := LowerStr("zh-CN");
      assert l[0] == 'z' && l[1] == 'h' && l[2] == '-' && l[3] == 'c' && l[4] == 'n';
    }
  }

  /** The table's keys are distinct, and none is code-shaped. */
  lemma LanguageTableShape()
    ensures DistinctKeys(LanguageCodes)
    ensures forall i :: 0 <= i < |LanguageCodes| ==> |LanguageCodes[i].0| >= 4
    ensures forall i :: 0 <= i < |LanguageCodes| && |LanguageCodes[i].0| == 5 ==> LanguageCodes[i].0 == "hindi"
  {
  }

  /** Any casing of a listed name gives that name's code; `Chinese` gives `zh-CN`. */
  lemma KnownNameGivesCode(v: string, i: nat)
    requires i < |LanguageCodes| && LowerStr(v) == LanguageCodes[i].0
    ensures LanguageCode(Some(v)) == LanguageCodes[i].1
  {
    LanguageTableShape();
    assert |v| == |LanguageCodes[i].0|;
    if |v| == 5 {
      forall k | 0 <= k < 5
        ensures v[k] != '-'
      {
        assert Lower(v[k]) == "hindi"[k];
      }
    }
    assert !CodeShaped(v);
    LookupEntry(LanguageCodes, i);
  }

  /** `Chinese`, in any casing, is looked up rather than lower-cased. */
  lemma ChineseByName(v: string)
    requires LowerStr(v) == "chinese"
    ensures LanguageCode(Some(v)) == "zh-CN"
  {
    KnownNameGivesCode(v, 5);
  }

  /** `https://translate.google.com/?sl={source}&tl={target}&op=translate`. */
  function TranslateUrl(source: string, target: string): string {
    "https://translate.google.com/?sl=" + source + "&tl=" + target + "&op=translate"
  }

  /** Text read back from the page is taken as the translation only if it is non-empty and not the input. */
  predicate Acceptable(retrieved: string, text: string) {
    retrieved != "" && retrieved != text
  }

  /** `translate_with_google`'s result: the retrieved text when acceptable, otherwise it raises (`None`). */
  function Translation(text: string, retrieved: Option<string>): (r: Option<string>)
    ensures r.Some? ==> r == retrieved && r.value != "" && r.value != text
    ensures r.Some? <==> retrieved.Some? && Acceptable(retrieved.value, text)
  {
    if retrieved.Some? && Acceptable(retrieved.value, text) then retrieved else None
  }

  /** The default output: `{stem}_autotranslated.txt` beside the input. */
  function AutoTranslatedPath(input: Path, output: Option<Path>): Path {
    if output.Some? then output.value else Sibling(input, Stem(input) + "_autotranslated.txt")
  }

  /** The default output never overwrites the input. */
  lemma AutoTranslatedPathDiffers(input: Path)
    ensures AutoTranslatedPath(input, None) != input
    ensures AutoTranslatedPath(input, None).dir == input.dir
  {
    StemSuffixSplit(input);
  }

  /** The browser session: (text, source code, target code) to the text read back, or `None` when it raised. */
  type Browser = (string, string, string) -> Option<string>

  /**
   * `process_file`: exits with status 1 when the input is missing, empty after stripping, or the
   * translation fails; otherwise writes the translation and returns normally.
   */
  method ProcessFile(fs: FileSystem, input: Path, target: Option<string>, source: Option<string>,
                     output: Option<Path>, browser: Browser)
    returns (exited: bool, fs': FileSystem)
    ensures input !in fs || Strip(fs[input]) == "" ==> exited && fs' == fs
    ensures input in fs && Strip(fs[input]) != "" ==>
      var text := Strip(fs[input]);
      var result := Translation(text, browser(text, LanguageCode(source), LanguageCode(target)));
      (exited <==> result.None?)
      && fs' == if result.None? then fs else fs[AutoTranslatedPath(input, output) := result.value]
    ensures !exited ==> AutoTranslatedPath(input, output) in fs' && fs'[AutoTranslatedPath(input, output)] != ""
  {
    if input !in fs {
      return true, fs;
    }
    var text := Strip(fs[input]);
    if text == "" {
      return true, fs;
    }
    var sourceCode := LanguageCode(source);
    var targetCode := LanguageCode(target);
    var translated := Translation(text, browser(text, sourceCode, targetCode));
    if translated.None? {
      return true, fs;
    }
    var out := AutoTranslatedPath(input, output);
    fs' := fs[out := translated.value];
    exited := false;
  }

  lemma LowerAuto()
    ensures LowerStr("auto") == "auto"
  {
    var l := LowerStr("auto");
    assert l[0] == 'a' && l[1] == 'u' && l[2] == 't' && l[3] == 'o';
  }

  lemma LowerEn()
    ensures LowerStr("en") == "en"
  {
    var l := LowerStr("en");
    assert l[0] == 'e' && l[1] == 'n';
  }

  lemma AutoNotListed()
    ensures Lookup(LanguageCodes, "auto") == None
  {
    forall i | 0 <= i < |LanguageCodes|
      ensures LanguageCodes[i].0 != "auto"
    {
      if i == 8 {
        assert LanguageCodes[i].0[0] != "auto"[0];
      }
    }
    KeyAbsent(LanguageCodes, "auto");
    LookupHasKey(LanguageCodes, "auto");
  }

  /** The command line's default source `auto` stays `auto`, and the target `en` stays `en`. */
  lemma DefaultLanguages()
    ensures LanguageCode(Some("auto")) == "auto"
    ensures LanguageCode(Some("en")) == "en"
    ensures TranslateUrl(LanguageCode(Some("auto")), LanguageCode(Some("en"))) == TranslateUrl("auto", "en")
  {
    LowerAuto();
    AutoNotListed();
    LowerEn();
  }

  /** A key no entry carries is not among the keys. */
  lemma {:induction false} KeyAbsent(m: seq<(string, string)>, k: string)
    requires forall i :: 0 <= i < |m| ==> m[i].0 != k
    ensures k !in Keys(m)
    decreases |m|
  {
    if m != [] {
      KeyAbsent(m[1..], k);
    }
  }
}
