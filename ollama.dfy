/**
 * The Ollama helpers of `summarize_with_ollama.py` and `translate_with_ollama.py` (and their
 * identical copies under `src/`): the model-name rule of `check_model_available`, the prompts
 * `summarize_text` and `translate_text` build, the stripping of the reply, and the output files
 * of the two `process_file` functions.  The Ollama service is a value: whether it answers, the
 * names it lists, and a generator from (model, prompt) to the raw reply, `None` when the call raised.
 */
module Ollama {
  import opened Wrappers
  import opened Chars
  import opened Strings
  import opened Paths
  import opened Substitution
  import opened ConfidentialTerms
  import opened Restorer
  import opened RoundTrip

  /** What the local Ollama service offers during a run. */
  datatype Service = Service(up: bool, models: seq<string>)

  /** `ollama.generate(model=..., prompt=...)['response']`, or `None` when the call raised. */
  type Generator = (string, string) -> Option<string>

  /** Python truthiness of an optional string: present and non-empty. */
  predicate Given(s: Option<string>) {
    s.Some? && s.value != ""
  }

  /** Python truthiness of an optional integer: present and non-zero. */
  predicate LimitGiven(n: Option<int>) {
    n.Some? && n.value != 0
  }

  // ---------------------------------------------------------------------------------------
  // check_model_available

  /** The test applied to each listed name: `model_name in available or available.startswith(model_name)`. */
  predicate NameMatches(available: string, name: string) {
    Contains(available, name) || StartsWith(available, name)
  }

  /** Some listed model passes the test. */
  predicate Listed(models: seq<string>, name: string) {
    exists i | 0 <= i < |models| :: NameMatches(models[i], name)
  }

  /** `check_model_available`: `False` when listing raises, else the first listed name that matches. */
  method CheckModelAvailable(service: Service, name: string) returns (found: bool)
    ensures found == (service.up && Listed(service.models, name))
  {
    if !service.up {
      return false;
    }
    var models := service.models;
    for i := 0 to |models|
      invariant forall j :: 0 <= j < i ==> !NameMatches(models[j], name)
    {
      if Contains(models[i], name) || StartsWith(models[i], name) {
        return true;
      }
    }
    found := false;
  }

  /** The `startswith` test adds nothing: a model is listed iff some listed name contains the requested one. */
  lemma {:induction false} ListedIsSubstring(models: seq<string>, name: string)
    ensures Listed(models, name) <==> exists i | 0 <= i < |models| :: Contains(models[i], name)
  {
    forall i | 0 <= i < |models| && StartsWith(models[i], name)
      ensures Contains(models[i], name)
    {
      StartsWithContains(models[i], name);
    }
  }

  /** A tagged name such as `llama3.2:latest` satisfies a request for `llama3.2`. */
  lemma {:induction false} TaggedModelFound(name: string, tag: string)
    ensures Listed([name + tag], name)
  {
    var s := name + tag;
    assert s[..|name|] == name;
    assert NameMatches([s][0], name);
  }

  // ---------------------------------------------------------------------------------------
  // Placeholder substitution (`str.replace`)

  /** An exact match of `p` at `k` is an occurrence of `p` at `k`. */
  lemma {:induction false} ExactMatchOccurs(s: string, k: int, p: string)
    requires MatchAt(s, k, p, Exact)
    ensures OccursAt(s, k, p)
  {
    assert s[k..k + |p|] == p by {
      forall j | 0 <= j < |p|
        ensures s[k..k + |p|][j] == p[j]
      {
        assert Same(s[k + j], p[j], false);
      }
    }
  }

  /** Replacing a pattern the text does not contain changes nothing. */
  lemma {:induction false} ReplaceAbsent(s: string, t: string, r: string)
    requires |t| > 0 && !Contains(s, t)
    ensures Replace(s, t, r) == s
  {
    forall k | 0 <= k <= |s|
      ensures !MatchAt(s, k, t, Exact)
    {
      if MatchAt(s, k, t, Exact) {
        ExactMatchOccurs(s, k, t);
        assert false;
      }
    }
    SubNoMatch(s, t, r, Exact);
  }

  /** A text that is the pattern itself becomes the replacement. */
  lemma {:induction false} ReplaceWhole(t: string, r: string)
    requires |t| > 0
    ensures Replace(t, t, r) == r
  {
    assert MatchAt(t, 0, t, Exact) by {
      forall j | 0 <= j < |t|
        ensures Same(t[0 + j], t[j], false)
      {
      }
    }
    SubWholeMatch(t, t, r, Exact);
  }

  /** An exact match is an occurrence. */
  lemma ExactMatchIff(s: string, k: int, p: string)
    ensures MatchAt(s, k, p, Exact) <==> OccursAt(s, k, p)
  {
    if MatchAt(s, k, p, Exact) {
      ExactMatchOccurs(s, k, p);
    }
    if OccursAt(s, k, p) {
      forall j | 0 <= j < |p|
        ensures Same(s[k + j], p[j], false)
      {
        assert s[k + j] == s[k..k + |p|][j];
      }
    }
  }

  /** `sep.join(parts)`. */
  function Joined(parts: seq<string>, sep: string): string
    decreases |parts|
  {
    if |parts| == 0 then "" else if |parts| == 1 then parts[0] else parts[0] + sep + Joined(parts[1..], sep)
  }

  /**
   * The fragments of a template around its placeholders `t`: none contains `t`, and none ends in
   * the start of an occurrence of `t` that the placeholder after it would complete.
   */
  predicate Fragments(parts: seq<string>, t: string)
    requires |t| > 0
  {
    |parts| > 0
    && (forall i :: 0 <= i < |parts| - 1 ==> !Contains(parts[i] + t[..|t| - 1], t))
    && !Contains(parts[|parts| - 1], t)
  }

  /** The fragments with the separator between each two: the pieces `sep.join` puts together. */
  function Interleaved(parts: seq<string>, sep: string): (ps: seq<string>)
    ensures |parts| > 0 ==> |ps| == 2 * |parts| - 1
    decreases |parts|
  {
    if |parts| <= 1 then parts else [parts[0], sep] + Interleaved(parts[1..], sep)
  }

  /** Fragment `q` stands at position `2 * q`, a separator after it; together they make `sep.join(parts)`. */
  lemma {:induction false} InterleavedSpec(parts: seq<string>, sep: string)
    requires |parts| > 0
    ensures forall q :: 0 <= q < |parts| ==> Interleaved(parts, sep)[2 * q] == parts[q]
    ensures forall q :: 0 <= q < |parts| - 1 ==> Interleaved(parts, sep)[2 * q + 1] == sep
    ensures Flat(Interleaved(parts, sep)) == Joined(parts, sep)
    decreases |parts|
  {
    if |parts| > 1 {
      var rest := Interleaved(parts[1..], sep);
      InterleavedSpec(parts[1..], sep);
      var ps := [parts[0], sep] + rest;
      forall q | 1 <= q < |parts|
        ensures ps[2 * q] == parts[q]
      {
        assert ps[2 * q] == rest[2 * (q - 1)];
        assert parts[1..][q - 1] == parts[q];
      }
      forall q | 1 <= q < |parts| - 1
        ensures ps[2 * q + 1] == sep
      {
        assert ps[2 * q + 1] == rest[2 * (q - 1) + 1];
      }
      assert Flat(ps) == parts[0] + (sep + Flat(rest)) by {
        assert ps[1..] == [sep] + rest;
        assert ([sep] + rest)[1..] == rest;
      }
    }
  }

  /** A slice of a slice is a slice. */
  lemma SliceOfSlice(s: string, a: nat, b: nat, c: nat, d: nat)
    requires a <= b <= |s| && c <= d <= b - a
    ensures s[a..b][c..d] == s[a + c..a + d]
  {
    forall q | 0 <= q < d - c
      ensures s[a..b][c..d][q] == s[a + c..a + d][q]
    {
      assert s[a..b][c + q] == s[a + c + q];
    }
  }

  /** A window of the text that is a string free of `t` holds no occurrence of `t`. */
  lemma NoOccurrenceInWindow(s: string, o: nat, z: string, t: string)
    requires o + |z| <= |s| && s[o..o + |z|] == z && !Contains(z, t)
    ensures forall k :: o <= k && k + |t| <= o + |z| ==> !OccursAt(s, k, t)
  {
    forall k | o <= k && k + |t| <= o + |z|
      ensures !OccursAt(s, k, t)
    {
      assert !OccursAt(z, k - o, t);
      SliceOfSlice(s, o, o + |z|, k - o, k - o + |t|);
    }
  }

  /** The pass over `sep.join(parts)` replaces each separator, piece `2 * q + 1`. */
  lemma SeparatorMatched(parts: seq<string>, t: string, r: string, q: nat)
    requires |t| > 0 && |parts| > 0 && q < |parts| - 1
    ensures var ts := Interleaved(parts, t);
      PieceStep(Flat(ts), Off(ts, 2 * q + 1), ts[2 * q + 1], Interleaved(parts, r)[2 * q + 1], t, r, Exact)
  {
    var ts := Interleaved(parts, t);
    InterleavedSpec(parts, t);
    InterleavedSpec(parts, r);
    PieceSlice(ts, 2 * q + 1);
    ExactMatchIff(Flat(ts), Off(ts, 2 * q + 1), t);
  }

  /** No occurrence of the separator starts inside a fragment, piece `2 * q`, which the pass keeps. */
  lemma FragmentUnmatched(parts: seq<string>, t: string, r: string, q: nat)
    requires |t| > 0 && Fragments(parts, t) && q < |parts|
    ensures var ts := Interleaved(parts, t);
      PieceStep(Flat(ts), Off(ts, 2 * q), ts[2 * q], Interleaved(parts, r)[2 * q], t, r, Exact)
  {
    var ts := Interleaved(parts, t);
    var s := Flat(ts);
    var o := Off(ts, 2 * q);
    var x := parts[q];
    assert ts[2 * q] == x && Interleaved(parts, r)[2 * q] == x by {
      InterleavedSpec(parts, t);
      InterleavedSpec(parts, r);
    }
    FragmentLayout(parts, t, q);
    FragmentWindow(s, o, x, t, q < |parts| - 1);
    forall k | o <= k < o + |x|
      ensures !MatchAt(s, k, t, Exact)
    {
      ExactMatchIff(s, k, t);
    }
  }

  /** Where fragment `q` stands in `sep.join(parts)`, and what follows it: the separator, or the end. */
  lemma FragmentLayout(parts: seq<string>, t: string, q: nat)
    requires |parts| > 0 && q < |parts|
    ensures var ts := Interleaved(parts, t);
      var s, o, x := Flat(ts), Off(ts, 2 * q), parts[q];
      o + |x| <= |s| && s[o..o + |x|] == x
      && (q < |parts| - 1 ==> o + |x| + |t| <= |s| && s[o + |x|..o + |x| + |t|] == t)
      && (q == |parts| - 1 ==> o + |x| == |s|)
  {
    var ts := Interleaved(parts, t);
    var m := 2 * q;
    assert ts[m] == parts[q] && (q < |parts| - 1 ==> ts[m + 1] == t) by {
      InterleavedSpec(parts, t);
    }
    PieceSlice(ts, m);
    OffNext(ts, m);
    if q < |parts| - 1 {
      PieceSlice(ts, m + 1);
    } else {
      OffEnds(ts);
    }
  }

  /**
   * No occurrence of `t` starts inside the stretch `x` of `s`, when `x` is followed by `t` and
   * does not form `t` with its start, or when `x` runs to the end and does not contain `t`.
   */
  lemma FragmentWindow(s: string, o: nat, x: string, t: string, follow: bool)
    requires |t| > 0 && o + |x| <= |s| && s[o..o + |x|] == x
    requires follow ==> o + |x| + |t| <= |s| && s[o + |x|..o + |x| + |t|] == t && !Contains(x + t[..|t| - 1], t)
    requires !follow ==> o + |x| == |s| && !Contains(x, t)
    ensures forall k :: o <= k < o + |x| ==> !OccursAt(s, k, t)
  {
    if follow {
      var z := x + t[..|t| - 1];
      assert s[o..o + |z|] == z by {
        assert s[o..o + |z|] == s[o..o + |x|] + s[o + |x|..o + |x| + |t|][..|t| - 1];
      }
      NoOccurrenceInWindow(s, o, z, t);
    } else {
      NoOccurrenceInWindow(s, o, x, t);
    }
  }

  /** Replacing the placeholder of a template made of fragments replaces exactly the placeholders. */
  lemma ReplaceJoined(parts: seq<string>, t: string, r: string)
    requires |t| > 0 && Fragments(parts, t)
    ensures Replace(Joined(parts, t), t, r) == Joined(parts, r)
  {
    var ts := Interleaved(parts, t);
    var us := Interleaved(parts, r);
    forall m | 0 <= m < |ts|
      ensures PieceStep(Flat(ts), Off(ts, m), ts[m], us[m], t, r, Exact)
    {
      var q := Half(m);
      if m == 2 * q {
        FragmentUnmatched(parts, t, r, q);
      } else {
        SeparatorMatched(parts, t, r, q);
      }
    }
    Pass(ts, us, t, r, Exact);
    assert Flat(ts) == Joined(parts, t) && Flat(us) == Joined(parts, r) by {
      InterleavedSpec(parts, t);
      InterleavedSpec(parts, r);
    }
  }

  /** Even and odd positions. */
  lemma Half(m: nat) returns (q: nat)
    ensures m == 2 * q || m == 2 * q + 1
  {
    q := m / 2;
  }

  /** Replacing a single character by another, one position at a time. */
  lemma {:induction false} ReplaceCharFrom(s: string, i: nat, c: char, d: char)
    requires i <= |s|
    ensures |SubFrom(s, i, [c], [d], Exact)| == |s| - i
    ensures forall k :: 0 <= k < |s| - i ==>
      SubFrom(s, i, [c], [d], Exact)[k] == if s[i + k] == c then d else s[i + k]
    decreases |s| - i
  {
    if i < |s| {
      ReplaceCharFrom(s, i + 1, c, d);
      assert MatchAt(s, i, [c], Exact) <==> s[i] == c by {
        assert [c][0] == c;
      }
    }
  }

  // ---------------------------------------------------------------------------------------
  // summarize_text

  /** A string is framed by its first and last parts. */
  lemma {:induction false} Framed(x: string, y: string, z: string)
    ensures StartsWith(x + y + z, x) && StartsWith(x + y + z, x + y) && EndsWith(x + y + z, z)
  {
    var s := x + y + z;
    assert s[..|x|] == x;
    assert s[..|x| + |y|] == x + y;
    assert s[|s| - |z|..] == z;
  }

  /** Regrouping a concatenation of four parts. */
  lemma {:induction false} Regroup(x: string, y: string, z: string, w: string)
    ensures x + (y + z) + w == x + y + (z + w)
    ensures x + y + (z + w) == x + (y + z + w)
  {
  }

  /** The first character of a concatenation with a non-empty front. */
  lemma {:induction false} FirstChar(x: string, w: string)
    requires x != []
    ensures x + w != [] && (x + w)[0] == x[0]
  {
  }

  /** The character after a prefix is the first character of what follows. */
  lemma {:induction false} CharAfter(x: string, w: string)
    requires w != []
    ensures |x + w| > |x| && (x + w)[|x|] == w[0]
  {
  }

  const SummaryHeader := "Please provide a concise summary of the following text.\nFocus on the main points and key information.\n"

  const LimitOpening := "Keep the summary under "

  /** The third line of the default prompt: the word limit, or nothing. */
  function LimitLine(maxLength: Option<int>): string {
    if LimitGiven(maxLength) then LimitOpening + IntToString(maxLength.value) + " words." else ""
  }

  /** The end of the default prompt, from the line before the text on. */
  function SummaryClosing(text: string): string {
    "\nText to summarize:\n" + text + "\n\nSummary:"
  }

  /** The f-string prompt used when no custom prompt is given. */
  function DefaultSummaryPrompt(text: string, maxLength: Option<int>): string {
    SummaryHeader + LimitLine(maxLength) + ("\n" + SummaryClosing(text))
  }

  /** The prompt `summarize_text` sends: the custom template with `{text}` filled in, or the default. */
  function SummaryPrompt(text: string, custom: Option<string>, maxLength: Option<int>): string {
    if Given(custom) then Replace(custom.value, "{text}", text) else DefaultSummaryPrompt(text, maxLength)
  }

  /** The default prompt opens with the fixed instructions and ends with the whole text and `Summary:`. */
  lemma {:induction false} DefaultSummaryPromptFrame(text: string, maxLength: Option<int>)
    ensures StartsWith(DefaultSummaryPrompt(text, maxLength), SummaryHeader)
    ensures EndsWith(DefaultSummaryPrompt(text, maxLength), SummaryClosing(text))
  {
    Framed(SummaryHeader, LimitLine(maxLength) + "\n", SummaryClosing(text));
    Regroup(SummaryHeader, LimitLine(maxLength), "\n", SummaryClosing(text));
  }

  /**
   * The third line of the default prompt is blank exactly when no non-zero word limit is given;
   * with a limit it reads `Keep the summary under N words.`.
   */
  lemma {:induction false} DefaultSummaryLimitLine(text: string, maxLength: Option<int>)
    ensures |DefaultSummaryPrompt(text, maxLength)| > |SummaryHeader|
    ensures (DefaultSummaryPrompt(text, maxLength)[|SummaryHeader|] == '\n') <==> !LimitGiven(maxLength)
    ensures LimitGiven(maxLength) ==>
      StartsWith(DefaultSummaryPrompt(text, maxLength),
                 SummaryHeader + (LimitOpening + IntToString(maxLength.value) + " words."))
  {
    var rest := LimitLine(maxLength) + ("\n" + SummaryClosing(text));
    Regroup(SummaryHeader, LimitLine(maxLength), "\n", SummaryClosing(text));
    CharAfter(SummaryHeader, rest);
    if LimitGiven(maxLength) {
      FirstChar(LimitOpening + IntToString(maxLength.value) + " words.", "\n" + SummaryClosing(text));
      FirstChar(LimitOpening, IntToString(maxLength.value));
      FirstChar(LimitOpening + IntToString(maxLength.value), " words.");
      Framed(SummaryHeader, LimitLine(maxLength), "\n" + SummaryClosing(text));
    } else {
      assert rest == "\n" + SummaryClosing(text);
    }
  }

  /**
   * A custom template made of fragments around its `{text}` placeholders becomes the same
   * fragments around the text: every `{text}` is replaced and nothing else changes.  An empty
   * template is Python-falsy and gives the default prompt.
   */
  lemma CustomSummaryPrompt(parts: seq<string>, text: string, maxLength: Option<int>)
    requires Fragments(parts, "{text}")
    ensures SummaryPrompt(text, Some(Joined(parts, "{text}")), maxLength)
            == if Joined(parts, "{text}") == "" then DefaultSummaryPrompt(text, maxLength) else Joined(parts, text)
  {
    ReplaceJoined(parts, "{text}", text);
  }

  /** A custom template without `{text}` is sent as it is; the text is then not part of the prompt. */
  lemma {:induction false} CustomSummaryWithoutPlaceholder(custom: string, text: string, maxLength: Option<int>)
    requires custom != "" && !Contains(custom, "{text}")
    ensures SummaryPrompt(text, Some(custom), maxLength) == custom
  {
    ReplaceAbsent(custom, "{text}", text);
  }

  /** A reply with its surrounding whitespace cut off; `None` when the call raised. */
  function Stripped(reply: Option<string>): (r: Option<string>)
    ensures r.Some? <==> reply.Some?
    ensures r.Some? ==> r.value == Strip(reply.value)
    ensures r.Some? && r.value != "" ==> !IsSpace(r.value[0]) && !IsSpace(r.value[|r.value| - 1])
    ensures r.Some? ==> Strip(r.value) == r.value
  {
    if reply.None? then None
    else
      StripIsMiddle(reply.value);
      StripIdempotent(reply.value);
      Some(Strip(reply.value))
  }

  /** `summarize_text`: the model's reply to the prompt built from the text, stripped. */
  function SummarizeText(text: string, model: string, custom: Option<string>, maxLength: Option<int>,
                         generate: Generator): Option<string>
  {
    Stripped(generate(model, SummaryPrompt(text, custom, maxLength)))
  }

  // ---------------------------------------------------------------------------------------
  // translate_text

  /** The placeholders of a custom translation template. */
  const TextSlot := "{text}"
  const TargetSlot := "{target_lang}"
  const SourceSlot := "{source_lang}"

  const TranslateOpening := "Translate the following text "

  const TranslationRules := "Maintain the original meaning and tone. Keep any abbreviations or codes (like AC, KT) unchanged.\n"

  /** The first line of the default prompt: the target language, and the source language when one is given. */
  function TranslationRequest(target: string, source: Option<string>): string {
    if Given(source) then TranslateOpening + "from " + source.value + " to " + target + "."
    else TranslateOpening + "to " + target + "."
  }

  /** The end of the default prompt, from the line before the text on. */
  function TranslationClosing(text: string, target: string): string {
    "\nText to translate:\n" + text + "\n\nTranslation in " + target + ":"
  }

  /** The f-string prompt used when no custom prompt is given, with or without a source language. */
  function DefaultTranslationPrompt(text: string, target: string, source: Option<string>): string {
    TranslationRequest(target, source) + ("\n" + TranslationRules) + TranslationClosing(text, target)
  }

  /**
   * The prompt `translate_text` sends.  A custom template has `{text}` filled in first, then
   * `{target_lang}`, then, only when a source language is given, `{source_lang}`.
   */
  function TranslationPrompt(text: string, target: string, custom: Option<string>, source: Option<string>): string {
    if Given(custom) then FilledTemplate(custom.value, text, target, source)
    else DefaultTranslationPrompt(text, target, source)
  }

  /** A custom template with `{text}`, `{target_lang}` and, when a source is given, `{source_lang}` replaced. */
  function FilledTemplate(template: string, text: string, target: string, source: Option<string>): string {
    var filled := Replace(Replace(template, TextSlot, text), TargetSlot, target);
    if Given(source) then Replace(filled, SourceSlot, source.value) else filled
  }

  /** The default prompt opens with the request line, which names the target, and ends with the whole text. */
  lemma {:induction false} DefaultTranslationPromptFrame(text: string, target: string, source: Option<string>)
    ensures StartsWith(DefaultTranslationPrompt(text, target, source), TranslationRequest(target, source) + "\n")
    ensures EndsWith(DefaultTranslationPrompt(text, target, source), TranslationClosing(text, target))
  {
    var req := TranslationRequest(target, source);
    Framed(req, "\n" + TranslationRules, TranslationClosing(text, target));
    Framed(req, "\n", TranslationRules + TranslationClosing(text, target));
    Regroup(req, "\n", TranslationRules, TranslationClosing(text, target));
  }

  /** The request line names a source language exactly when one is given. */
  lemma {:induction false} TranslationRequestNamesSource(target: string, source: Option<string>)
    ensures StartsWith(TranslationRequest(target, source), TranslateOpening + "from ") <==> Given(source)
  {
    var r := TranslationRequest(target, source);
    if Given(source) {
      Framed(TranslateOpening + "from ", source.value + " to ", target + ".");
      assert r == TranslateOpening + "from " + (source.value + " to ") + (target + ".");
    } else {
      var w := "to " + target + ".";
      assert r == TranslateOpening + w;
      CharAfter(TranslateOpening, w);
      CharAfter(TranslateOpening, "from ");
      assert w[0] != "from "[0];
    }
  }

  /** Because `{text}` is filled first, a `{target_lang}` inside the text is replaced too. */
  lemma {:induction false} TargetPlaceholderInText(target: string)
    ensures TranslationPrompt("{target_lang}", target, Some("{text}"), None) == target
  {
    ReplaceWhole("{text}", "{target_lang}");
    ReplaceWhole("{target_lang}", target);
  }

  /** The three placeholders `translate_text` fills. */
  predicate IsSlot(s: string) {
    s == TextSlot || s == TargetSlot || s == SourceSlot
  }

  /** A piece of a template: one of the placeholders, or literal text without `{`. */
  predicate TemplateToken(s: string) {
    IsSlot(s) || '{' !in s
  }

  /** The pieces with every `slot` put in place by `value`. */
  function Fill(ts: seq<string>, slot: string, value: string): (r: seq<string>)
    ensures |r| == |ts|
  {
    if ts == [] then [] else [if ts[0] == slot then value else ts[0]] + Fill(ts[1..], slot, value)
  }

  /** `Fill` piece by piece. */
  lemma {:induction false} FillSpec(ts: seq<string>, slot: string, value: string)
    ensures |Fill(ts, slot, value)| == |ts|
    ensures forall i :: 0 <= i < |ts| ==> Fill(ts, slot, value)[i] == if ts[i] == slot then value else ts[i]
    decreases |ts|
  {
    if ts != [] {
      FillSpec(ts[1..], slot, value);
    }
  }

  /** The pieces after `translate_text` has filled them: the text, the target, then any given source. */
  function FilledTokens(ts: seq<string>, text: string, target: string, source: Option<string>): seq<string> {
    var filled := Fill(Fill(ts, TextSlot, text), TargetSlot, target);
    if Given(source) then Fill(filled, SourceSlot, source.value) else filled
  }

  /** Each placeholder has `{` only at its front, and none is a proper prefix of another. */
  lemma SlotShape(a: string, b: string)
    requires IsSlot(a) && IsSlot(b)
    ensures |a| > 0 && a[0] == '{' && forall i :: 0 < i < |a| ==> a[i] != '{'
    ensures |a| < |b| ==> b[..|a|] != a
  {
    if |a| < |b| {
      assert b[..|a|][2] != a[2];
    }
  }

  /** No occurrence of a placeholder starts inside a piece of the text other than that placeholder. */
  lemma NoSlotInPiece(s: string, o: nat, x: string, slot: string, k: nat)
    requires o + |x| <= |s| && s[o..o + |x|] == x && o <= k < o + |x|
    requires TemplateToken(x) && IsSlot(slot) && x != slot
    ensures !MatchAt(s, k, slot, Exact)
  {
    ExactMatchIff(s, k, slot);
    SlotShape(slot, slot);
    if k + |slot| <= |s| {
      var w := s[k..k + |slot|];
      assert w[0] == x[k - o] by {
        assert s[k] == s[o..o + |x|][k - o];
      }
      if '{' !in x {
        assert w[0] != slot[0];
      } else {
        SlotShape(x, slot);
        SlotShape(slot, x);
        if k > o {
          assert w[0] != slot[0];
        } else if |x| < |slot| {
          SliceOfSlice(s, k, k + |slot|, 0, |x|);
          assert w[..|x|] == x;
        } else if |x| == |slot| {
          assert w == x;
        } else {
          SliceOfSlice(s, o, o + |x|, 0, |slot|);
          assert x[..|slot|] == w;
        }
      }
    }
  }

  /** The pass for one placeholder over a template made of pieces replaces that placeholder's pieces only. */
  lemma TokenPieceStep(ts: seq<string>, slot: string, value: string, m: nat)
    requires IsSlot(slot) && m < |ts| && TemplateToken(ts[m])
    ensures PieceStep(Flat(ts), Off(ts, m), ts[m], if ts[m] == slot then value else ts[m], slot, value, Exact)
  {
    var s, o, x := Flat(ts), Off(ts, m), ts[m];
    PieceSlice(ts, m);
    if x == slot {
      ExactMatchIff(s, o, slot);
    } else {
      forall k | o <= k < o + |x|
        ensures !MatchAt(s, k, slot, Exact)
      {
        NoSlotInPiece(s, o, x, slot, k);
      }
    }
  }

  /** Replacing a placeholder in a template made of pieces puts the value in place of each such piece. */
  lemma ReplaceFlat(ts: seq<string>, slot: string, value: string)
    requires IsSlot(slot) && forall i :: 0 <= i < |ts| ==> TemplateToken(ts[i])
    ensures Replace(Flat(ts), slot, value) == Flat(Fill(ts, slot, value))
  {
    var us := Fill(ts, slot, value);
    FillSpec(ts, slot, value);
    SlotShape(slot, slot);
    forall m | 0 <= m < |ts|
      ensures PieceStep(Flat(ts), Off(ts, m), ts[m], us[m], slot, value, Exact)
    {
      TokenPieceStep(ts, slot, value, m);
    }
    Pass(ts, us, slot, value, Exact);
  }

  /** Putting a value without `{` in place of a placeholder leaves pieces of a template. */
  lemma FillKeepsTokens(ts: seq<string>, slot: string, value: string)
    requires forall i :: 0 <= i < |ts| ==> TemplateToken(ts[i])
    requires '{' !in value
    ensures forall i :: 0 <= i < |ts| ==> TemplateToken(Fill(ts, slot, value)[i])
  {
    var f := Fill(ts, slot, value);
    FillSpec(ts, slot, value);
    forall i | 0 <= i < |ts|
      ensures TemplateToken(f[i])
    {
      if ts[i] == slot {
        assert f[i] == value;
      } else {
        assert f[i] == ts[i];
      }
    }
  }

  /** A template written out from pieces without `{` has no `{`. */
  lemma {:induction false} BraceFreeFlat(ts: seq<string>)
    requires forall i :: 0 <= i < |ts| ==> '{' !in ts[i]
    ensures '{' !in Flat(ts)
    decreases |ts|
  {
    if ts != [] {
      assert forall i :: 0 <= i < |ts[1..]| ==> ts[1..][i] == ts[i + 1];
      BraceFreeFlat(ts[1..]);
    }
  }

  /** A piece of a template occurs in it. */
  lemma {:induction false} TokenInFlat(ts: seq<string>, x: string)
    requires x in ts
    ensures Contains(Flat(ts), x)
    decreases |ts|
  {
    var y := Flat(ts[1..]);
    if ts[0] == x {
      assert OccursAt(Flat(ts), 0, x) by {
        assert Flat(ts)[0..|x|] == x;
      }
    } else {
      assert x in ts[1..];
      TokenInFlat(ts[1..], x);
      var k :| 0 <= k <= |y| && OccursAt(y, k, x);
      assert OccursAt(ts[0] + y, |ts[0]| + k, x) by {
        assert (ts[0] + y)[|ts[0]| + k..|ts[0]| + k + |x|] == y[k..k + |x|];
      }
    }
  }

  /**
   * A custom translation template made of pieces (literal text without `{`, and the placeholders)
   * becomes the same pieces with `{text}`, `{target_lang}` and, when a source language is given,
   * `{source_lang}` put in place, provided none of the values holds a `{`.  An empty template is
   * Python-falsy and gives the default prompt.
   */
  lemma CustomTranslationPrompt(ts: seq<string>, text: string, target: string, source: Option<string>)
    requires forall i :: 0 <= i < |ts| ==> TemplateToken(ts[i])
    requires '{' !in text && '{' !in target && (Given(source) ==> '{' !in source.value)
    ensures TranslationPrompt(text, target, Some(Flat(ts)), source)
            == if Flat(ts) == "" then DefaultTranslationPrompt(text, target, source)
               else Flat(FilledTokens(ts, text, target, source))
  {
    FilledFlat(ts, text, target, source);
  }

  /** The three replacements done on a template made of pieces, each one piece by piece. */
  lemma FilledFlat(ts: seq<string>, text: string, target: string, source: Option<string>)
    requires forall i :: 0 <= i < |ts| ==> TemplateToken(ts[i])
    requires '{' !in text && '{' !in target
    ensures FilledTemplate(Flat(ts), text, target, source) == Flat(FilledTokens(ts, text, target, source))
  {
    var t1 := Fill(ts, TextSlot, text);
    var t2 := Fill(t1, TargetSlot, target);
    ReplaceFlat(ts, TextSlot, text);
    FillKeepsTokens(ts, TextSlot, text);
    ReplaceFlat(t1, TargetSlot, target);
    if Given(source) {
      FillKeepsTokens(t1, TargetSlot, target);
      ReplaceFlat(t2, SourceSlot, source.value);
    }
  }

  /**
   * In a template that holds `{source_lang}`, along with any of the other two placeholders, the
   * source placeholder is filled in when a source language is given, and then no `{` is left at
   * all; without one it stays in the prompt as it is.
   */
  lemma SourcePlaceholderOnlyWithSource(ts: seq<string>, text: string, target: string, source: Option<string>)
    requires forall i :: 0 <= i < |ts| ==> TemplateToken(ts[i])
    requires SourceSlot in ts
    requires '{' !in text && '{' !in target && (Given(source) ==> '{' !in source.value)
    ensures var prompt := TranslationPrompt(text, target, Some(Flat(ts)), source);
      (Given(source) ==> '{' !in prompt && !Contains(prompt, SourceSlot))
      && (!Given(source) ==> Contains(prompt, SourceSlot))
  {
    TokenInFlat(ts, SourceSlot);
    assert Flat(ts) != "";
    FilledFlat(ts, text, target, source);
    FilledSourceSlot(ts, text, target, source);
  }

  /** The filled pieces hold no `{` when a source is given, and still hold `{source_lang}` otherwise. */
  lemma FilledSourceSlot(ts: seq<string>, text: string, target: string, source: Option<string>)
    requires forall i :: 0 <= i < |ts| ==> TemplateToken(ts[i])
    requires SourceSlot in ts
    requires '{' !in text && '{' !in target && (Given(source) ==> '{' !in source.value)
    ensures var prompt := Flat(FilledTokens(ts, text, target, source));
      (Given(source) ==> '{' !in prompt && !Contains(prompt, SourceSlot))
      && (!Given(source) ==> Contains(prompt, SourceSlot))
  {
    var f := FilledTokens(ts, text, target, source);
    var prompt := Flat(f);
    if Given(source) {
      FilledBraceFree(ts, text, target, source);
      BraceFreeFlat(f);
      forall k | 0 <= k <= |prompt|
        ensures !OccursAt(prompt, k, SourceSlot)
      {
        if k + |SourceSlot| <= |prompt| {
          assert prompt[k..k + |SourceSlot|][0] == prompt[k];
        }
      }
    } else {
      var i :| 0 <= i < |ts| && ts[i] == SourceSlot;
      var t1 := Fill(ts, TextSlot, text);
      FillSpec(ts, TextSlot, text);
      FillSpec(t1, TargetSlot, target);
      assert f[i] == SourceSlot;
      TokenInFlat(f, SourceSlot);
    }
  }

  /** With all three placeholders filled by values without `{`, no piece holds a `{`. */
  lemma FilledBraceFree(ts: seq<string>, text: string, target: string, source: Option<string>)
    requires forall i :: 0 <= i < |ts| ==> TemplateToken(ts[i])
    requires '{' !in text && '{' !in target && Given(source) && '{' !in source.value
    ensures var f := FilledTokens(ts, text, target, source);
      forall i :: 0 <= i < |f| ==> '{' !in f[i]
  {
    var t1 := Fill(ts, TextSlot, text);
    var t2 := Fill(t1, TargetSlot, target);
    var f := Fill(t2, SourceSlot, source.value);
    FillSpec(ts, TextSlot, text);
    FillSpec(t1, TargetSlot, target);
    FillSpec(t2, SourceSlot, source.value);
    forall i | 0 <= i < |f|
      ensures '{' !in f[i]
    {
      assert TextSlot[0] == '{' && TargetSlot[0] == '{' && SourceSlot[0] == '{';
      if ts[i] == TextSlot {
        assert t1[i] == text && t2[i] == text && f[i] == text;
      } else if ts[i] == TargetSlot {
        assert t1[i] == TargetSlot && t2[i] == target && f[i] == target;
      } else if ts[i] == SourceSlot {
        assert t1[i] == SourceSlot && t2[i] == SourceSlot && f[i] == source.value;
      } else {
        assert '{' !in ts[i];
        assert t1[i] == ts[i] && t2[i] == ts[i] && f[i] == ts[i];
      }
    }
  }

  /** `translate_text`: the model's reply to the prompt built from the text, stripped. */
  function TranslateText(text: string, target: string, model: string, custom: Option<string>,
                         source: Option<string>, generate: Generator): Option<string>
  {
    Stripped(generate(model, TranslationPrompt(text, target, custom, source)))
  }

  // ---------------------------------------------------------------------------------------
  // process_file (both scripts)

  /** The stem with one trailing `_sanitized` (ten characters) removed, if it has one. */
  function OutputBase(stem: string): (r: string)
    ensures EndsWith(stem, "_sanitized") ==> r + "_sanitized" == stem
    ensures !EndsWith(stem, "_sanitized") ==> r == stem
  {
    if EndsWith(stem, "_sanitized") then stem[..|stem| - 10] else stem
  }

  /** Only one `_sanitized` goes, where the restorer's file naming removes every one. */
  lemma {:induction false} OutputBaseStripsOnce(base: string)
    ensures OutputBase(base + "_sanitized") == base
    ensures OutputBase("a_sanitized_sanitized") == "a_sanitized"
  {
    var s := base + "_sanitized";
    assert s[|s| - 10..] == "_sanitized";
    var d := "a_sanitized_sanitized";
    assert d[|d| - 10..] == "_sanitized";
  }

  function SummarySanitizedPath(input: Path): Path {
    Sibling(input, OutputBase(Stem(input)) + "_summary_sanitized.txt")
  }

  function SummaryRestoredPath(input: Path): Path {
    Sibling(input, OutputBase(Stem(input)) + "_summary_restored.txt")
  }

  /** `target_language.lower().replace(' ', '_')`. */
  function SafeLang(target: string): string {
    Replace(LowerStr(target), " ", "_")
  }

  /** The language part of a file name: lower-cased, each space an underscore, nothing else changed. */
  lemma {:induction false} SafeLangSpec(target: string)
    ensures |SafeLang(target)| == |target|
    ensures forall k :: 0 <= k < |target| ==>
      SafeLang(target)[k] == if Lower(target[k]) == ' ' then '_' else Lower(target[k])
    ensures forall k :: 0 <= k < |target| ==> SafeLang(target)[k] != ' '
  {
    ReplaceCharFrom(LowerStr(target), 0, ' ', '_');
    assert " " == [' '] && "_" == ['_'];
  }

  function TranslationSanitizedPath(input: Path, target: string): Path {
    Sibling(input, OutputBase(Stem(input)) + "_translation_" + SafeLang(target) + "_sanitized.txt")
  }

  function TranslationRestoredPath(input: Path, target: string): Path {
    Sibling(input, OutputBase(Stem(input)) + "_translation_" + SafeLang(target) + "_restored.txt")
  }

  /** The four output files sit beside the input and never coincide. */
  lemma {:induction false} OutputPathsDistinct(input: Path, target: string)
    ensures SummarySanitizedPath(input).dir == input.dir && TranslationRestoredPath(input, target).dir == input.dir
    ensures SummarySanitizedPath(input) != SummaryRestoredPath(input)
    ensures TranslationSanitizedPath(input, target) != TranslationRestoredPath(input, target)
    ensures SummarySanitizedPath(input) != TranslationSanitizedPath(input, target)
    ensures SummarySanitizedPath(input) != TranslationRestoredPath(input, target)
    ensures SummaryRestoredPath(input) != TranslationSanitizedPath(input, target)
    ensures SummaryRestoredPath(input) != TranslationRestoredPath(input, target)
  {
    var b := OutputBase(Stem(input));
    var n := |b| + 1;
    assert SummarySanitizedPath(input).name[n] == 's';
    assert SummaryRestoredPath(input).name[n] == 's';
    assert TranslationSanitizedPath(input, target).name[n] == 't';
    assert TranslationRestoredPath(input, target).name[n] == 't';
    assert |SummarySanitizedPath(input).name| == |SummaryRestoredPath(input).name| + 1;
    assert |TranslationSanitizedPath(input, target).name| == |TranslationRestoredPath(input, target).name| + 1;
  }

  /**
   * `process_file` of `summarize_with_ollama.py`: `(None, None)` and no file when the input is
   * missing or the summary fails; otherwise the summary beside the input, and the restored
   * summary too unless the summary is kept sanitized.
   */
  method SummarizeFile(fs: FileSystem, input: Path, model: string, custom: Option<string>, maxLength: Option<int>,
                       keepSanitized: bool, generate: Generator, terms: TermMap)
    returns (sanitized: Option<Path>, restored: Option<Path>, fs': FileSystem)
    ensures input !in fs ==> sanitized.None? && restored.None? && fs' == fs
    ensures input in fs && SummarizeText(fs[input], model, custom, maxLength, generate).None? ==>
      sanitized.None? && restored.None? && fs' == fs
    ensures restored.Some? ==> sanitized.Some?
    ensures input in fs && SummarizeText(fs[input], model, custom, maxLength, generate).Some? ==>
      var summary := SummarizeText(fs[input], model, custom, maxLength, generate).value;
      sanitized == Some(SummarySanitizedPath(input))
      && (restored.Some? <==> !keepSanitized)
      && (restored.Some? ==> restored.value == SummaryRestoredPath(input))
      && fs' == if keepSanitized then fs[SummarySanitizedPath(input) := summary]
                else fs[SummarySanitizedPath(input) := summary][SummaryRestoredPath(input) := Restored(summary, terms)]
  {
    if input !in fs {
      return None, None, fs;
    }
    var text := fs[input];
    var summary := SummarizeText(text, model, custom, maxLength, generate);
    if summary.None? {
      return None, None, fs;
    }
    var base := Stem(input);
    if EndsWith(base, "_sanitized") {
      base := base[..|base| - 10];
    }
    var out := Sibling(input, base + "_summary_sanitized.txt");
    fs' := fs[out := summary.value];
    restored := None;
    if !keepSanitized {
      var back := ReverseSanitizeText(summary.value, terms);
      var out' := Sibling(input, base + "_summary_restored.txt");
      fs' := fs'[out' := back];
      restored := Some(out');
    }
    sanitized := Some(out);
  }

  /**
   * `process_file` of `translate_with_ollama.py`: as for the summary, with the files named
   * after the target language.
   */
  method TranslateFile(fs: FileSystem, input: Path, target: string, model: string, custom: Option<string>,
                       source: Option<string>, keepSanitized: bool, generate: Generator, terms: TermMap)
    returns (sanitized: Option<Path>, restored: Option<Path>, fs': FileSystem)
    ensures input !in fs ==> sanitized.None? && restored.None? && fs' == fs
    ensures input in fs && TranslateText(fs[input], target, model, custom, source, generate).None? ==>
      sanitized.None? && restored.None? && fs' == fs
    ensures restored.Some? ==> sanitized.Some?
    ensures input in fs && TranslateText(fs[input], target, model, custom, source, generate).Some? ==>
      var translation := TranslateText(fs[input], target, model, custom, source, generate).value;
      sanitized == Some(TranslationSanitizedPath(input, target))
      && (restored.Some? <==> !keepSanitized)
      && (restored.Some? ==> restored.value == TranslationRestoredPath(input, target))
      && fs' == if keepSanitized then fs[TranslationSanitizedPath(input, target) := translation]
                else fs[TranslationSanitizedPath(input, target) := translation]
                       [TranslationRestoredPath(input, target) := Restored(translation, terms)]
  {
    if input !in fs {
      return None, None, fs;
    }
    var text := fs[input];
    var translation := TranslateText(text, target, model, custom, source, generate);
    if translation.None? {
      return None, None, fs;
    }
    var base := Stem(input);
    if EndsWith(base, "_sanitized") {
      base := base[..|base| - 10];
    }
    var lang := Replace(LowerStr(target), " ", "_");
    var out := Sibling(input, base + "_translation_" + lang + "_sanitized.txt");
    fs' := fs[out := translation.value];
    restored := None;
    if !keepSanitized {
      var back := ReverseSanitizeText(translation.value, terms);
      var out' := Sibling(input, base + "_translation_" + lang + "_restored.txt");
      fs' := fs'[out' := back];
      restored := Some(out');
    }
    sanitized := Some(out);
  }
}
