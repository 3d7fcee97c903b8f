/**
 * `complete_pipeline` in `src/process_video_complete.py`: transcribe, summarize the sanitized
 * transcript, restore the summary, translate the sanitized transcript, restore the translation.
 * The results dictionary is filled stage by stage, and the `skip_summary` and `translate_to` flags
 * are cleared as checks fail.  The transcriber, the Ollama service and the generator are
 * collaborators given as values; the state of the service does not change during a run.
 */
module Pipeline {
  import opened Wrappers
  import opened Strings
  import opened Paths
  import opened ConfidentialTerms
  import opened Substitution
  import opened Sanitizer
  import opened Restorer
  import opened Transcription
  import opened Ollama

  /**
   * What the call `transcribe_video(video)` did: raised, returned a boolean (what `main.py`
   * returns), or returned the two transcript paths the pipeline unpacks.
   */
  datatype TranscriberOutcome =
    | Raised
    | ReturnedBool(ok: bool)
    | ReturnedPaths(original: Path, sanitized: Path)

  /** `original_txt, sanitized_txt = ...`: unpacking anything but a pair raises `TypeError`. */
  function Unpacked(outcome: TranscriberOutcome): (r: Option<(Path, Path)>)
    ensures r.Some? <==> outcome.ReturnedPaths?
    ensures r.Some? ==> r.value == (outcome.original, outcome.sanitized)
  {
    match outcome
    case ReturnedPaths(original, sanitized) => Some((original, sanitized))
    case _ => None
  }

  /** The keyword arguments of `complete_pipeline`. */
  datatype Settings = Settings(model: string, customPrompt: Option<string>, maxSummaryLength: Option<int>,
                               skipSummary: bool, keepSanitized: bool,
                               translateTo: Option<string>, translateSource: Option<string>)

  /** The returned dictionary: result name to file path. */
  type Results = map<string, Path>

  const TranscriptionOriginal := "transcription_original"
  const TranscriptionSanitized := "transcription_sanitized"
  const SummarySanitized := "summary_sanitized"
  const SummaryRestored := "summary_restored"
  const TranslationSanitized := "translation_sanitized"
  const TranslationRestored := "translation_restored"

  /** The only names a result can carry. */
  predicate KnownKey(k: string) {
    k == TranscriptionOriginal || k == TranscriptionSanitized || k == SummarySanitized
    || k == SummaryRestored || k == TranslationSanitized || k == TranslationRestored
  }

  /** `video_path.parent / f"{video_path.stem}{suffix}"`. */
  function StageFile(video: Path, suffix: string): Path {
    Sibling(video, Stem(video) + suffix)
  }

  function SummarySanitizedFile(video: Path): Path {
    StageFile(video, "_summary_sanitized.txt")
  }

  function SummaryRestoredFile(video: Path): Path {
    StageFile(video, "_summary_restored.txt")
  }

  function TranslationSanitizedFile(video: Path, target: string): Path {
    StageFile(video, "_translation_" + SafeLang(target) + "_sanitized.txt")
  }

  function TranslationRestoredFile(video: Path, target: string): Path {
    StageFile(video, "_translation_" + SafeLang(target) + "_restored.txt")
  }

  /** The target language the translation stage uses; only read when `translate_to` is given. */
  function Target(s: Settings): string {
    if s.translateTo.Some? then s.translateTo.value else ""
  }

  /** `check_ollama_service()` and then `check_model_available(model)` both pass. */
  predicate Ready(service: Service, model: string) {
    service.up && Listed(service.models, model)
  }

  /**
   * The summary the pipeline obtains: none when the stage is skipped, a check fails, the
   * sanitized transcript cannot be read, or `summarize_text` gives `None`.
   */
  function SummaryOf(fs: FileSystem, sanitized: Path, service: Service, generate: Generator, s: Settings): Option<string> {
    if s.skipSummary || !Ready(service, s.model) || sanitized !in fs then None
    else SummarizeText(fs[sanitized], s.model, s.customPrompt, s.maxSummaryLength, generate)
  }

  /** The files after the summary stage: the summary, then (unless kept sanitized) its restoration. */
  function WithSummary(fs: FileSystem, video: Path, summary: Option<string>, s: Settings, terms: TermMap): FileSystem {
    if summary.None? then fs
    else if s.keepSanitized then fs[SummarySanitizedFile(video) := summary.value]
    else fs[SummarySanitizedFile(video) := summary.value][SummaryRestoredFile(video) := Restored(summary.value, terms)]
  }

  function SummaryEntries(results: Results, video: Path, summary: Option<string>, s: Settings): Results {
    if summary.None? then results
    else if s.keepSanitized then results[SummarySanitized := SummarySanitizedFile(video)]
    else results[SummarySanitized := SummarySanitizedFile(video)][SummaryRestored := SummaryRestoredFile(video)]
  }

  /**
   * The translation the pipeline obtains, reading the sanitized transcript from the files the
   * summary stage left: none when `translate_to` is falsy, a check fails, the file cannot be read,
   * or `translate_text` (called without the custom prompt) gives `None`.
   */
  function TranslationOf(fs: FileSystem, sanitized: Path, service: Service, generate: Generator, s: Settings): Option<string> {
    if !Given(s.translateTo) || !Ready(service, s.model) || sanitized !in fs then None
    else TranslateText(fs[sanitized], Target(s), s.model, None, s.translateSource, generate)
  }

  function WithTranslation(fs: FileSystem, video: Path, translation: Option<string>, s: Settings, terms: TermMap): FileSystem {
    if translation.None? then fs
    else if s.keepSanitized then fs[TranslationSanitizedFile(video, Target(s)) := translation.value]
    else fs[TranslationSanitizedFile(video, Target(s)) := translation.value]
           [TranslationRestoredFile(video, Target(s)) := Restored(translation.value, terms)]
  }

  function TranslationEntries(results: Results, video: Path, translation: Option<string>, s: Settings): Results {
    if translation.None? then results
    else if s.keepSanitized then results[TranslationSanitized := TranslationSanitizedFile(video, Target(s))]
    else results[TranslationSanitized := TranslationSanitizedFile(video, Target(s))]
                [TranslationRestored := TranslationRestoredFile(video, Target(s))]
  }

  /** A finished run: the returned dictionary (or `None`) and the files left behind. */
  datatype Run = Run(results: Option<Results>, files: FileSystem)

  /** The whole pipeline as a function of its inputs; `fs` is the file system as the transcriber leaves it. */
  function PipelineRun(fs: FileSystem, video: Path, transcriber: TranscriberOutcome, service: Service,
                       generate: Generator, terms: TermMap, s: Settings): Run
  {
    if video !in fs || Unpacked(transcriber).None? then Run(None, fs)
    else
      var summary := SummaryOf(fs, transcriber.sanitized, service, generate, s);
      var fs1 := WithSummary(fs, video, summary, s, terms);
      var translation := TranslationOf(fs1, transcriber.sanitized, service, generate, s);
      var r0 := map[TranscriptionOriginal := transcriber.original, TranscriptionSanitized := transcriber.sanitized];
      Run(Some(TranslationEntries(SummaryEntries(r0, video, summary, s), video, translation, s)),
          WithTranslation(fs1, video, translation, s, terms))
  }

  /** `complete_pipeline`, step by step. */
  method CompletePipeline(fs: FileSystem, video: Path, transcriber: TranscriberOutcome, service: Service,
                          generate: Generator, terms: TermMap, s: Settings)
    returns (results: Option<Results>, fs': FileSystem)
    ensures Run(results, fs') == PipelineRun(fs, video, transcriber, service, generate, terms, s)
  {
    if video !in fs {
      return None, fs;
    }
    var paths := Unpacked(transcriber);
    if paths.None? {
      return None, fs;
    }
    var (original, sanitized) := paths.value;
    var r: Results := map[];
    r := r[TranscriptionOriginal := original];
    r := r[TranscriptionSanitized := sanitized];
    fs' := fs;

    // Summary stage.
    var skip := s.skipSummary;
    if !skip {
      if !service.up {
        skip := true;
      } else {
        var available := CheckModelAvailable(service, s.model);
        if !available {
          skip := true;
        }
      }
    }
    if !skip {
      if sanitized !in fs' {
        skip := true;
      } else {
        var summary := SummarizeText(fs'[sanitized], s.model, s.customPrompt, s.maxSummaryLength, generate);
        if summary.None? {
          skip := true;
        } else {
          fs' := fs'[SummarySanitizedFile(video) := summary.value];
          r := r[SummarySanitized := SummarySanitizedFile(video)];
          if !s.keepSanitized {
            var restored := ReverseSanitizeText(summary.value, terms);
            fs' := fs'[SummaryRestoredFile(video) := restored];
            r := r[SummaryRestored := SummaryRestoredFile(video)];
          }
        }
      }
    }
    assert fs' == WithSummary(fs, video, SummaryOf(fs, sanitized, service, generate, s), s, terms);
    assert !skip ==> Ready(service, s.model);

    // Translation stage: the checks are repeated only when the summary stage did not pass them.
    var translateTo := s.translateTo;
    if Given(translateTo) {
      if skip && !service.up {
        translateTo := None;
      } else if skip {
        var available := CheckModelAvailable(service, s.model);
        if !available {
          translateTo := None;
        }
      }
    }
    if Given(translateTo) && sanitized in fs' {
      var translation := TranslateText(fs'[sanitized], translateTo.value, s.model, None, s.translateSource, generate);
      if translation.Some? {
        var target := translateTo.value;
        var sanitizedFile := TranslationSanitizedFile(video, target);
        fs' := fs'[sanitizedFile := translation.value];
        r := r[TranslationSanitized := sanitizedFile];
        if !s.keepSanitized {
          var restored := ReverseSanitizeText(translation.value, terms);
          fs' := fs'[TranslationRestoredFile(video, target) := restored];
          r := r[TranslationRestored := TranslationRestoredFile(video, target)];
        }
      }
    }
    results := Some(r);
  }

  /** `main`'s exit status: 0 when the returned dictionary is non-empty, 1 for `None` or `{}`. */
  function ExitCode(results: Option<Results>): int {
    if results.Some? && |results.value| > 0 then 0 else 1
  }

  /** A missing video or a failed transcription returns `None` and writes nothing. */
  lemma NoResultsWhenTranscriptionFails(fs: FileSystem, video: Path, transcriber: TranscriberOutcome, service: Service,
                                        generate: Generator, terms: TermMap, s: Settings)
    ensures var run := PipelineRun(fs, video, transcriber, service, generate, terms, s);
      (run.results.None? <==> video !in fs || !transcriber.ReturnedPaths?)
      && (run.results.None? ==> run.files == fs)
  {
  }

  /** The result names differ from one another (their lengths already do). */
  lemma KeysDistinct()
    ensures |TranscriptionOriginal| == 22 && |TranscriptionSanitized| == 23 && |SummarySanitized| == 17
    ensures |SummaryRestored| == 16 && |TranslationSanitized| == 21 && |TranslationRestored| == 20
  {
  }

  /** The dictionary built from the transcripts and the outcomes of the two stages. */
  lemma {:induction false} EntriesShape(original: Path, sanitized: Path, video: Path, summary: Option<string>,
                                        translation: Option<string>, s: Settings)
    ensures var r := TranslationEntries(SummaryEntries(map[TranscriptionOriginal := original, TranscriptionSanitized := sanitized],
                                                       video, summary, s), video, translation, s);
      (forall k :: k in r ==> KnownKey(k))
      && TranscriptionOriginal in r && r[TranscriptionOriginal] == original
      && TranscriptionSanitized in r && r[TranscriptionSanitized] == sanitized
      && (SummarySanitized in r <==> summary.Some?)
      && (SummaryRestored in r <==> summary.Some? && !s.keepSanitized)
      && (TranslationSanitized in r <==> translation.Some?)
      && (TranslationRestored in r <==> translation.Some? && !s.keepSanitized)
      && (SummarySanitized in r ==> r[SummarySanitized] == SummarySanitizedFile(video))
      && (SummaryRestored in r ==> r[SummaryRestored] == SummaryRestoredFile(video))
      && (TranslationSanitized in r ==> r[TranslationSanitized] == TranslationSanitizedFile(video, Target(s)))
      && (TranslationRestored in r ==> r[TranslationRestored] == TranslationRestoredFile(video, Target(s)))
  {
    KeysDistinct();
  }

  /**
   * Which names can appear: always the two transcripts, a summary entry exactly when a summary
   * was obtained, its restoration exactly when it is also not kept sanitized, and likewise for
   * the translation; each with its fixed file.
   */
  lemma ResultKeys(fs: FileSystem, video: Path, transcriber: TranscriberOutcome, service: Service,
                   generate: Generator, terms: TermMap, s: Settings)
    requires video in fs && transcriber.ReturnedPaths?
    ensures var run := PipelineRun(fs, video, transcriber, service, generate, terms, s);
      var summary := SummaryOf(fs, transcriber.sanitized, service, generate, s);
      var translation := TranslationOf(WithSummary(fs, video, summary, s, terms), transcriber.sanitized, service, generate, s);
      var r := run.results.value;
      run.results.Some?
      && (forall k :: k in r ==> KnownKey(k))
      && TranscriptionOriginal in r && r[TranscriptionOriginal] == transcriber.original
      && TranscriptionSanitized in r && r[TranscriptionSanitized] == transcriber.sanitized
      && (SummarySanitized in r <==> summary.Some?)
      && (SummaryRestored in r <==> summary.Some? && !s.keepSanitized)
      && (TranslationSanitized in r <==> translation.Some?)
      && (TranslationRestored in r <==> translation.Some? && !s.keepSanitized)
      && (SummarySanitized in r ==> r[SummarySanitized] == SummarySanitizedFile(video))
      && (SummaryRestored in r ==> r[SummaryRestored] == SummaryRestoredFile(video))
      && (TranslationSanitized in r ==> r[TranslationSanitized] == TranslationSanitizedFile(video, Target(s)))
      && (TranslationRestored in r ==> r[TranslationRestored] == TranslationRestoredFile(video, Target(s)))
  {
    var summary := SummaryOf(fs, transcriber.sanitized, service, generate, s);
    var translation := TranslationOf(WithSummary(fs, video, summary, s, terms), transcriber.sanitized, service, generate, s);
    EntriesShape(transcriber.original, transcriber.sanitized, video, summary, translation, s);
  }

  /**
   * A stage produces output only after its checks pass: the summary needs `skip_summary` unset
   * and a ready service and model; the translation needs `translate_to` and the same checks,
   * whether they were run by the summary stage or repeated for the translation.
   */
  lemma StagesRunOnlyWhenReady(fs: FileSystem, video: Path, transcriber: TranscriberOutcome, service: Service,
                               generate: Generator, terms: TermMap, s: Settings)
    ensures var run := PipelineRun(fs, video, transcriber, service, generate, terms, s);
      run.results.Some? ==>
        (SummarySanitized in run.results.value ==> !s.skipSummary && Ready(service, s.model))
        && (TranslationSanitized in run.results.value ==> Given(s.translateTo) && Ready(service, s.model))
  {
  }

  /** The files written are pairwise distinct, whatever the target language. */
  lemma {:induction false} StageFilesDistinct(video: Path, target: string)
    ensures SummarySanitizedFile(video) != SummaryRestoredFile(video)
    ensures SummarySanitizedFile(video) != TranslationSanitizedFile(video, target)
    ensures SummarySanitizedFile(video) != TranslationRestoredFile(video, target)
    ensures SummaryRestoredFile(video) != TranslationSanitizedFile(video, target)
    ensures SummaryRestoredFile(video) != TranslationRestoredFile(video, target)
    ensures TranslationSanitizedFile(video, target) != TranslationRestoredFile(video, target)
  {
    var b := Stem(video);
    var l := SafeLang(target);
    SuffixesDiffer(b, "_summary_sanitized.txt", "_summary_restored.txt", 9);
    SuffixesDiffer(b, "_summary_sanitized.txt", "_translation_" + l + "_sanitized.txt", 1);
    SuffixesDiffer(b, "_summary_sanitized.txt", "_translation_" + l + "_restored.txt", 1);
    SuffixesDiffer(b, "_summary_restored.txt", "_translation_" + l + "_sanitized.txt", 1);
    SuffixesDiffer(b, "_summary_restored.txt", "_translation_" + l + "_restored.txt", 1);
    SuffixesDiffer(b, "_translation_" + l + "_sanitized.txt", "_translation_" + l + "_restored.txt", 14 + |l|);
  }

  /** Two names with a common prefix differ when their tails differ at some position. */
  lemma {:induction false} SuffixesDiffer(b: string, x: string, y: string, k: nat)
    requires k < |x| && k < |y| && x[k] != y[k]
    ensures b + x != b + y
  {
    assert (b + x)[|b| + k] == x[k];
    assert (b + y)[|b| + k] == y[k];
  }

  /** The files after both stages, for any outcome of either. */
  lemma {:induction false} FilesShape(fs: FileSystem, video: Path, summary: Option<string>, translation: Option<string>,
                                      s: Settings, terms: TermMap)
    ensures var f := WithTranslation(WithSummary(fs, video, summary, s, terms), video, translation, s, terms);
      var written := {SummarySanitizedFile(video), SummaryRestoredFile(video),
                      TranslationSanitizedFile(video, Target(s)), TranslationRestoredFile(video, Target(s))};
      (summary.Some? ==> SummarySanitizedFile(video) in f && f[SummarySanitizedFile(video)] == summary.value)
      && (summary.Some? && !s.keepSanitized ==>
            SummaryRestoredFile(video) in f && f[SummaryRestoredFile(video)] == Restored(summary.value, terms))
      && (translation.Some? ==>
            TranslationSanitizedFile(video, Target(s)) in f && f[TranslationSanitizedFile(video, Target(s))] == translation.value)
      && (translation.Some? && !s.keepSanitized ==>
            TranslationRestoredFile(video, Target(s)) in f
            && f[TranslationRestoredFile(video, Target(s))] == Restored(translation.value, terms))
      && (forall p :: p in fs && p !in written ==> p in f && f[p] == fs[p])
      && (forall p :: p in f ==> p in fs || p in written)
  {
    StageFilesDistinct(video, Target(s));
  }

  /**
   * What the run leaves behind: the summary and its restoration, the translation and its
   * restoration, each in its own file beside the video, and every other file as it was.
   */
  lemma FilesWritten(fs: FileSystem, video: Path, transcriber: TranscriberOutcome, service: Service,
                     generate: Generator, terms: TermMap, s: Settings)
    requires video in fs && transcriber.ReturnedPaths?
    ensures var run := PipelineRun(fs, video, transcriber, service, generate, terms, s);
      var summary := SummaryOf(fs, transcriber.sanitized, service, generate, s);
      var translation := TranslationOf(WithSummary(fs, video, summary, s, terms), transcriber.sanitized, service, generate, s);
      var written := {SummarySanitizedFile(video), SummaryRestoredFile(video),
                      TranslationSanitizedFile(video, Target(s)), TranslationRestoredFile(video, Target(s))};
      (summary.Some? ==> SummarySanitizedFile(video) in run.files && run.files[SummarySanitizedFile(video)] == summary.value)
      && (summary.Some? && !s.keepSanitized ==>
            SummaryRestoredFile(video) in run.files && run.files[SummaryRestoredFile(video)] == Restored(summary.value, terms))
      && (translation.Some? ==>
            TranslationSanitizedFile(video, Target(s)) in run.files
            && run.files[TranslationSanitizedFile(video, Target(s))] == translation.value)
      && (translation.Some? && !s.keepSanitized ==>
            TranslationRestoredFile(video, Target(s)) in run.files
            && run.files[TranslationRestoredFile(video, Target(s))] == Restored(translation.value, terms))
      && (forall p :: p in fs && p !in written ==> p in run.files && run.files[p] == fs[p])
      && (forall p :: p in run.files ==> p in fs || p in written)
  {
    var summary := SummaryOf(fs, transcriber.sanitized, service, generate, s);
    var translation := TranslationOf(WithSummary(fs, video, summary, s, terms), transcriber.sanitized, service, generate, s);
    FilesShape(fs, video, summary, translation, s, terms);
  }

  /** Files that agree on one path. */
  predicate AgreeAt(fs1: FileSystem, fs2: FileSystem, p: Path) {
    (p in fs1 <==> p in fs2) && (p in fs1 ==> fs1[p] == fs2[p])
  }

  /** Writing the same summary files into two file systems keeps them agreeing on any path. */
  lemma {:induction false} WithSummaryKeepsAgreement(fs1: FileSystem, fs2: FileSystem, video: Path, summary: Option<string>,
                                                     s: Settings, terms: TermMap, p: Path)
    requires AgreeAt(fs1, fs2, p)
    ensures AgreeAt(WithSummary(fs1, video, summary, s, terms), WithSummary(fs2, video, summary, s, terms), p)
  {
  }

  /**
   * The generator sees only the sanitized transcript: runs on file systems that agree on the
   * video's existence and on the sanitized transcript return the same dictionary, obtain the same
   * summary and the same translation, whatever the original transcript or any other file holds.
   */
  lemma {:induction false} OnlySanitizedContentMatters(fs1: FileSystem, fs2: FileSystem, video: Path, transcriber: TranscriberOutcome,
                                                       service: Service, generate: Generator, terms: TermMap, s: Settings)
    requires transcriber.ReturnedPaths?
    requires (video in fs1 <==> video in fs2) && AgreeAt(fs1, fs2, transcriber.sanitized)
    ensures var summary1 := SummaryOf(fs1, transcriber.sanitized, service, generate, s);
      var summary2 := SummaryOf(fs2, transcriber.sanitized, service, generate, s);
      summary1 == summary2
      && TranslationOf(WithSummary(fs1, video, summary1, s, terms), transcriber.sanitized, service, generate, s)
         == TranslationOf(WithSummary(fs2, video, summary2, s, terms), transcriber.sanitized, service, generate, s)
      && PipelineRun(fs1, video, transcriber, service, generate, terms, s).results
         == PipelineRun(fs2, video, transcriber, service, generate, terms, s).results
  {
    var summary := SummaryOf(fs1, transcriber.sanitized, service, generate, s);
    WithSummaryKeepsAgreement(fs1, fs2, video, summary, s, terms, transcriber.sanitized);
  }

  /** Two settings that differ only in what the summary stage uses. */
  predicate SameTranslationSettings(s1: Settings, s2: Settings) {
    s1.model == s2.model && s1.keepSanitized == s2.keepSanitized
    && s1.translateTo == s2.translateTo && s1.translateSource == s2.translateSource
  }

  /**
   * The translation stage does not depend on how the summary stage went: unless the summary
   * files overwrite the sanitized transcript, skipping the summary, a different custom prompt or
   * word limit, or a failed summary leaves the translation and its entries unchanged.
   */
  lemma {:induction false} TranslationIndependentOfSummary(fs: FileSystem, video: Path, transcriber: TranscriberOutcome,
                                                           service: Service, generate: Generator, terms: TermMap,
                                                           s1: Settings, s2: Settings)
    requires video in fs && transcriber.ReturnedPaths?
    requires SameTranslationSettings(s1, s2)
    requires transcriber.sanitized != SummarySanitizedFile(video) && transcriber.sanitized != SummaryRestoredFile(video)
    ensures var r1 := PipelineRun(fs, video, transcriber, service, generate, terms, s1).results.value;
      var r2 := PipelineRun(fs, video, transcriber, service, generate, terms, s2).results.value;
      (TranslationSanitized in r1 <==> TranslationSanitized in r2)
      && (TranslationRestored in r1 <==> TranslationRestored in r2)
      && (TranslationSanitized in r1 ==> r1[TranslationSanitized] == r2[TranslationSanitized])
      && (TranslationRestored in r1 ==> r1[TranslationRestored] == r2[TranslationRestored])
  {
    var san := transcriber.sanitized;
    var sum1 := SummaryOf(fs, san, service, generate, s1);
    var sum2 := SummaryOf(fs, san, service, generate, s2);
    assert AgreeAt(WithSummary(fs, video, sum1, s1, terms), fs, san);
    assert AgreeAt(WithSummary(fs, video, sum2, s2, terms), fs, san);
    assert Target(s1) == Target(s2);
    ResultKeys(fs, video, transcriber, service, generate, terms, s1);
    ResultKeys(fs, video, transcriber, service, generate, terms, s2);
  }

  /** Two settings that differ only in what the translation stage uses. */
  predicate SameSummarySettings(s1: Settings, s2: Settings) {
    s1.model == s2.model && s1.customPrompt == s2.customPrompt && s1.maxSummaryLength == s2.maxSummaryLength
    && s1.skipSummary == s2.skipSummary && s1.keepSanitized == s2.keepSanitized
  }

  /** The summary entries do not depend on the translation settings or on how the translation went. */
  lemma {:induction false} SummaryIndependentOfTranslation(fs: FileSystem, video: Path, transcriber: TranscriberOutcome,
                                                           service: Service, generate: Generator, terms: TermMap,
                                                           s1: Settings, s2: Settings)
    requires video in fs && transcriber.ReturnedPaths?
    requires SameSummarySettings(s1, s2)
    ensures var r1 := PipelineRun(fs, video, transcriber, service, generate, terms, s1).results.value;
      var r2 := PipelineRun(fs, video, transcriber, service, generate, terms, s2).results.value;
      (SummarySanitized in r1 <==> SummarySanitized in r2)
      && (SummaryRestored in r1 <==> SummaryRestored in r2)
      && (SummarySanitized in r1 ==> r1[SummarySanitized] == r2[SummarySanitized])
      && (SummaryRestored in r1 ==> r1[SummaryRestored] == r2[SummaryRestored])
  {
    assert SummaryOf(fs, transcriber.sanitized, service, generate, s1) == SummaryOf(fs, transcriber.sanitized, service, generate, s2);
    ResultKeys(fs, video, transcriber, service, generate, terms, s1);
    ResultKeys(fs, video, transcriber, service, generate, terms, s2);
  }

  /** `main` exits with 0 exactly when the video exists and the transcriber returned its two paths. */
  lemma ExitCodeOfPipeline(fs: FileSystem, video: Path, transcriber: TranscriberOutcome, service: Service,
                           generate: Generator, terms: TermMap, s: Settings)
    ensures ExitCode(PipelineRun(fs, video, transcriber, service, generate, terms, s).results) == 0
            <==> video in fs && transcriber.ReturnedPaths?
  {
    var run := PipelineRun(fs, video, transcriber, service, generate, terms, s);
    if video in fs && transcriber.ReturnedPaths? {
      ResultKeys(fs, video, transcriber, service, generate, terms, s);
      assert TranscriptionOriginal in run.results.value;
    }
  }

  /**
   * As written, `transcribe_video` returns a boolean, which the pipeline cannot unpack: every
   * run, successful transcription or not, ends with `None` and exit status 1.
   */
  lemma BooleanTranscriberAlwaysFails(fs: FileSystem, video: Path, ok: bool, service: Service,
                                      generate: Generator, terms: TermMap, s: Settings)
    ensures PipelineRun(fs, video, ReturnedBool(ok), service, generate, terms, s).results == None
    ensures ExitCode(PipelineRun(fs, video, ReturnedBool(ok), service, generate, terms, s).results) == 1
  {
  }

  /**
   * With a transcriber that returns its two paths (`Transcription.TranscribeVideoPaths`), the
   * run completes, and the text the summarizer is given is the stripped sanitized transcript,
   * which holds no casing of any confidential pattern.
   */
  lemma {:induction false} PathsTranscriberFeedsSanitizedText(fs: FileSystem, video: Path, segments: seq<string>,
                                                              service: Service, generate: Generator,
                                                              terms: TermMap, rewrites: Rewrites, s: Settings)
    requires CodesNeverClash(terms, rewrites)
    requires video in fs
    requires var out := TranscriptPath(video, None);
      SanitizedTranscriptPath(out) in fs
      && fs[SanitizedTranscriptPath(out)] == Strip(Sanitized(JoinSegments(segments), terms, rewrites))
    ensures var out := TranscriptPath(video, None);
      var san := SanitizedTranscriptPath(out);
      var run := PipelineRun(fs, video, ReturnedPaths(out, san), service, generate, terms, s);
      var given := Strip(Sanitized(JoinSegments(segments), terms, rewrites));
      run.results.Some?
      && ExitCode(run.results) == 0
      && SummaryOf(fs, san, service, generate, s)
         == (if s.skipSummary || !Ready(service, s.model) then None
             else SummarizeText(given, s.model, s.customPrompt, s.maxSummaryLength, generate))
      && (forall i :: 0 <= i < |terms| ==> FreeOf(given, terms[i].0))
  {
    var out := TranscriptPath(video, None);
    ExitCodeOfPipeline(fs, video, ReturnedPaths(out, SanitizedTranscriptPath(out)), service, generate, terms, s);
    SanitizedTranscriptHasNoTerm(segments, terms, rewrites);
  }
}
