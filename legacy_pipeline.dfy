/**
 * The older `complete_pipeline` in `process_video_complete.py`: transcribe, summarize the
 * sanitized transcript, restore the summary; no translation.  Its restore step calls
 * `reverse_sanitize_text(summary, reverse_map)`, but that function takes only the text
 * (`reverse_sanitize.py:57`), so the call raises and the exception handler swallows it.
 */
module LegacyPipeline {
  import opened Wrappers
  import opened Paths
  import opened ConfidentialTerms
  import opened Restorer
  import opened Ollama
  import opened Pipeline

  /** The keyword arguments of the older `complete_pipeline`. */
  datatype Options = Options(model: string, customPrompt: Option<string>, maxSummaryLength: Option<int>,
                             skipSummary: bool, keepSanitized: bool)

  /** The same run asked of the newer pipeline, with no translation. */
  function AsSettings(o: Options): Settings {
    Settings(o.model, o.customPrompt, o.maxSummaryLength, o.skipSummary, o.keepSanitized, None, None)
  }

  /**
   * Calling `reverse_sanitize_text` with `arguments` positional arguments: it declares one
   * parameter, so any other count raises `TypeError` (`None`).
   */
  function CallReverseSanitize(text: string, arguments: nat, terms: TermMap): (r: Option<string>)
    ensures r.Some? <==> arguments == 1
    ensures r.Some? ==> r.value == Restored(text, terms)
  {
    if arguments == 1 then Some(Restored(text, terms)) else None
  }

  /** `reverse_sanitize_text(summary, reverse_map)` passes two. */
  const RestoreArguments: nat := 2

  /** The older pipeline as a function of its inputs. */
  function LegacyRun(fs: FileSystem, video: Path, transcriber: TranscriberOutcome, service: Service,
                     generate: Generator, terms: TermMap, o: Options): Run
  {
    if video !in fs || Unpacked(transcriber).None? then Run(None, fs)
    else
      var r0 := map[TranscriptionOriginal := transcriber.original, TranscriptionSanitized := transcriber.sanitized];
      var summary := SummaryOf(fs, transcriber.sanitized, service, generate, AsSettings(o));
      if summary.None? then Run(Some(r0), fs)
      else
        var fs1 := fs[SummarySanitizedFile(video) := summary.value];
        var r1 := r0[SummarySanitized := SummarySanitizedFile(video)];
        if o.keepSanitized then Run(Some(r1), fs1)
        else
          match CallReverseSanitize(summary.value, RestoreArguments, terms)
          case None => Run(Some(r1), fs1)
          case Some(restored) =>
            Run(Some(r1[SummaryRestored := SummaryRestoredFile(video)]), fs1[SummaryRestoredFile(video) := restored])
  }

  /** The older `complete_pipeline`, step by step. */
  method LegacyCompletePipeline(fs: FileSystem, video: Path, transcriber: TranscriberOutcome, service: Service,
                                generate: Generator, terms: TermMap, o: Options)
    returns (results: Option<Results>, fs': FileSystem)
    ensures Run(results, fs') == LegacyRun(fs, video, transcriber, service, generate, terms, o)
  {
    if video !in fs {
      return None, fs;
    }
    var paths := Unpacked(transcriber);
    if paths.None? {
      return None, fs;
    }
    var (original, sanitized) := paths.value;
    var r: Results := map[];
    r := r[TranscriptionOriginal := original];
    r := r[TranscriptionSanitized := sanitized];
    fs' := fs;

    var skip := o.skipSummary;
    if !skip {
      if !service.up {
        skip := true;
      } else {
        var available := CheckModelAvailable(service, o.model);
        if !available {
          skip := true;
        }
      }
    }
    if !skip {
      if sanitized !in fs' {
        skip := true;
      } else {
        var summary := SummarizeText(fs'[sanitized], o.model, o.customPrompt, o.maxSummaryLength, generate);
        if summary.None? {
          skip := true;
        } else {
          fs' := fs'[SummarySanitizedFile(video) := summary.value];
          r := r[SummarySanitized := SummarySanitizedFile(video)];
          if !o.keepSanitized {
            var reverseMap := CreateReverseMapping(terms);
            match CallReverseSanitize(summary.value, RestoreArguments, terms)
            case None =>
              skip := true;
            case Some(restored) =>
              fs' := fs'[SummaryRestoredFile(video) := restored];
              r := r[SummaryRestored := SummaryRestoredFile(video)];
          }
        }
      }
    }
    results := Some(r);
  }

  /**
   * As written, the restored summary never appears: the dictionary holds the two transcripts
   * and, exactly when a summary was obtained, the sanitized summary; only that one file is written.
   */
  lemma LegacyNeverRestores(fs: FileSystem, video: Path, transcriber: TranscriberOutcome, service: Service,
                            generate: Generator, terms: TermMap, o: Options)
    ensures var run := LegacyRun(fs, video, transcriber, service, generate, terms, o);
      (run.results.None? <==> video !in fs || !transcriber.ReturnedPaths?)
      && (video in fs && transcriber.ReturnedPaths? ==>
            var summary := SummaryOf(fs, transcriber.sanitized, service, generate, AsSettings(o));
            var r := run.results.value;
            SummaryRestored !in r
            && r.Keys <= {TranscriptionOriginal, TranscriptionSanitized, SummarySanitized}
            && TranscriptionOriginal in r && TranscriptionSanitized in r
            && (SummarySanitized in r <==> summary.Some?)
            && run.files == if summary.Some? then fs[SummarySanitizedFile(video) := summary.value] else fs)
  {
    KeysDistinct();
  }

  /** `main` exits with 0 exactly when the video exists and the transcriber returned its two paths. */
  lemma LegacyExitCode(fs: FileSystem, video: Path, transcriber: TranscriberOutcome, service: Service,
                       generate: Generator, terms: TermMap, o: Options)
    ensures ExitCode(LegacyRun(fs, video, transcriber, service, generate, terms, o).results) == 0
            <==> video in fs && transcriber.ReturnedPaths?
  {
    if video in fs && transcriber.ReturnedPaths? {
      LegacyNeverRestores(fs, video, transcriber, service, generate, terms, o);
    }
  }

  /**
   * The newer pipeline, which calls `reverse_sanitize_text(summary)`, is the older one with the
   * call corrected: asked for no translation, it returns the same dictionary plus the restored
   * summary exactly when a summary was obtained and is not kept sanitized.
   */
  lemma CorrectedCallRestores(fs: FileSystem, video: Path, transcriber: TranscriberOutcome, service: Service,
                              generate: Generator, terms: TermMap, o: Options)
    requires video in fs && transcriber.ReturnedPaths?
    ensures var legacy := LegacyRun(fs, video, transcriber, service, generate, terms, o).results.value;
      var corrected := PipelineRun(fs, video, transcriber, service, generate, terms, AsSettings(o)).results.value;
      var summary := SummaryOf(fs, transcriber.sanitized, service, generate, AsSettings(o));
      corrected == if summary.Some? && !o.keepSanitized then legacy[SummaryRestored := SummaryRestoredFile(video)] else legacy
  {
  }
}
