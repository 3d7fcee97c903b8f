# video-to-text: confidential-term sanitizing, restoring and the processing pipelines

This project is a Dafny model of the logic of the video-to-text scripts that does not depend on
the speech recogniser, the language model or the browser. It covers:

- **Term map** (`confidential_terms.py`). An ordered dictionary from literal pattern to code,
  plus an ordered list of further rewrites.
- **Sanitizer** (`main.py`). `sanitize_text` replaces every case-insensitive occurrence of each
  pattern by its code, entry by entry. `transcribe_video` joins the recognised segments and writes
  the original and the sanitized transcript.
- **Restorer** (`reverse_sanitize.py`, with its identical copy `src/reverse_sanitize.py`).
  `create_reverse_mapping` maps each code to the display term of the first entry carrying it.
  `reverse_sanitize_text` puts that term back wherever the code stands as a whole word, matching
  case-sensitively. `process_sanitized_file` names and writes the restored file.
- **Round trip.** `reverse_sanitize_text(sanitize_text(t))` gives back the text, with every
  occurrence in the casing of the first entry for its code. This holds for any text split into
  plain stretches and term occurrences that cannot interfere. It is exact for first-declared
  casings and lossy for the others (`anh chị` comes back as `Anh chị`).
- **Ollama helpers** (`summarize_with_ollama.py`, `translate_with_ollama.py` and their identical
  `src/` copies). These are the model-name test, the prompt templates, the handling of the reply,
  and the branching and file naming of both `process_file` functions.
- **Google Translate helpers** (`src/auto_translate_google.py`). These are `get_language_code`,
  the rule that accepts a translation read back from the page, and the checks and output naming
  of `process_file`.
- **Pipelines.** `complete_pipeline` in `src/process_video_complete.py` runs transcribe,
  summarize, restore, translate and restore. The older `process_video_complete.py` runs
  transcribe, summarize and restore.

**How the model is built.** Files are a map from path to content; a method returns the new map.
Each collaborator is a value:

- the recogniser gives the segment texts, or `None` when it raised;
- the Ollama service is whether it answers plus the listed model names;
- `ollama.generate` is a function from (model, prompt) to the reply, or `None` when it raised;
- the browser session is a function from (text, source code, target code) to the text read back,
  or `None`;
- the pipelines' transcriber is the value its call produced.

**Matching.** `re.sub` on a literal pattern and `str.replace` are modelled by one left-to-right
substitution with three matching modes: ignoring case, exact, and exact between word boundaries.
Case folding and word characters are concrete character functions (`Chars.Lower`,
`Chars.IsWordChar`) that cover the Latin and Vietnamese letters the terms use.

**Shape of the code.** Code that loops or fills a dictionary in place becomes a method with loop
invariants, proved against a function that states its result:

- `SanitizeText`, `CreateReverseMapping`, `ReverseSanitizeText` and `CheckModelAvailable`;
- the two pipelines, which are proved against `PipelineRun` and `LegacyRun`.

Properties relating several calls are lemmas.

## Model

| member | source | states |
|---|---|---|
| `ConfidentialTerms.DefaultTermsShape` | confidential_terms.py:11-16 | the default map has exactly four entries with distinct keys and the codes {AC, KT}; each code comes from two casings of one phrase |
| `ConfidentialTerms.DefaultCodesNeverClash` | confidential_terms.py:13-16 | no default code can rebuild a default pattern in any casing, alone or overlapping the text around it |
| `ConfidentialTerms.DefaultPatternsOverlapOnlyWholly` | confidential_terms.py:13-16 | two default patterns overlap, ignoring case, only by covering each other exactly |
| `Sanitizer.SanitizeText` | main.py:53-73 | the loop's result is the term passes in dictionary order, each case-insensitive over the running text, followed by the rewrites in list order, each case-sensitive |
| `Sanitizer.SanitizedHasNoTerm` | main.py:63-73 | non-leakage: if no pattern is empty and no code or rewrite result can rebuild a pattern, the output holds no casing of any pattern |
| `Sanitizer.TermFreeTextUnchanged` | main.py:63-73 | a text with no casing of any pattern and no rewrite pattern is returned unchanged |
| `Sanitizer.EmptyTextUnchanged` | main.py:63-73 | the empty string is returned unchanged when no pattern is empty |
| `Sanitizer.DefaultRewritesIdentity` | confidential_terms.py:28-37 | the default rewrite list is empty, so with the defaults sanitizing is the term passes alone |
| `Sanitizer.DefaultSanitizedHasNoTerm` | main.py:66-67 | with the defaults, the output holds no casing of `anh chị` or `kiến thức` |
| `Sanitizer.DefaultSecondCasingsInert` | main.py:66-67 | with the defaults, sanitizing equals the passes of the two first-declared entries only, so `anh chị` and `kiến thức` never match |
| `Sanitizer.DefaultAnyCasingSameCode` | main.py:67 | every casing of `anh chị` sanitizes to `AC`, and every casing of `kiến thức` to `KT` |
| `Substitution.WholeWordMatchIff` | reverse_sanitize.py:75-76 | a `\b`-code-`\b` match is the code itself, with the start of the text or a non-word character before it and the end or a non-word character after it |
| `Transcription.TranscribeVideo` | main.py:76-158 | a missing video or a failing recogniser gives `False` and writes nothing; otherwise `True`, with the stripped joined text in the output file and, when asked, the stripped sanitized text in `{stem}_sanitized{suffix}` |
| `Transcription.JoinAppend` | main.py:127-129 | the joined transcript (each segment's text plus a newline) distributes over concatenation of segment lists |
| `Transcription.DefaultTranscriptNames` | main.py:98-144 | a video `name.ext` gives `name.txt` and `name_sanitized.txt` in the current directory |
| `Transcription.SanitizedPathDiffers` | main.py:142-144 | the sanitized transcript never overwrites the original one |
| `Transcription.SanitizedTranscriptHasNoTerm` | main.py:138-148 | the sanitized transcript file holds no casing of any pattern, under the condition of `SanitizedHasNoTerm` |
| `Transcription.TranscribeVideoPaths` | main.py:154 | the transcriber the pipelines expect: the two transcript paths (distinct), with their contents, iff the video exists and recognition succeeded; otherwise `None` and nothing written |
| `Restorer.CreateReverseMapping` | reverse_sanitize.py:35-54 | the loop fills the dictionary with, for each entry in order, its code mapped to its display term, unless the code is already a key |
| `Restorer.ReverseMapKeys` | reverse_sanitize.py:42-54 | the keys are exactly the term map's codes, each once, so there are at most as many as entries |
| `Restorer.ReverseMapFirstWins` | src/reverse_sanitize.py:45-52 | the term stored under a code is the display term (`\b` removed, stripped) of the first entry carrying that code |
| `Restorer.OnlyCodesHaveEntries` | reverse_sanitize.py:45-52 | a string that is not a code has no entry |
| `Restorer.DisplayOfPlainPattern` | reverse_sanitize.py:47 | a pattern with no backslash and no surrounding whitespace is its own display term |
| `Restorer.DefaultReverseMap` | src/reverse_sanitize.py:26-31 | for the defaults, the dictionary is {AC: `Anh chị`, KT: `Kiến thức`} |
| `Restorer.ReverseSanitizeText` | reverse_sanitize.py:57-78 | the loop's result is one whole-word, case-sensitive pass per entry of the reverse dictionary, in order |
| `Restorer.NoWholeWordCodeUnchanged` | src/reverse_sanitize.py:67-78 | a text in which no code stands as a whole word is returned unchanged |
| `Restorer.EmptyTextUnchanged` | reverse_sanitize.py:67-78 | the empty string is returned unchanged, whatever the codes |
| `Restorer.DefaultNoCodeUnchanged` | src/reverse_sanitize.py:73-76 | with the defaults, a text holding neither `AC` nor `KT` as a whole word is unchanged |
| `Restorer.DefaultCaseGap` | reverse_sanitize.py:75-76 | `ac`, `ACB` and `xAC` are left as they are |
| `Restorer.RestoredBaseOfSanitized` | reverse_sanitize.py:106-114 | for a stem `base_sanitized` with no other `_sanitized` in it, the base of the restored file's name (`{base}_restored{suffix}`) is `base` |
| `Restorer.ProcessSanitizedFile` | reverse_sanitize.py:92-118 | a missing input gives `False` and writes nothing; otherwise `True`, with the restored text written to the given path or the default one |
| `RoundTrip.SanitizeReplacesTerms` | main.py:63-73 | for a text split into plain stretches and term occurrences that cannot interfere, sanitizing replaces each occurrence by the code of the first pattern it equals ignoring case, and keeps every plain stretch |
| `RoundTrip.RestoreReplacesCodes` | reverse_sanitize.py:67-78 | restoring such a sanitized text puts the term stored under each code in its place and keeps every plain stretch |
| `RoundTrip.SanitizeThenRestore` | reverse_sanitize.py:57-78 | round trip: restore(sanitize(t)) is t with each occurrence replaced by the term stored under its code |
| `RoundTrip.RecoveredIsFirstEntry` | reverse_sanitize.py:51-52 | an occurrence comes back as the display term of the first entry carrying its code |
| `RoundTrip.DefaultRoundTrip` | src/reverse_sanitize.py:57-78 | with the defaults, plain stretches come back unchanged, every casing of `anh chị` as `Anh chị` and every casing of `kiến thức` as `Kiến thức` |
| `RoundTrip.DefaultExactRoundTrip` | test_complete_pipeline.py:198-215 | with the defaults, the round trip is the identity when every occurrence is in its first-declared casing |
| `RoundTrip.DefaultRecovered` | src/reverse_sanitize.py:51-52 | with the defaults, lower-case variants do not round-trip: any casing of a phrase comes back in the first-declared casing |
| `RoundTrip.DefaultExample` | test_complete_pipeline.py:198-199 | `Xin chào Anh chị, chúng ta sẽ học Kiến thức mới.` sanitizes to `Xin chào AC, chúng ta sẽ học KT mới.`, which restores to the original |
| `Ollama.CheckModelAvailable` | summarize_with_ollama.py:60-88 | the loop answers `True` iff the service answers and some listed name contains the requested one or starts with it |
| `Ollama.ListedIsSubstring` | translate_with_ollama.py:74-76 | the `startswith` test adds nothing: a model is listed iff some listed name contains the requested one |
| `Ollama.TaggedModelFound` | src/summarize_with_ollama.py:75-78 | a tagged listing such as `llama3.2:latest` satisfies a request for `llama3.2` |
| `Ollama.CustomSummaryPrompt` | summarize_with_ollama.py:105-106 | a custom template written as fragments joined by `{text}` (no fragment, with the start of the next placeholder, forms a new `{text}`) becomes the same fragments joined by the text: every `{text}` is replaced and nothing else changes; an empty template gives the default prompt |
| `Ollama.CustomSummaryWithoutPlaceholder` | src/summarize_with_ollama.py:105-106 | a custom template without `{text}` is sent as it is |
| `Ollama.DefaultSummaryPromptFrame` | summarize_with_ollama.py:107-115 | the default prompt starts with the two instruction lines and ends with the whole text followed by `Summary:` |
| `Ollama.DefaultSummaryLimitLine` | summarize_with_ollama.py:110 | the third line is blank iff the word limit is absent or 0; otherwise it reads `Keep the summary under N words.` |
| `Ollama.Stripped` | summarize_with_ollama.py:120-133 | a failing call gives `None`; otherwise the value is the reply without surrounding whitespace, which stripping again leaves unchanged |
| `Ollama.DefaultTranslationPromptFrame` | translate_with_ollama.py:108-124 | the default prompt starts with the request line, which names the target, and ends with the whole text and `Translation in {target}:` |
| `Ollama.TranslationRequestNamesSource` | src/translate_with_ollama.py:108-124 | the request line names a source language (`... from X to Y.`) iff one is given |
| `Ollama.TargetPlaceholderInText` | translate_with_ollama.py:104-105 | `{text}` is filled first, so a `{target_lang}` inside the text is replaced by the target too |
| `Ollama.CustomTranslationPrompt` | translate_with_ollama.py:104-107 | a custom template made of literal pieces without `{` and the three placeholders, with values without `{`, becomes the same pieces with `{text}`, `{target_lang}` and, when a source is given, `{source_lang}` put in place; an empty template gives the default prompt |
| `Ollama.SourcePlaceholderOnlyWithSource` | translate_with_ollama.py:104-107 | for such a template holding `{source_lang}`, along with any of the other placeholders, the prompt has no `{` and no `{source_lang}` left when a source language is given, and still holds `{source_lang}` otherwise |
| `Ollama.OutputBase` | summarize_with_ollama.py:179-182 | one trailing `_sanitized` (ten characters) is removed from the stem when present; otherwise the stem is kept |
| `Ollama.OutputBaseStripsOnce` | src/summarize_with_ollama.py:179-184 | only one `_sanitized` goes: `a_sanitized_sanitized` gives `a_sanitized` |
| `Ollama.SafeLangSpec` | translate_with_ollama.py:200 | the language part of a file name has the target's length and each character lower-cased, with spaces turned into `_`; it has no space |
| `Ollama.OutputPathsDistinct` | src/translate_with_ollama.py:195-201 | the output files sit in the input's directory, and no two of the four summary and translation files coincide |
| `Ollama.SummarizeFile` | summarize_with_ollama.py:136-202 | a missing input or a failed summary gives `(None, None)` and writes nothing; otherwise the summary goes to `{base}_summary_sanitized.txt`, and a restored path comes back iff not kept sanitized, with the restored summary in `{base}_summary_restored.txt` |
| `Ollama.TranslateFile` | translate_with_ollama.py:144-219 | as for the summary, with a failed translation giving `(None, None)` and files named `{base}_translation_{safe_lang}_{sanitized,restored}.txt` |
| `GoogleTranslate.LanguageCodeRange` | src/auto_translate_google.py:59-68 | the code is always `auto`, the input lower-cased, or a value of the table |
| `GoogleTranslate.CodeShapedIsLowered` | src/auto_translate_google.py:63-64 | any code-shaped input (two characters, or five with a `-`) is lower-cased character by character and never looked up |
| `GoogleTranslate.CodesAreLowered` | src/auto_translate_google.py:63-64 | examples: `EN` gives `en`, and `zh-CN` gives `zh-cn` rather than the table's `zh-CN` |
| `GoogleTranslate.LanguageTableShape` | src/auto_translate_google.py:31-46 | the table's names are distinct and none is code-shaped |
| `GoogleTranslate.KnownNameGivesCode` | src/auto_translate_google.py:66-68 | any casing of a listed name gives that name's code |
| `GoogleTranslate.ChineseByName` | src/auto_translate_google.py:37 | any casing of `Chinese` gives `zh-CN` |
| `GoogleTranslate.DefaultLanguages` | src/auto_translate_google.py:245-283 | the default source `auto` and target `en` keep their codes and give the page address for `auto` to `en` |
| `GoogleTranslate.Translation` | src/auto_translate_google.py:206-224 | text read back is taken iff it is present, non-empty and different from the input, and the translation is then exactly that text; otherwise translation fails |
| `GoogleTranslate.AutoTranslatedPathDiffers` | src/auto_translate_google.py:298-303 | the default output `{stem}_autotranslated.txt` sits beside the input and is never the input |
| `GoogleTranslate.ProcessFile` | src/auto_translate_google.py:245-308 | exits when the input is missing, empty after stripping, or the translation fails, writing nothing; otherwise writes the (non-empty) translation to the output file |
| `Pipeline.Unpacked` | src/process_video_complete.py:91-99 | unpacking the transcriber's result succeeds iff it returned two paths |
| `Pipeline.CompletePipeline` | src/process_video_complete.py:52-233 | the step-by-step run, with its flags, returns the dictionary and leaves the files that `PipelineRun` describes |
| `Pipeline.NoResultsWhenTranscriptionFails` | src/process_video_complete.py:80-99 | the result is `None` iff the video is missing or transcription did not return two paths, and then nothing is written |
| `Pipeline.ResultKeys` | src/process_video_complete.py:91-226 | only the six result names occur; the two transcripts are always present; `summary_sanitized` iff a summary was obtained; `summary_restored` iff also not kept sanitized; the same for the translation; each with its fixed file |
| `Pipeline.StagesRunOnlyWhenReady` | src/process_video_complete.py:102-176 | a summary entry needs `skip_summary` unset and the service and model checks passing; a translation entry needs `translate_to` and the same checks, run again when the summary stage skipped them |
| `Pipeline.StageFilesDistinct` | src/process_video_complete.py:134-222 | the four stage files are pairwise distinct for every target language |
| `Pipeline.FilesWritten` | src/process_video_complete.py:134-222 | the summary, the restored summary, the translation and the restored translation land in their files; every other file is as it was |
| `Pipeline.OnlySanitizedContentMatters` | src/process_video_complete.py:113-196 | the generators see only the sanitized transcript: file systems agreeing on it give the same summary, translation and dictionary |
| `Pipeline.TranslationIndependentOfSummary` | src/process_video_complete.py:165-233 | when the summary files do not overwrite the sanitized transcript, the translation entries do not depend on skipping, prompting or failing the summary |
| `Pipeline.SummaryIndependentOfTranslation` | src/process_video_complete.py:102-163 | the summary entries do not depend on the translation settings or outcome |
| `Pipeline.ExitCodeOfPipeline` | src/process_video_complete.py:357-387 | `main` exits with 0 iff the video exists and the transcriber returned two paths |
| `Pipeline.BooleanTranscriberAlwaysFails` | src/process_video_complete.py:92 | as written, a transcriber returning a boolean makes every run return `None` and exit with 1 |
| `Pipeline.PathsTranscriberFeedsSanitizedText` | src/process_video_complete.py:113-128 | with the transcriber returning its two paths, the run completes and the summarizer gets the stripped sanitized transcript, which holds no casing of any pattern |
| `LegacyPipeline.CallReverseSanitize` | reverse_sanitize.py:57 | the restorer takes exactly one argument: a call with any other count raises |
| `LegacyPipeline.LegacyCompletePipeline` | process_video_complete.py:51-160 | the step-by-step run returns the dictionary and leaves the files that `LegacyRun` describes |
| `LegacyPipeline.LegacyNeverRestores` | process_video_complete.py:141-158 | as written, `summary_restored` never appears; the dictionary holds the transcripts and, iff a summary was obtained, `summary_sanitized`; only the sanitized summary is written |
| `LegacyPipeline.LegacyExitCode` | process_video_complete.py:248-274 | `main` exits with 0 iff the video exists and the transcriber returned two paths |
| `LegacyPipeline.CorrectedCallRestores` | src/process_video_complete.py:146-159 | the newer pipeline, asked for no translation, returns the older one's dictionary plus `summary_restored` exactly when a summary was obtained and not kept sanitized |

## Left out

- WhisperX and torch are not modelled: model loading, audio decoding, transcription, alignment
  and the GPU check. The recogniser is a parameter: the segment texts, or `None` when any of
  these steps raised.
- The Ollama calls are not modelled. `ollama.list()` is the `Service` value;
  `check_ollama_service` is its `up` flag. `ollama.generate` is the `Generator` function.
- The pipelines assume the service does not change during a run. The newer pipeline repeats its
  checks before translating, and under this assumption the repeat gives the same answer.
- The Selenium session in `translate_with_google` is a `Browser` function giving the text read
  back. It covers the driver, the selector retry loops, the sleeps, the clipboard and the
  screenshots. The direct read from the page and the clipboard read both apply the same
  acceptance rule, which `GoogleTranslate.Translation` models once.
- The warning for texts over 5000 characters only prints, so it is not modelled.
- General regular expressions are not modelled: patterns and rewrites are literal strings. The
  email and phone patterns in `confidential_terms.py` are commented out.
- Full Unicode case folding and the full Unicode `\w` table are not modelled:
  - `Chars.Lower` covers ASCII, Latin-1, Latin Extended-A, the two Vietnamese letters of Latin
    Extended-B (Ơ, Ư), Latin Extended Additional, and basic Greek and Cyrillic;
  - `Chars.IsWordChar` is the matching subset of `\w`;
  - other characters fold to themselves and count as non-word characters.
- Console output, the `argparse` entry points, the banners and step numbers, and the FFmpeg path
  set-up are not modelled. The `ImportError` fallbacks are not modelled either: the term map is
  passed as a parameter, and each fallback equals the default map.
- File input and output are a map from path to content. Reads fail only when the path is
  absent. Writes always succeed; partial writes and encodings are not modelled.
- The pipelines' `except` around the stages is reached only through a missing sanitized
  transcript. A write failure inside a stage is not modelled.
- `Pipeline.CompletePipeline` takes the files as the transcriber leaves them. A transcriber that
  raises after writing a file is modelled by the files it leaves.
- The pipelines' `transcribe_video` is taken to be the one in `main.py`.
- `GoogleTranslate.ProcessFile`: an empty `output_file` string is treated by the source like no
  output file. The model's optional path has no empty-string case.
- `Restorer.ProcessSanitizedFile`: the general `except` that turns a read or write error into
  `False` is not modelled, nor is the listing of restored terms it prints.
- The test scripts are not modelled. They re-implement sanitize and restore and print results;
  the model uses one of them only as the source of the example text in `RoundTrip.DefaultExample`.
- `re.sub` treats its replacement string as a template: backslash escapes and group references
  in it are expanded. The model inserts the code (`main.py:67`) and the display term
  (`reverse_sanitize.py:76`) literally, so it takes codes and display terms to be free of
  backslashes. The default ones are.
- `Ollama.CustomSummaryPrompt` takes the template already split into fragments at its `{text}`
  placeholders. `{text}` cannot overlap itself, so every template splits this way (`{{text}` and
  `{text}}` included), but no lemma states that the split exists.
- `Ollama.CustomTranslationPrompt` and `Ollama.SourcePlaceholderOnlyWithSource` cover templates
  built from literal pieces without `{` and the three placeholders, with a text, target and source
  that hold no `{`. A `{` elsewhere can join with later characters into a placeholder; that case is
  modelled by `Ollama.TranslationPrompt` but not stated by these lemmas.
  `Ollama.TargetPlaceholderInText` shows one such case.
- The advanced rewrites are never reversed: `Restorer.Restored` takes the term map alone, as
  `reverse_sanitize.py` imports `ADVANCED_PATTERNS` without using it. This is a fact of the
  signature, so no lemma states it.

## Findings

| source | as written | input that shows it | evidently intended | confidence | as-written member | corrected member |
|---|---|---|---|---|---|---|
| src/process_video_complete.py:92 | both pipelines unpack `original_txt, sanitized_txt` from `transcribe_video(...)` (also `process_video_complete.py:87`), which returns `True` or `False` (`main.py:154`, `main.py:88-92`); unpacking a boolean raises `TypeError`, so the pipeline returns `None` | any existing video that transcribes successfully (`ReturnedBool(true)`) | `transcribe_video` hands back the two transcript paths it wrote | not executed | `Pipeline.BooleanTranscriberAlwaysFails` | `Transcription.TranscribeVideoPaths` |
| process_video_complete.py:145 | the older pipeline restores with `reverse_sanitize_text(summary, reverse_map)`, but the function takes one parameter (`reverse_sanitize.py:57`); the `TypeError` is caught at lines 156-158, so `summary_restored` is never produced | any run that obtains a summary with `keep_sanitized` false | restore with the one-argument call, as `src/process_video_complete.py:150` does | not executed | `LegacyPipeline.LegacyNeverRestores` | `LegacyPipeline.CorrectedCallRestores` |
