/**
 * `transcribe_video` in `main.py`, past the speech recogniser: the segment texts are joined
 * line by line, the stripped transcript is written to the output file, and, when asked,
 * the stripped sanitized transcript to `{stem}_sanitized{suffix}` in the current directory.
 */
module Transcription {
  import opened Wrappers
  import opened Strings
  import opened Paths
  import opened Substitution
  import opened ConfidentialTerms
  import opened Sanitizer

  /** Each segment's text followed by a newline. */
  function JoinSegments(segments: seq<string>): string
    decreases |segments|
  {
    if segments == [] then ""
    else JoinSegments(segments[..|segments| - 1]) + segments[|segments| - 1] + "\n"
  }

  /** Joining distributes over concatenation of segment lists. */
  lemma {:induction false} JoinAppend(a: seq<string>, b: seq<string>)
    ensures JoinSegments(a + b) == JoinSegments(a) + JoinSegments(b)
    decreases |b|
  {
    if b == [] {
      assert a + b == a;
    } else {
      var b' := b[..|b| - 1];
      assert (a + b)[..|a + b| - 1] == a + b';
      assert (a + b)[|a + b| - 1] == b[|b| - 1];
      JoinAppend(a, b');
    }
  }

  /** A single segment becomes one newline-terminated line. */
  lemma JoinOne(segment: string)
    ensures JoinSegments([segment]) == segment + "\n"
  {
    assert [segment][..0] == [];
  }

  /** Where the original transcript goes: the given path, or `{stem}.txt` in the current directory. */
  function TranscriptPath(video: Path, output: Option<Path>): Path {
    if output.Some? then output.value else Path("", Stem(video) + ".txt")
  }

  /** Where the sanitized transcript goes: `{stem}_sanitized{suffix}` in the current directory. */
  function SanitizedTranscriptPath(out: Path): Path {
    Path("", Stem(out) + "_sanitized" + Suffix(out))
  }

  /** The sanitized transcript never overwrites the original one. */
  lemma SanitizedPathDiffers(out: Path)
    ensures SanitizedTranscriptPath(out) != out
  {
    StemSuffixSplit(out);
    assert |SanitizedTranscriptPath(out).name| == |out.name| + 10;
  }

  /** For a video `name.ext`, the default outputs are `name.txt` and `name_sanitized.txt`. */
  lemma DefaultTranscriptNames(video: Path)
    requires Stem(video) != ""
    ensures TranscriptPath(video, None) == Path("", Stem(video) + ".txt")
    ensures SanitizedTranscriptPath(TranscriptPath(video, None)) == Path("", Stem(video) + "_sanitized.txt")
  {
    StemOfExtension("", Stem(video), "txt");
    assert Stem(video) + ".txt" == Stem(video) + "." + "txt";
  }

  /**
   * `transcribe_video`.  `recognised` is what the recogniser produced: the segment texts, or
   * `None` when loading, decoding, transcribing or aligning raised.  The result is the boolean
   * the function returns, with the files it leaves behind.
   */
  method TranscribeVideo(fs: FileSystem, video: Path, output: Option<Path>, sanitize: bool,
                         recognised: Option<seq<string>>, terms: TermMap, rewrites: Rewrites)
    returns (ok: bool, fs': FileSystem)
    ensures video !in fs ==> !ok && fs' == fs
    ensures video in fs && recognised.None? ==> !ok && fs' == fs
    ensures video in fs && recognised.Some? ==> ok
    ensures video in fs && recognised.Some? ==>
      var out := TranscriptPath(video, output);
      var text := JoinSegments(recognised.value);
      var written := fs[out := Strip(text)];
      fs' == if sanitize then written[SanitizedTranscriptPath(out) := Strip(Sanitized(text, terms, rewrites))]
             else written
  {
    if video !in fs {
      return false, fs;
    }
    var out := TranscriptPath(video, output);
    if recognised.None? {
      return false, fs;
    }
    var segments := recognised.value;
    var text := "";
    for i := 0 to |segments|
      invariant text == JoinSegments(segments[..i])
    {
      assert segments[..i + 1][..i] == segments[..i];
      text := text + segments[i] + "\n";
    }
    assert segments[..|segments|] == segments;
    fs' := fs[out := Strip(text)];
    if sanitize {
      var sanitized := SanitizeText(text, terms, rewrites);
      fs' := fs'[SanitizedTranscriptPath(out) := Strip(sanitized)];
    }
    ok := true;
  }

  /**
   * What the pipelines expect of `transcribe_video`: the paths of the two transcripts it wrote,
   * or `None` when it failed.  The function itself returns only a boolean (`True` on success).
   */
  method TranscribeVideoPaths(fs: FileSystem, video: Path, recognised: Option<seq<string>>,
                              terms: TermMap, rewrites: Rewrites)
    returns (paths: Option<(Path, Path)>, fs': FileSystem)
    ensures paths.Some? <==> video in fs && recognised.Some?
    ensures paths.None? ==> fs' == fs
    ensures paths.Some? ==>
      var text := JoinSegments(recognised.value);
      paths.value == (TranscriptPath(video, None), SanitizedTranscriptPath(TranscriptPath(video, None)))
      && paths.value.0 != paths.value.1
      && paths.value.0 in fs' && fs'[paths.value.0] == Strip(text)
      && paths.value.1 in fs' && fs'[paths.value.1] == Strip(Sanitized(text, terms, rewrites))
  {
    var ok;
    ok, fs' := TranscribeVideo(fs, video, None, true, recognised, terms, rewrites);
    if ok {
      var out := TranscriptPath(video, None);
      SanitizedPathDiffers(out);
      paths := Some((out, SanitizedTranscriptPath(out)));
    } else {
      paths := None;
    }
  }

  /** The sanitized transcript file holds no casing of any pattern when no code can rebuild one. */
  lemma SanitizedTranscriptHasNoTerm(segments: seq<string>, terms: TermMap, rewrites: Rewrites)
    requires CodesNeverClash(terms, rewrites)
    ensures forall i :: 0 <= i < |terms| ==>
      FreeOf(Strip(Sanitized(JoinSegments(segments), terms, rewrites)), terms[i].0)
  {
    var s := Sanitized(JoinSegments(segments), terms, rewrites);
    SanitizedHasNoTerm(JoinSegments(segments), terms, rewrites);
    StripIsMiddle(s);
    forall i | 0 <= i < |terms|
      ensures FreeOf(Strip(s), terms[i].0)
    {
      FreeOfSlice(s, |s| - |StripLeft(s)|, |s| - |StripLeft(s)| + |Strip(s)|, terms[i].0);
    }
  }
}
