/** `FileConverter.convert_file` and its per-category strategies, and
    `batch_convert`.  Every strategy is a function from the environment and
    the filesystem to the record of the run it makes. */
module Converter {
  import opened Results
  import opened Paths
  import opened Registry
  import opened Effects
  import opened Progress
  import opened Documents
  import opened Archive

  /** The image save `_convert_photo` performs: a "jpg" target is saved under
      the imaging library's format name "jpeg", after conversion to RGB. */
  function PhotoSave(input: string, output: string, target: string): (call: Call)
    ensures call.ImageSave? && call.input == input && call.output == output
    ensures call.toRgb <==> target == "jpg"
    ensures call.format != "jpg"
    ensures target != "jpg" ==> call.format == target
  {
    if target == "jpg" then ImageSave(input, output, "jpeg", true)
    else ImageSave(input, output, target, false)
  }

  /** `_convert_photo`: one image save, which either returns or raises. */
  function ConvertPhoto(env: Env, fs: Fs, input: string, output: string, target: string): (r: Run)
    ensures r.calls == [PhotoSave(input, output, target)] && r.reports == [] && r.fs == fs
    ensures r.outcome == Pass <==> env.completes(PhotoSave(input, output, target))
    ensures CallsOf(r, Photos)
  {
    var call := PhotoSave(input, output, target);
    Run([call], [], fs, LibraryOutcome(env, call))
  }

  /** Asking for "jpeg" saves under that name without an RGB conversion: only
      the spelling "jpg" triggers it. */
  lemma JpegTargetIsNotConverted(input: string, output: string)
    ensures PhotoSave(input, output, "jpeg") == ImageSave(input, output, "jpeg", false)
    ensures PhotoSave(input, output, "jpg") == ImageSave(input, output, "jpeg", true)
  {
  }

  /** `_convert_video`: probe the duration, start the transcoder with its
      error stream piped, turn every marker line into a callback (when a
      callback is present), and raise on a non-zero exit status. */
  function ConvertVideo(env: Env, fs: Fs, input: string, output: string, target: string, callback: bool): (r: Run)
    ensures r.fs == fs && CallsOf(r, Videos)
    ensures |r.calls| >= 1 && r.calls[0] == Probe(input)
    ensures env.duration(input).None? ==>
              r == Run([Probe(input)], [], fs, Fail(CallFailed(Probe(input))))
    ensures env.duration(input).Some? ==>
              r.calls == [Probe(input), VideoTranscode(input, output, target)]
    // one callback per marker line, carrying the marker's seconds over the
    // duration; none without a callback
    ensures r.reports != [] ==> callback && env.duration(input).Some?
    ensures callback && env.duration(input).Some? &&
            env.process(VideoTranscode(input, output, target)).Exited? ==>
              |r.reports| == |Markers(env.stderr(VideoTranscode(input, output, target)))| &&
              forall k :: 0 <= k < |r.reports| ==>
                r.reports[k] == Markers(env.stderr(VideoTranscode(input, output, target)))[k] as real
                                / env.duration(input).value
    // the run passes exactly when the probe works, the transcoder starts
    // and it exits with status zero
    ensures r.outcome == Pass <==>
              env.duration(input).Some? && env.process(VideoTranscode(input, output, target)) == Exited(0)
    ensures env.duration(input).Some? && env.process(VideoTranscode(input, output, target)).Exited? &&
            env.process(VideoTranscode(input, output, target)).code != 0 ==>
              r.outcome == Fail(FfmpegExitStatus(env.process(VideoTranscode(input, output, target)).code))
  {
    var probe := Probe(input);
    match env.duration(input)
    case None => Run([probe], [], fs, Fail(CallFailed(probe)))
    case Some(duration) =>
      var transcode := VideoTranscode(input, output, target);
      match env.process(transcode)
      case NotLaunched => Run([probe, transcode], [], fs, Fail(ProgramMissing(transcode)))
      case Exited(code) =>
        var lines := env.stderr(transcode);
        ReportsScaleMarkers(lines, duration);
        Run([probe, transcode], if callback then Reports(lines, duration) else [], fs,
            if code != 0 then Fail(FfmpegExitStatus(code)) else Pass)
  }

  /** A failing transcoder still reports the progress it announced before
      it exited: the callbacks come before the status check. */
  lemma FailingTranscodeStillReports(env: Env, fs: Fs, input: string, output: string, target: string)
    requires env.duration(input).Some?
    requires env.process(VideoTranscode(input, output, target)).Exited?
    requires env.process(VideoTranscode(input, output, target)).code != 0
    ensures ConvertVideo(env, fs, input, output, target, true).outcome.Fail?
    ensures ConvertVideo(env, fs, input, output, target, true).reports ==
              Reports(env.stderr(VideoTranscode(input, output, target)), env.duration(input).value)
  {
  }

  /** `_convert_vector`: without inkscape on the search path the conversion
      raises before any process runs; otherwise inkscape runs once, its exit
      status unchecked, and the target format plays no part. */
  function ConvertVector(env: Env, fs: Fs, input: string, output: string, target: string): (r: Run)
    ensures r.reports == [] && r.fs == fs && CallsOf(r, Vectors)
    ensures r.calls == [] <==> !env.inkscapeOnPath
    ensures r.outcome == Fail(InkscapeMissing) <==> !env.inkscapeOnPath
    ensures env.inkscapeOnPath ==> r.calls == [Inkscape(input, output)]
    ensures env.inkscapeOnPath ==> (r.outcome == Pass <==> env.process(Inkscape(input, output)).Exited?)
  {
    if !env.inkscapeOnPath then Run([], [], fs, Fail(InkscapeMissing))
    else
      var call := Inkscape(input, output);
      match env.process(call)
      case NotLaunched => Run([call], [], fs, Fail(ProgramMissing(call)))
      case Exited(_) => Run([call], [], fs, Pass)
  }

  /** The target format is ignored by the vector strategy. */
  lemma VectorIgnoresTarget(env: Env, fs: Fs, input: string, output: string, t1: string, t2: string)
    ensures ConvertVector(env, fs, input, output, t1) == ConvertVector(env, fs, input, output, t2)
  {
  }

  /** `_convert_audio`: one transcoder run with the target passed as the
      output format unchanged; a non-zero exit raises `ffmpeg.Error`. */
  function ConvertAudio(env: Env, fs: Fs, input: string, output: string, target: string): (r: Run)
    ensures r.reports == [] && r.fs == fs && CallsOf(r, Audio)
    ensures r.calls == [AudioTranscode(input, output, target)]
    ensures r.outcome == Pass <==> env.process(AudioTranscode(input, output, target)) == Exited(0)
    ensures env.process(AudioTranscode(input, output, target)).NotLaunched? ==>
              r.outcome == Fail(ProgramMissing(AudioTranscode(input, output, target)))
    ensures env.process(AudioTranscode(input, output, target)).Exited? &&
            env.process(AudioTranscode(input, output, target)).code != 0 ==>
              r.outcome == Fail(ProgramFailed(AudioTranscode(input, output, target),
                                              env.process(AudioTranscode(input, output, target)).code))
  {
    var call := AudioTranscode(input, output, target);
    match env.process(call)
    case NotLaunched => Run([call], [], fs, Fail(ProgramMissing(call)))
    case Exited(code) =>
      Run([call], [], fs, if code == 0 then Pass else Fail(ProgramFailed(call, code)))
  }

  /** `_convert_ebook`: one ebook-convert run with status checking; a
      non-zero exit is re-raised as a `RuntimeError` naming both paths,
      while a missing program propagates as it is. */
  function ConvertEbook(env: Env, fs: Fs, input: string, output: string, target: string): (r: Run)
    ensures r.reports == [] && r.fs == fs && CallsOf(r, Ebooks)
    ensures r.calls == [EbookConvert(input, output)]
    ensures r.outcome == Pass <==> env.process(EbookConvert(input, output)) == Exited(0)
    ensures env.process(EbookConvert(input, output)).NotLaunched? ==>
              r.outcome == Fail(ProgramMissing(EbookConvert(input, output)))
    ensures env.process(EbookConvert(input, output)).Exited? &&
            env.process(EbookConvert(input, output)).code != 0 ==>
              r.outcome == Fail(EbookConversionFailed(input, output))
  {
    var call := EbookConvert(input, output);
    match env.process(call)
    case NotLaunched => Run([call], [], fs, Fail(ProgramMissing(call)))
    case Exited(code) =>
      Run([call], [], fs, if code == 0 then Pass else Fail(EbookConversionFailed(input, output)))
  }

  /** The failed-ebook error carries a message naming the input and the
      output path. */
  lemma FailedEbookNamesBothPaths(env: Env, fs: Fs, input: string, output: string, target: string)
    requires env.process(EbookConvert(input, output)).Exited?
    requires env.process(EbookConvert(input, output)).code != 0
    ensures ConvertEbook(env, fs, input, output, target).outcome.Fail?
    ensures var m := Message(ConvertEbook(env, fs, input, output, target).outcome.error);
            m.Some? && Contains(m.value, input) && Contains(m.value, output)
  {
    EbookMessageNamesBothPaths(input, output);
  }

  /** The strategy of a category.  Whatever it raises, it is not the
      unsupported-file-type error; only videos report progress, and only
      archives change the filesystem. */
  function Strategy(c: Category, env: Env, fs: Fs, input: string, output: string, target: string, callback: bool): (r: Run)
    ensures CallsOf(r, c)
    ensures r.outcome != Fail(UnsupportedFileType)
    ensures r.reports != [] ==> c == Videos && callback
    ensures r.fs != fs ==> c == Archives
    ensures c == Documents ==> r == ConvertDocument(env, fs, input, output, target)
  {
    match c
    case Photos => ConvertPhoto(env, fs, input, output, target)
    case Videos => ConvertVideo(env, fs, input, output, target, callback)
    case Vectors => ConvertVector(env, fs, input, output, target)
    case Audio => ConvertAudio(env, fs, input, output, target)
    case Documents => ConvertDocument(env, fs, input, output, target)
    case Archives => ConvertArchive(env, fs, input, output, target)
    case Ebooks => ConvertEbook(env, fs, input, output, target)
  }

  /** `convert_file`: the category of the input selects exactly one
      strategy; an unclassified input raises before any call. */
  function ConvertFile(env: Env, fs: Fs, input: string, output: string, target: string, callback: bool): (r: Run)
    ensures GetFileType(input).None? ==> r == Run([], [], fs, Fail(UnsupportedFileType))
    ensures GetFileType(input).Some? ==> r == Strategy(GetFileType(input).value, env, fs, input, output, target, callback)
    ensures r.outcome == Fail(UnsupportedFileType) <==> GetFileType(input).None?
    ensures r.reports != [] ==> GetFileType(input) == Some(Videos) && callback
    ensures r.fs != fs ==> GetFileType(input) == Some(Archives)
  {
    var kind := GetFileType(input);
    if kind.None? then Run([], [], fs, Fail(UnsupportedFileType))
    else Strategy(kind.value, env, fs, input, output, target, callback)
  }

  /** Converting a text file to an unknown format raises the document
      strategy's `ValueError`, naming ".txt" and the target, before any
      call. */
  lemma TextToUnknownIsRejected(env: Env, fs: Fs, root: string, output: string)
    requires NamedComponent(root)
    ensures ConvertFile(env, fs, root + ".txt", output, "unknown", false) ==
              Run([], [], fs, Fail(UnsupportedDocumentConversion(".txt", "unknown")))
  {
    TextFileIsDocument(root);
  }

  /** The stem of a path: its base name without the last extension. */
  function Stem(input: string): (r: string)
    ensures '/' !in r
    ensures Basename(input) == r + Ext(Basename(input))
  {
    var (root, _) := SplitExt(Basename(input));
    assert forall c :: c in root ==> c in Basename(input);
    root
  }

  /** The output path `batch_convert` and the window derive: the input's
      stem with the target as its extension, inside the output directory. */
  function OutputPath(dir: string, input: string, target: string): (r: string)
    ensures EndsWith(r, Stem(input) + "." + target)
    ensures StartsWith(r, dir)
  {
    var stem := Stem(input);
    var name := stem + "." + target;
    assert name[0] != '/' by {
      if stem != [] {
        assert name[0] == stem[0] && stem[0] in stem;
      }
    }
    assert name[..1] != "/" by {
      assert name[..1][0] == name[0];
    }
    Join(dir, name)
  }

  /** The derived output lies directly in the output directory, is named
      after the input's stem and the target, and classifies by the target:
      its current format is the lower-cased target. */
  lemma OutputPathNaming(dir: string, input: string, target: string)
    requires '/' !in target && '.' !in target
    requires HasNonDot(Stem(input), 0, |Stem(input)|)
    ensures Basename(OutputPath(dir, input, target)) == Stem(input) + "." + target
    ensures CurrentFormat(OutputPath(dir, input, target)) == Lower(target)
  {
    CurrentFormatOfJoin(dir, Stem(input), target);
  }

  /** What one attempt of a batch did: the input, the output it was
      converted to, and the run. */
  datatype Attempt = Attempt(input: string, output: string, run: Run)

  /** The filesystem the attempt at index `k` starts from: the one the
      previous attempt left, or the initial one. */
  function Before(fs: Fs, attempts: seq<Attempt>, k: nat): Fs
    requires k <= |attempts|
  {
    if k == 0 then fs else attempts[k - 1].run.fs
  }

  /** The loop of `batch_convert`, over any conversion `convert` from a
      starting filesystem, an input and an output, and any naming
      `outputOf`: inputs are converted in list order, each to its output,
      and the first exception ends the batch. */
  method RunBatch(convert: (Fs, string, string) -> Run, outputOf: string -> string, fs: Fs, inputs: seq<string>)
    returns (final: Fs, attempts: seq<Attempt>, outcome: Outcome<Error>)
    ensures |attempts| <= |inputs|
    ensures forall k :: 0 <= k < |attempts| ==>
              attempts[k].input == inputs[k] &&
              attempts[k].output == outputOf(inputs[k]) &&
              attempts[k].run == convert(Before(fs, attempts, k), inputs[k], attempts[k].output)
    // every attempt but a failing last one passed ...
    ensures forall k :: 0 <= k < |attempts| - 1 ==> attempts[k].run.outcome == Pass
    // ... a failure ends the batch and is its outcome ...
    ensures outcome.Fail? ==> |attempts| >= 1 && attempts[|attempts| - 1].run.outcome == outcome
    // ... and otherwise every input was attempted and passed
    ensures outcome == Pass ==>
              |attempts| == |inputs| && forall k :: 0 <= k < |attempts| ==> attempts[k].run.outcome == Pass
    ensures final == Before(fs, attempts, |attempts|)
  {
    final := fs;
    attempts := [];
    outcome := Pass;
    var i := 0;
    while i < |inputs|
      invariant 0 <= i <= |inputs| && |attempts| == i
      invariant forall k :: 0 <= k < i ==>
                  attempts[k].input == inputs[k] &&
                  attempts[k].output == outputOf(inputs[k]) &&
                  attempts[k].run == convert(Before(fs, attempts, k), inputs[k], attempts[k].output)
      invariant forall k :: 0 <= k < i ==> attempts[k].run.outcome == Pass
      invariant final == Before(fs, attempts, i)
    {
      var output := outputOf(inputs[i]);
      var run := convert(final, inputs[i], output);
      var done := attempts;
      attempts := done + [Attempt(inputs[i], output, run)];
      forall k | 0 <= k <= i
        ensures attempts[k].input == inputs[k]
        ensures attempts[k].output == outputOf(inputs[k])
        ensures attempts[k].run == convert(Before(fs, attempts, k), inputs[k], attempts[k].output)
        ensures k < i ==> attempts[k].run.outcome == Pass
      {
        assert Before(fs, attempts, k) == Before(fs, done, k);
        if k < i {
          assert attempts[k] == done[k];
        } else {
          assert attempts[k] == Attempt(inputs[i], output, run);
        }
      }
      final := run.fs;
      if run.outcome.Fail? {
        outcome := run.outcome;
        return;
      }
      i := i + 1;
    }
  }

  /** `convert_file` as `batch_convert` calls it: without a progress
      callback. */
  function FileConversion(env: Env, target: string): (Fs, string, string) -> Run
  {
    (before, input, output) => ConvertFile(env, before, input, output, target, false)
  }

  /** The naming `batch_convert` uses: `output_dir/stem.target`. */
  function NamingIn(dir: string, target: string): string -> string
  {
    input => OutputPath(dir, input, target)
  }

  /** `batch_convert`. */
  method BatchConvert(env: Env, fs: Fs, inputs: seq<string>, dir: string, target: string)
    returns (final: Fs, attempts: seq<Attempt>, outcome: Outcome<Error>)
    ensures |attempts| <= |inputs|
    ensures forall k :: 0 <= k < |attempts| ==>
              attempts[k].input == inputs[k] &&
              attempts[k].output == NamingIn(dir, target)(inputs[k]) &&
              attempts[k].run == FileConversion(env, target)(Before(fs, attempts, k), inputs[k], attempts[k].output)
    ensures forall k :: 0 <= k < |attempts| - 1 ==> attempts[k].run.outcome == Pass
    ensures outcome.Fail? ==> |attempts| >= 1 && attempts[|attempts| - 1].run.outcome == outcome
    ensures outcome == Pass ==>
              |attempts| == |inputs| && forall k :: 0 <= k < |attempts| ==> attempts[k].run.outcome == Pass
    ensures final == Before(fs, attempts, |attempts|)
  {
    final, attempts, outcome := RunBatch(FileConversion(env, target), NamingIn(dir, target), fs, inputs);
  }
}
