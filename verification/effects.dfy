/** The world the converter acts on, kept abstract: the external calls it
    makes (codec libraries, subprocesses, filesystem helpers), what each of
    them does (`Env`), the errors it raises and the record of one run. */
module Effects {
  import opened Results
  import opened Registry
  import opened Paths

  /** A probed media duration in seconds; the model takes it as positive. */
  type Duration = d: real | d > 0.0 witness 1.0

  /** One external call, with the arguments the converter passes to it. */
  datatype Call =
    // photos: Image.open, optional convert("RGB"), save(format=...)
    | ImageSave(input: string, output: string, format: string, toRgb: bool)
    // videos: ffmpeg.probe, then ffmpeg.run_async with stderr piped
    | Probe(input: string)
    | VideoTranscode(input: string, output: string, format: string)
    // vectors: the inkscape program
    | Inkscape(input: string, output: string)
    // audio: ffmpeg.run with an explicit output format
    | AudioTranscode(input: string, output: string, format: string)
    // documents
    | DocxResave(input: string, output: string)
    | ReadText(input: string)
    | DrawPdf(output: string, text: string)
    | ReadPdfPages(input: string)
    | ReadDocxParagraphs(input: string)
    | WriteText(output: string, content: string)
    // archives
    | MakeDirs(dir: string)
    | TarExtract(input: string, dir: string)
    | ZipExtract(input: string, dir: string)
    | Unrar(input: string, dir: string)
    | SevenZipExtract(input: string, dir: string)
    | MakeArchive(base: string, format: string, dir: string)
    | RarAdd(output: string, dir: string)
    | SevenZipAdd(output: string, pattern: string)
    | RemoveTree(dir: string)
    // ebooks: the ebook-convert program
    | EbookConvert(input: string, output: string)

  /** The category whose strategy makes a call. */
  function StrategyOf(call: Call): Category
  {
    match call
    case ImageSave(_, _, _, _) => Photos
    case Probe(_) => Videos
    case VideoTranscode(_, _, _) => Videos
    case Inkscape(_, _) => Vectors
    case AudioTranscode(_, _, _) => Audio
    case DocxResave(_, _) => Documents
    case ReadText(_) => Documents
    case DrawPdf(_, _) => Documents
    case ReadPdfPages(_) => Documents
    case ReadDocxParagraphs(_) => Documents
    case WriteText(_, _) => Documents
    case MakeDirs(_) => Archives
    case TarExtract(_, _) => Archives
    case ZipExtract(_, _) => Archives
    case Unrar(_, _) => Archives
    case SevenZipExtract(_, _) => Archives
    case MakeArchive(_, _, _) => Archives
    case RarAdd(_, _) => Archives
    case SevenZipAdd(_, _) => Archives
    case RemoveTree(_) => Archives
    case EbookConvert(_, _) => Ebooks
  }

  /** How a subprocess ended: it could not be started (the program is not
      installed), or it exited with a status code. */
  datatype ProcessResult = NotLaunched | Exited(code: int)

  /** The behaviour of everything outside the converter, as oracles. */
  datatype Env = Env(
    /** whether `shutil.which("inkscape")` finds the program */
    inkscapeOnPath: bool,
    /** whether an in-process library call returns normally; for the tree
        removal, which swallows its errors, whether it removed the tree */
    completes: Call -> bool,
    /** how a subprocess call ends */
    process: Call -> ProcessResult,
    /** the duration `ffmpeg.probe` reports for an input, None when the probe
        raises or the first stream carries no duration */
    duration: string -> Option<Duration>,
    /** the lines a transcoding process writes to its error stream */
    stderr: Call -> seq<string>,
    /** the contents of a text file, None when it cannot be read */
    text: string -> Option<string>,
    /** the extracted text of each page of a PDF, None when it cannot be read */
    pages: string -> Option<seq<string>>,
    /** the text of each paragraph of a DOCX, None when it cannot be read */
    paragraphs: string -> Option<seq<string>>,
    /** the member names an extraction call writes, as stored in the archive */
    extracted: Call -> seq<string>,
    /** where an extraction call writes a member whose name is absolute or
        climbs out with "..": the model does not resolve such names */
    placement: (Call, string) -> string)

  /** Every exception the converter lets escape. */
  datatype Error =
    | UnsupportedFileType                                               // ValueError
    | UnsupportedDocumentConversion(inputExt: string, target: string)   // ValueError
    | UnsupportedArchiveFormat(target: string)                          // ValueError
    | InkscapeMissing                                                   // RuntimeError
    | EbookConversionFailed(input: string, output: string)              // RuntimeError
    | FfmpegExitStatus(code: int)                                       // Exception
    | CallFailed(call: Call)           // raised inside a library call
    | ProgramMissing(call: Call)       // a subprocess could not be started
    | ProgramFailed(call: Call, code: int)   // ffmpeg.Error for a non-zero exit

  /** The outcome of an in-process library call: it returns, or its
      exception propagates. */
  function LibraryOutcome(env: Env, call: Call): Outcome<Error>
  {
    if env.completes(call) then Pass else Fail(CallFailed(call))
  }

  /** The set of paths that exist. */
  datatype Fs = Fs(entries: set<string>)

  /** The observable record of one operation: the external calls made, in
      order; the values passed to the progress callback, in order; the
      filesystem afterwards; and whether it returned or raised. */
  datatype Run = Run(calls: seq<Call>, reports: seq<real>, fs: Fs, outcome: Outcome<Error>)

  /** Whether every external call of a run belongs to category `c`'s strategy. */
  predicate CallsOf(r: Run, c: Category)
  {
    forall k :: 0 <= k < |r.calls| ==> StrategyOf(r.calls[k]) == c
  }

  predicate IsDigit(c: char)
  {
    '0' <= c <= '9'
  }

  predicate AllDigits(s: string)
  {
    forall i :: 0 <= i < |s| ==> IsDigit(s[i])
  }

  /** Decimal digits of a natural number, as `str(n)` writes them. */
  function NatString(n: nat): (r: string)
    ensures |r| >= 1 && AllDigits(r)
    decreases n
  {
    if n < 10 then [('0' as int + n) as char]
    else NatString(n / 10) + [('0' as int + n % 10) as char]
  }

  /** The number a string of decimal digits denotes. */
  function DigitsValue(s: string): nat
    requires AllDigits(s)
    decreases |s|
  {
    if |s| == 0 then 0
    else
      DigitsValue(s[..|s| - 1]) * 10 + (s[|s| - 1] as int - '0' as int)
  }

  /** Reading back the digits `str(n)` writes gives n. */
  lemma {:induction false} NatStringRoundTrip(n: nat)
    ensures DigitsValue(NatString(n)) == n
  {
    if n >= 10 {
      var s := NatString(n);
      assert s[..|s| - 1] == NatString(n / 10);
      NatStringRoundTrip(n / 10);
    }
  }

  /** `str(code)` for an integer, with a leading minus sign when negative. */
  function IntString(n: int): string
  {
    if n < 0 then "-" + NatString(-n) else NatString(n)
  }

  /** The message of the exceptions the converter raises itself; None for
      those whose text comes from a library or the operating system. */
  function Message(e: Error): (r: Option<string>)
    ensures r.None? <==> e.CallFailed? || e.ProgramMissing? || e.ProgramFailed?
  {
    match e
    case UnsupportedFileType => Some("Unsupported file type: None")
    case UnsupportedDocumentConversion(ext, target) =>
      Some("Unsupported document conversion: " + ext + " to " + target)
    case UnsupportedArchiveFormat(target) => Some("Unsupported archive format: " + target)
    case InkscapeMissing => Some("Inkscape is required for vector conversions but is not installed.")
    case EbookConversionFailed(input, output) =>
      Some("Failed to convert ebook from " + input + " to " + output)
    case FfmpegExitStatus(code) => Some("ffmpeg process failed with return code: " + IntString(code))
    case _ => None
  }

  /** Whether `sub` occurs in `s` starting at index `i`. */
  predicate OccursAt(s: string, sub: string, i: int)
  {
    0 <= i && i + |sub| <= |s| && s[i..i + |sub|] == sub
  }

  /** Whether `sub` occurs somewhere in `s` (Python's `sub in s`). */
  ghost predicate Contains(s: string, sub: string)
  {
    exists i :: OccursAt(s, sub, i)
  }

  /** The unsupported-document message names both the input's extension and
      the requested target. */
  lemma UnsupportedDocumentMessageNamesBoth(ext: string, target: string)
    ensures Message(UnsupportedDocumentConversion(ext, target)).Some?
    ensures Contains(Message(UnsupportedDocumentConversion(ext, target)).value, ext)
    ensures Contains(Message(UnsupportedDocumentConversion(ext, target)).value, target)
  {
    var head := "Unsupported document conversion: ";
    var m := head + ext + " to " + target;
    assert m[|head|..|head| + |ext|] == ext;
    assert OccursAt(m, ext, |head|);
    assert m[|m| - |target|..] == target;
    assert OccursAt(m, target, |m| - |target|);
  }

  /** The ebook failure message names both paths. */
  lemma EbookMessageNamesBothPaths(input: string, output: string)
    ensures Message(EbookConversionFailed(input, output)).Some?
    ensures Contains(Message(EbookConversionFailed(input, output)).value, input)
    ensures Contains(Message(EbookConversionFailed(input, output)).value, output)
  {
    var head := "Failed to convert ebook from ";
    var m := head + input + " to " + output;
    assert m[|head|..|head| + |input|] == input;
    assert OccursAt(m, input, |head|);
    assert m[|m| - |output|..] == output;
    assert OccursAt(m, output, |m| - |output|);
  }

  /** A concatenation starts with its first part, and ends with and
      contains its second. */
  lemma SuffixOccurs(a: string, t: string)
    ensures StartsWith(a + t, a) && EndsWith(a + t, t) && Contains(a + t, t)
  {
    var m := a + t;
    assert m[..|a|] == a;
    assert m[|m| - |t|..] == t;
    assert OccursAt(m, t, |m| - |t|);
  }

  /** The ffmpeg failure message ends with the return code as `str` writes
      it, a minus sign first for a process killed by a signal, and the code
      can be read back from it. */
  lemma FfmpegMessageCarriesCode(code: int)
    ensures Message(FfmpegExitStatus(code)).Some?
    ensures EndsWith(Message(FfmpegExitStatus(code)).value, IntString(code))
    ensures Contains(Message(FfmpegExitStatus(code)).value, IntString(code))
    ensures code >= 0 ==> AllDigits(IntString(code)) && DigitsValue(IntString(code)) == code
    ensures code < 0 ==> IntString(code)[0] == '-' && AllDigits(IntString(code)[1..]) &&
                         DigitsValue(IntString(code)[1..]) == -code
  {
    var t := IntString(code);
    var m := "ffmpeg process failed with return code: " + t;
    assert Message(FfmpegExitStatus(code)) == Some(m);
    SuffixOccurs("ffmpeg process failed with return code: ", t);
    if code >= 0 {
      NatStringRoundTrip(code);
    } else {
      assert t[1..] == NatString(-code);
      NatStringRoundTrip(-code);
    }
  }
}
