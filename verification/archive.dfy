/** The archive strategy of `FileConverter`: create `temp_extract` beside
    the output, extract the input into it by the input's suffix, repack it
    by the target format, and remove the directory tree on every exit
    path after it was created. */
module Archive {
  import opened Results
  import opened Paths
  import opened Registry
  import opened Effects

  const TempName: string := "temp_extract"

  /** The extraction directory.  It depends only on the output's directory:
      it is shared by every archive conversion into that directory. */
  function TempDir(output: string): string
  {
    Join(Dirname(output), TempName)
  }

  /** Whether path `e` is `dir` or lies below it. */
  predicate InTree(e: string, dir: string)
  {
    e == dir || StartsWith(e, dir + "/")
  }

  /** A successful `shutil.rmtree(dir)`: the directory and everything below
      it disappear, and nothing else does. */
  function RemoveTreeFs(fs: Fs, dir: string): (r: Fs)
    ensures forall e :: e in r.entries <==> e in fs.entries && !InTree(e, dir)
  {
    Fs(set e | e in fs.entries && !InTree(e, dir))
  }

  /** Python's `p[:-4]`: all but the last four characters, "" when the path
      is shorter than that. */
  function DropLastFour(p: string): (r: string)
    ensures |p| >= 4 ==> |r| == |p| - 4 && p == r + p[|p| - 4..]
    ensures |p| < 4 ==> r == []
  {
    if |p| >= 4 then p[..|p| - 4] else []
  }

  /** The extraction the input's suffix selects; None for any other suffix,
      which skips extraction without an error. */
  function ExtractCall(input: string, dir: string): (r: Option<Call>)
    ensures r.Some? ==> IsExtraction(r.value) && StrategyOf(r.value) == Archives
    ensures r.Some? ==> r.value.input == input && r.value.dir == dir
  {
    match ExtractorOf(input)
    case TarFile => Some(TarExtract(input, dir))
    case ZipFile => Some(ZipExtract(input, dir))
    case RarTool => Some(Unrar(input, dir))
    case SevenZipTool => Some(SevenZipExtract(input, dir))
    case NoExtractor => None
  }

  /** The extractors `_convert_archive` chooses between: `tarfile`,
      `zipfile`, the unrar program, the 7z program, or none. */
  datatype Extractor = TarFile | ZipFile | RarTool | SevenZipTool | NoExtractor

  /** The extractor the input's suffix selects, in the order
      `_convert_archive` tests the suffixes; the tests are case-sensitive.
      ExtractCallBySuffix shows that the order never decides. */
  function ExtractorOf(input: string): Extractor
  {
    if EndsWith(input, ".tar") || EndsWith(input, ".gz") || EndsWith(input, ".bz2") then TarFile
    else if EndsWith(input, ".zip") then ZipFile
    else if EndsWith(input, ".rar") then RarTool
    else if EndsWith(input, ".7z") then SevenZipTool
    else NoExtractor
  }

  /** The six suffixes exclude each other, so the order of the tests never
      decides: each suffix selects its own extraction call, whatever
      precedes it, and an input with none of them is not extracted. */
  lemma ExtractCallBySuffix(input: string, dir: string)
    ensures EndsWith(input, ".tar") || EndsWith(input, ".gz") || EndsWith(input, ".bz2") <==>
              ExtractCall(input, dir) == Some(TarExtract(input, dir))
    ensures EndsWith(input, ".zip") <==> ExtractCall(input, dir) == Some(ZipExtract(input, dir))
    ensures EndsWith(input, ".rar") <==> ExtractCall(input, dir) == Some(Unrar(input, dir))
    ensures EndsWith(input, ".7z") <==> ExtractCall(input, dir) == Some(SevenZipExtract(input, dir))
    ensures ExtractCall(input, dir).None? <==>
              !EndsWith(input, ".tar") && !EndsWith(input, ".gz") && !EndsWith(input, ".bz2") &&
              !EndsWith(input, ".zip") && !EndsWith(input, ".rar") && !EndsWith(input, ".7z")
  {
    ExtractorBySuffix(input);
  }

  lemma ExtractorBySuffix(input: string)
    ensures ExtractorOf(input) == TarFile <==>
              EndsWith(input, ".tar") || EndsWith(input, ".gz") || EndsWith(input, ".bz2")
    ensures ExtractorOf(input) == ZipFile <==> EndsWith(input, ".zip")
    ensures ExtractorOf(input) == RarTool <==> EndsWith(input, ".rar")
    ensures ExtractorOf(input) == SevenZipTool <==> EndsWith(input, ".7z")
  {
    SuffixesExclude(input);
  }

  /** A string that ends with `sfx` holds its characters in its last
      positions. */
  lemma EndsWithChars(s: string, sfx: string)
    ensures EndsWith(s, sfx) ==> forall j :: 0 <= j < |sfx| ==> s[|s| - |sfx| + j] == sfx[j]
  {
    if EndsWith(s, sfx) {
      forall j | 0 <= j < |sfx|
        ensures s[|s| - |sfx| + j] == sfx[j]
      {
        assert s[|s| - |sfx|..][j] == sfx[j];
      }
    }
  }

  /** No string ends with two of the extractor suffixes (".tar", ".gz",
      ".bz2", ".zip", ".rar", ".7z") from different extractors. */
  lemma SuffixesExclude(s: string)
    ensures EndsWith(s, ".zip") ==>
              !EndsWith(s, ".tar") && !EndsWith(s, ".gz") && !EndsWith(s, ".bz2") &&
              !EndsWith(s, ".rar") && !EndsWith(s, ".7z")
    ensures EndsWith(s, ".rar") ==>
              !EndsWith(s, ".tar") && !EndsWith(s, ".gz") && !EndsWith(s, ".bz2") && !EndsWith(s, ".7z")
    ensures EndsWith(s, ".7z") ==> !EndsWith(s, ".tar") && !EndsWith(s, ".gz") && !EndsWith(s, ".bz2")
  {
    EndsWithChars(s, ".tar");
    EndsWithChars(s, ".gz");
    EndsWithChars(s, ".bz2");
    EndsWithChars(s, ".zip");
    EndsWithChars(s, ".rar");
    EndsWithChars(s, ".7z");
  }

  /** Classification lower-cases the extension but the extractor tests do
      not: a `*.ZIP` input is an archive that no extractor reads, so its
      conversion repacks an extraction directory nothing was written to. */
  lemma UpperCaseZipIsNotExtracted(root: string, dir: string)
    ensures ExtractCall(root + ".ZIP", dir) == None
    ensures NamedComponent(root) ==> GetFileType(root + ".ZIP") == Some(Archives)
  {
    var p := root + ".ZIP";
    assert p[|p| - 1] == 'P';
    NoLowerSuffix(p);
    ExtractCallBySuffix(p, dir);
    if NamedComponent(root) {
      UpperCaseZipClassifies(root);
    }
  }

  /** An input ending in 'P' has none of the extractor suffixes. */
  lemma NoLowerSuffix(p: string)
    requires |p| > 0 && p[|p| - 1] == 'P'
    ensures !EndsWith(p, ".tar") && !EndsWith(p, ".gz") && !EndsWith(p, ".bz2")
    ensures !EndsWith(p, ".zip") && !EndsWith(p, ".rar") && !EndsWith(p, ".7z")
  {
    EndsWithChars(p, ".tar");
    EndsWithChars(p, ".gz");
    EndsWithChars(p, ".bz2");
    EndsWithChars(p, ".zip");
    EndsWithChars(p, ".rar");
    EndsWithChars(p, ".7z");
  }


  /** Whether ".." is a whole component of `n` starting at index `i`. */
  predicate ParentAt(n: string, i: int)
  {
    && 0 <= i && i + 2 <= |n| && n[i] == '.' && n[i + 1] == '.'
    && (i == 0 || n[i - 1] == '/') && (i + 2 == |n| || n[i + 2] == '/')
  }

  /** Whether a member name stays inside the directory it is extracted
      into: non-empty, relative, and without a ".." component. */
  predicate Contained(n: string)
  {
    n != [] && n[0] != '/' && forall i :: 0 <= i < |n| ==> !ParentAt(n, i)
  }

  /** Names that are absolute or start by climbing out are not contained:
      the extractors are given no filter against them. */
  lemma EscapingNamesAreNotContained(x: string)
    ensures !Contained("/" + x)
    ensures !Contained("../" + x)
    ensures !Contained("..")
  {
    assert ParentAt("../" + x, 0);
    assert ParentAt("..", 0);
  }

  /** Where extracting the member named `n` writes it: below `dir` for a
      contained name, wherever the extractor puts it otherwise. */
  function MemberPath(env: Env, call: Call, dir: string, n: string): (r: string)
    ensures Contained(n) ==> r == dir + "/" + n && InTree(r, dir)
    ensures !Contained(n) ==> r == env.placement(call, n)
  {
    if Contained(n) then
      var r := dir + "/" + n;
      assert r[..|dir + "/"|] == dir + "/";
      r
    else env.placement(call, n)
  }

  /** Whether extraction call `call` wrote path `e` for one of its members
      whose name is not contained. */
  predicate Escaped(env: Env, call: Call, e: string)
  {
    exists n :: n in env.extracted(call) && !Contained(n) && env.placement(call, n) == e
  }

  /** The filesystem after extraction call `call` into `dir` wrote its
      members. */
  function AddUnder(env: Env, call: Call, fs: Fs, dir: string): (r: Fs)
    ensures fs.entries <= r.entries
    ensures forall n :: n in env.extracted(call) ==> MemberPath(env, call, dir, n) in r.entries
    // a path that appears lies below the directory, unless a member name
    // that is not contained put it there
    ensures forall e :: e in r.entries && e !in fs.entries ==> InTree(e, dir) || Escaped(env, call, e)
    ensures (forall n :: n in env.extracted(call) ==> Contained(n)) ==>
              forall e :: e in r.entries && e !in fs.entries ==> InTree(e, dir)
  {
    var added := set n | n in env.extracted(call) :: MemberPath(env, call, dir, n);
    Fs(fs.entries + added)
  }

  /** The repacking call the target format selects; None for an unsupported
      target. */
  function RepackCall(output: string, target: string, dir: string): (r: Option<Call>)
    ensures r.Some? <==> target in FormatsOf(Archives)
    ensures r.Some? ==> !IsExtraction(r.value) && StrategyOf(r.value) == Archives
    ensures r.Some? ==> WrittenPath(r.value).Some?
    // rar and 7z write the output path itself
    ensures target == "rar" || target == "7z" ==> WrittenPath(r.value) == Some(output)
  {
    if target == "zip" then Some(MakeArchive(DropLastFour(output), "zip", dir))
    else if target == "tar" || target == "gz" then Some(MakeArchive(DropLastFour(output), "gztar", dir))
    else if target == "rar" then Some(RarAdd(output, dir))
    else if target == "7z" then Some(SevenZipAdd(output, dir + "/*"))
    else None
  }

  /** The file a repacking call creates when it succeeds:
      `shutil.make_archive` appends the extension of its format to the base. */
  function WrittenPath(call: Call): (r: Option<string>)
    ensures IsExtraction(call) ==> r.None?
    // the programs write the output they are given
    ensures call.RarAdd? || call.SevenZipAdd? ==> r == Some(call.output)
    // `make_archive` writes a file for the two formats the converter asks
    // for, named after its base with the format's extension appended
    ensures call.MakeArchive? ==> (r.Some? <==> call.format == "zip" || call.format == "gztar")
    ensures call.MakeArchive? && r.Some? ==>
              StartsWith(r.value, call.base) && EndsWith(r.value, if call.format == "zip" then ".zip" else ".tar.gz")
  {
    match call
    case MakeArchive(base, format, _) =>
      if format == "zip" then
        SuffixOccurs(base, ".zip");
        Some(base + ".zip")
      else if format == "gztar" then
        SuffixOccurs(base, ".tar.gz");
        Some(base + ".tar.gz")
      else None
    case RarAdd(output, _) => Some(output)
    case SevenZipAdd(output, _) => Some(output)
    case _ => None
  }

  /** Whether a call runs an external program (`subprocess.run` without
      `check`) rather than a library. */
  predicate IsSubprocess(call: Call)
  {
    call.Unrar? || call.SevenZipExtract? || call.RarAdd? || call.SevenZipAdd?
  }

  predicate IsExtraction(call: Call)
  {
    call.TarExtract? || call.ZipExtract? || call.Unrar? || call.SevenZipExtract?
  }

  /** How a step of the workflow ends: it raises, or it completes, having
      done its work or (a program that exited non-zero, whose status is not
      checked) not. */
  datatype Step = Raised(error: Error) | Completed(didWork: bool)

  function Perform(env: Env, call: Call): (r: Step)
    // a library call raises exactly when it does not complete, and never
    // completes without its work
    ensures !IsSubprocess(call) ==> (r.Raised? <==> !env.completes(call)) && r != Completed(false)
    // a program raises only when it cannot be started: its exit status is
    // not checked, and a non-zero exit completes without the work
    ensures IsSubprocess(call) ==> (r.Raised? <==> env.process(call).NotLaunched?)
    ensures IsSubprocess(call) && env.process(call).Exited? ==> r == Completed(env.process(call).code == 0)
    ensures r.Raised? ==> r.error == CallFailed(call) || r.error == ProgramMissing(call)
  {
    if IsSubprocess(call) then
      match env.process(call)
      case NotLaunched => Raised(ProgramMissing(call))
      case Exited(code) => Completed(code == 0)
    else if env.completes(call) then Completed(true)
    else Raised(CallFailed(call))
  }

  /** Where a stage of the workflow leaves things: the calls it made, the
      filesystem, and the error it raised, if any. */
  datatype Stage = Stage(calls: seq<Call>, fs: Fs, error: Option<Error>)

  /** The extraction stage: only paths below `dir`, or those of members
      whose names are not contained, can appear. */
  function ExtractStage(env: Env, fs: Fs, input: string, dir: string): (s: Stage)
    ensures s.error != Some(UnsupportedFileType)
    ensures forall k :: 0 <= k < |s.calls| ==> IsExtraction(s.calls[k]) && StrategyOf(s.calls[k]) == Archives
    ensures ExtractCall(input, dir).None? ==> s == Stage([], fs, None)
    ensures fs.entries <= s.fs.entries
    ensures forall e :: e in s.fs.entries && e !in fs.entries ==>
              InTree(e, dir) || (ExtractCall(input, dir).Some? && Escaped(env, ExtractCall(input, dir).value, e))
  {
    var ec := ExtractCall(input, dir);
    if ec.None? then Stage([], fs, None)
    else
      var call := ec.value;
      match Perform(env, call)
      case Raised(error) => Stage([call], fs, Some(error))
      case Completed(didWork) =>
        Stage([call], if didWork then AddUnder(env, call, fs, dir) else fs, None)
  }

  /** The repacking stage: only the archive it writes can appear, and an
      unsupported target raises without any call. */
  function RepackStage(env: Env, fs: Fs, output: string, target: string, dir: string): (s: Stage)
    ensures s.error != Some(UnsupportedFileType)
    ensures |s.calls| <= 1
    ensures forall k :: 0 <= k < |s.calls| ==> !IsExtraction(s.calls[k]) && StrategyOf(s.calls[k]) == Archives
    ensures RepackCall(output, target, dir).None? ==>
              s == Stage([], fs, Some(UnsupportedArchiveFormat(target)))
    ensures fs.entries <= s.fs.entries
    ensures forall e :: e in s.fs.entries && e !in fs.entries ==>
              s.error.None? && RepackCall(output, target, dir).Some? &&
              WrittenPath(RepackCall(output, target, dir).value) == Some(e)
  {
    match RepackCall(output, target, dir)
    case None => Stage([], fs, Some(UnsupportedArchiveFormat(target)))
    case Some(call) =>
      match Perform(env, call)
      case Raised(error) => Stage([call], fs, Some(error))
      case Completed(didWork) =>
        Stage([call], if didWork && WrittenPath(call).Some? then Fs(fs.entries + {WrittenPath(call).value}) else fs, None)
  }

  /** Extraction followed, when it did not raise, by repacking: everything
      the workflow does between creating the directory and removing it. */
  function Workflow(env: Env, fs: Fs, input: string, output: string, target: string, dir: string): (s: Stage)
    ensures s.error != Some(UnsupportedFileType)
    ensures forall k :: 0 <= k < |s.calls| ==> StrategyOf(s.calls[k]) == Archives
    ensures fs.entries <= s.fs.entries
    ensures forall e :: e in s.fs.entries && e !in fs.entries ==>
              InTree(e, dir) ||
              (ExtractCall(input, dir).Some? && Escaped(env, ExtractCall(input, dir).value, e)) ||
              (s.error.None? && RepackCall(output, target, dir).Some? &&
               WrittenPath(RepackCall(output, target, dir).value) == Some(e))
    ensures ExtractCall(input, dir).None? ==> forall k :: 0 <= k < |s.calls| ==> !IsExtraction(s.calls[k])
    // a raising extraction ends the workflow before any repacking
    ensures ExtractStage(env, fs, input, dir).error.Some? ==> s == ExtractStage(env, fs, input, dir)
  {
    var extracted := ExtractStage(env, fs, input, dir);
    if extracted.error.Some? then extracted
    else
      var repacked := RepackStage(env, extracted.fs, output, target, dir);
      var calls := extracted.calls + repacked.calls;
      assert forall k :: 0 <= k < |extracted.calls| ==> calls[k] == extracted.calls[k];
      assert forall k :: |extracted.calls| <= k < |calls| ==> calls[k] == repacked.calls[k - |extracted.calls|];
      Stage(calls, repacked.fs, repacked.error)
  }

  /** What follows the workflow once the directory exists: the removal of
      the tree is attempted whether the workflow raised or not, and the
      workflow's error, if any, propagates.  The removal swallows its own
      errors: when it fails the filesystem keeps what the workflow left and
      the outcome is unchanged. */
  function Finish(env: Env, dir: string, w: Stage): (r: Run)
    requires w.error != Some(UnsupportedFileType)
    requires forall k :: 0 <= k < |w.calls| ==> StrategyOf(w.calls[k]) == Archives
    ensures r.reports == [] && CallsOf(r, Archives)
    ensures r.outcome != Fail(UnsupportedFileType)
    ensures r.outcome == Pass <==> w.error.None?
    ensures r.calls == [MakeDirs(dir)] + w.calls + [RemoveTree(dir)]
    ensures env.completes(RemoveTree(dir)) ==>
              forall e :: e in r.fs.entries <==> e in w.fs.entries && !InTree(e, dir)
    ensures !env.completes(RemoveTree(dir)) ==> r.fs == w.fs
  {
    var calls := [MakeDirs(dir)] + w.calls + [RemoveTree(dir)];
    assert forall k :: 1 <= k < |calls| - 1 ==> calls[k] == w.calls[k - 1];
    Run(calls, [], if env.completes(RemoveTree(dir)) then RemoveTreeFs(w.fs, dir) else w.fs,
        if w.error.Some? then Fail(w.error.value) else Pass)
  }

  /** The archive workflow around a given extraction directory. */
  function ArchiveIn(env: Env, fs: Fs, input: string, output: string, target: string, dir: string): (r: Run)
    ensures r.reports == [] && CallsOf(r, Archives)
    ensures r.outcome != Fail(UnsupportedFileType)
    ensures |r.calls| >= 1 && r.calls[0] == MakeDirs(dir)
    // once the directory exists its removal is the last call on every exit
    // path; the tree is gone when the removal succeeds, and the directory
    // stays behind, silently, when it does not
    ensures env.completes(MakeDirs(dir)) ==> r.calls[|r.calls| - 1] == RemoveTree(dir)
    ensures env.completes(MakeDirs(dir)) && env.completes(RemoveTree(dir)) ==>
              forall e :: e in r.fs.entries ==> !InTree(e, dir)
    ensures env.completes(MakeDirs(dir)) && !env.completes(RemoveTree(dir)) ==> dir in r.fs.entries
    ensures !env.completes(MakeDirs(dir)) ==>
              r == Run([MakeDirs(dir)], [], fs, Fail(CallFailed(MakeDirs(dir))))
  {
    var mk := MakeDirs(dir);
    if !env.completes(mk) then Run([mk], [], fs, Fail(CallFailed(mk)))
    else Finish(env, dir, Workflow(env, Fs(fs.entries + {dir}), input, output, target, dir))
  }

  /** The workflow's effect on the filesystem: nothing outside the
      extraction directory disappears, and a path that appears is the
      repacked archive of a successful conversion, a path written for a
      member whose name is not contained, or a leftover of a failed
      removal. */
  lemma ArchiveFilesystemEffect(env: Env, fs: Fs, input: string, output: string, target: string, dir: string)
    ensures var r := ArchiveIn(env, fs, input, output, target, dir);
            forall e :: e in fs.entries && !InTree(e, dir) ==> e in r.fs.entries
    ensures var r := ArchiveIn(env, fs, input, output, target, dir);
            forall e :: e in r.fs.entries && e !in fs.entries ==>
              (r.outcome == Pass && RepackCall(output, target, dir).Some? &&
               WrittenPath(RepackCall(output, target, dir).value) == Some(e)) ||
              (ExtractCall(input, dir).Some? && Escaped(env, ExtractCall(input, dir).value, e)) ||
              (!env.completes(RemoveTree(dir)) && InTree(e, dir))
  {
    if env.completes(MakeDirs(dir)) {
      var w := Workflow(env, Fs(fs.entries + {dir}), input, output, target, dir);
      assert ArchiveIn(env, fs, input, output, target, dir) == Finish(env, dir, w);
    }
  }

  /** When every member name is contained and the removal succeeds, the
      only path a conversion can leave behind is its repacked archive. */
  lemma ContainedMembersLeaveOnlyTheArchive(env: Env, fs: Fs, input: string, output: string, target: string, dir: string)
    requires ExtractCall(input, dir).Some? ==>
               forall n :: n in env.extracted(ExtractCall(input, dir).value) ==> Contained(n)
    requires env.completes(RemoveTree(dir))
    ensures var r := ArchiveIn(env, fs, input, output, target, dir);
            forall e :: e in r.fs.entries && e !in fs.entries ==>
              r.outcome == Pass && RepackCall(output, target, dir).Some? &&
              WrittenPath(RepackCall(output, target, dir).value) == Some(e)
  {
    ArchiveFilesystemEffect(env, fs, input, output, target, dir);
    if ExtractCall(input, dir).Some? {
      var call := ExtractCall(input, dir).value;
      assert forall e :: !Escaped(env, call, e);
    }
  }

  /** An input suffix without an extractor makes no extraction call. */
  lemma NoExtractorNoExtraction(env: Env, fs: Fs, input: string, output: string, target: string, dir: string)
    requires ExtractCall(input, dir).None?
    ensures var r := ArchiveIn(env, fs, input, output, target, dir);
            forall k :: 0 <= k < |r.calls| ==> !IsExtraction(r.calls[k])
  {
    if env.completes(MakeDirs(dir)) {
      var w := Workflow(env, Fs(fs.entries + {dir}), input, output, target, dir);
      assert ArchiveIn(env, fs, input, output, target, dir).calls == [MakeDirs(dir)] + w.calls + [RemoveTree(dir)];
      NoExtractionAround(dir, w.calls);
    }
  }

  /** Creating and removing the directory are not extractions. */
  lemma NoExtractionAround(dir: string, calls: seq<Call>)
    requires forall k :: 0 <= k < |calls| ==> !IsExtraction(calls[k])
    ensures var all := [MakeDirs(dir)] + calls + [RemoveTree(dir)];
            forall k :: 0 <= k < |all| ==> !IsExtraction(all[k])
  {
    var all := [MakeDirs(dir)] + calls + [RemoveTree(dir)];
    assert forall k :: 1 <= k < |all| - 1 ==> all[k] == calls[k - 1];
  }

  /** `_convert_archive`: the workflow around `temp_extract` beside the
      output. */
  function ConvertArchive(env: Env, fs: Fs, input: string, output: string, target: string): Run
  {
    ArchiveIn(env, fs, input, output, target, TempDir(output))
  }

  /** An unsupported target is only noticed after extraction: the input is
      extracted, nothing is repacked, the directory is removed and the error
      names the target. */
  lemma UnsupportedTargetAfterExtraction(env: Env, fs: Fs, input: string, output: string, target: string, dir: string)
    requires env.completes(MakeDirs(dir))
    requires RepackCall(output, target, dir).None?
    requires ExtractStage(env, Fs(fs.entries + {dir}), input, dir).error.None?
    ensures ArchiveIn(env, fs, input, output, target, dir).outcome == Fail(UnsupportedArchiveFormat(target))
    ensures ArchiveIn(env, fs, input, output, target, dir).calls ==
              [MakeDirs(dir)] + ExtractStage(env, Fs(fs.entries + {dir}), input, dir).calls + [RemoveTree(dir)]
  {
    var ex := ExtractStage(env, Fs(fs.entries + {dir}), input, dir);
    var w := Workflow(env, Fs(fs.entries + {dir}), input, output, target, dir);
    assert w.calls == ex.calls + [];
  }

  /** A suffix with no extractor (".xz", say) skips extraction silently. */
  lemma XzIsNotExtracted(root: string, dir: string)
    ensures ExtractCall(root + ".xz", dir) == None
  {
    var p := root + ".xz";
    assert p[|p| - 3..] == ".xz";
    assert !EndsWith(p, ".gz") && !EndsWith(p, ".7z");
    assert !EndsWith(p, ".tar") && !EndsWith(p, ".bz2") && !EndsWith(p, ".zip") && !EndsWith(p, ".rar") by {
      if |p| >= 4 {
        assert p[|p| - 4..][1..] == ".xz";
      }
    }
  }

  /** A ".zip" output is written under its own name. */
  lemma ZipOutputKeepsItsName(base: string, dir: string)
    ensures RepackCall(base + ".zip", "zip", dir).Some?
    ensures WrittenPath(RepackCall(base + ".zip", "zip", dir).value) == Some(base + ".zip")
  {
    assert DropLastFour(base + ".zip") == base;
  }

  /** A ".tar" output is written as ".tar.gz": the name gains a suffix. */
  lemma TarOutputGainsGz(base: string, dir: string)
    ensures WrittenPath(RepackCall(base + ".tar", "tar", dir).value) == Some(base + ".tar.gz")
  {
    assert DropLastFour(base + ".tar") == base;
  }

  /** A ".gz" output loses the last character of its stem: four characters
      are dropped for a three-character suffix before ".tar.gz" is added. */
  lemma GzOutputLosesAStemCharacter(base: string, dir: string)
    requires |base| >= 1
    ensures WrittenPath(RepackCall(base + ".gz", "gz", dir).value) ==
              Some(base[..|base| - 1] + ".tar.gz")
  {
    var p := base + ".gz";
    assert DropLastFour(p) == base[..|base| - 1];
  }

  /** The extraction directory of an output written into `dir` is
      `dir/temp_extract`, whatever the output's name: every archive
      conversion into one directory extracts into the same place. */
  lemma TempDirIsBesideOutput(dir: string, name: string)
    requires '/' !in name
    requires dir != [] && dir[|dir| - 1] != '/'
    ensures TempDir(dir + "/" + name) == dir + "/" + TempName
  {
    var p := dir + "/" + name;
    RFindAppend(dir + "/", name, '/');
    RFindAt(dir + "/", '/', |dir|);
    assert p == (dir + "/") + name;
    var head := p[..|dir| + 1];
    assert head == dir + "/";
    assert head[|head| - 1] == '/' && head[..|head| - 1] == dir;
    assert !AllSeparators(head) by {
      assert head[|dir| - 1] != '/';
    }
    assert StripTrailingSeparators(head) == dir;
    assert Dirname(p) == dir;
  }
}
