/** The pure parts of the converter window: which dropped files are
    accepted, which targets a file's card offers and preselects, and the
    conversion loop that runs every card in turn, reporting progress and
    errors as events. */
module Window {
  import opened Results
  import opened Paths
  import opened Registry
  import opened Effects
  import opened Converter

  /** `get_supported_extensions`: every listed format, lower-cased, with a
      leading dot. */
  function SupportedExtensions(): (r: set<string>)
    ensures forall c, f :: f in FormatsOf(c) ==> "." + Lower(f) in r
    ensures forall e :: e in r ==> exists c, f :: f in FormatsOf(c) && e == "." + Lower(f)
  {
    var r := set i, f | 0 <= i < |Order| && f in FormatsOf(Order[i]) :: "." + Lower(f);
    assert forall c, f :: f in FormatsOf(c) ==> "." + Lower(f) in r by {
      forall c, f | f in FormatsOf(c) ensures "." + Lower(f) in r {
        assert Order[Rank(c)] == c;
      }
    }
    r
  }

  /** `is_supported_file`: the path itself when its lower-cased last
      extension, dot included, is one of `extensions`. */
  function IsSupportedFile(p: string, extensions: set<string>): (r: Option<string>)
    ensures r.Some? ==> r.value == p
    ensures r.Some? <==> Lower(Ext(p)) in extensions
  {
    if Lower(Ext(p)) in extensions then Some(p) else None
  }

  /** The window accepts exactly the files the converter can classify: the
      two lookups, one through dotted lower-cased extensions and one through
      the registry, agree on every path. */
  lemma SupportedIffClassified(p: string)
    ensures IsSupportedFile(p, SupportedExtensions()).Some? <==> GetFileType(p).Some?
  {
    var ext := Ext(p);
    var cur := CurrentFormat(p);
    if ext == [] {
      assert cur == [];
      forall c ensures cur !in FormatsOf(c) {
        CategoryIsLowerCase(c);
      }
      assert Lower(ext) !in SupportedExtensions();
    } else {
      assert ext == "." + DropFirst(ext);
      LowerAppend(".", DropFirst(ext));
      assert Lower(".") == ".";
      assert Lower(ext) == "." + cur;
      if GetFileType(p).Some? {
        var c := GetFileType(p).value;
        FormatsAreLowerCase(c, cur);
        assert "." + Lower(cur) in SupportedExtensions();
      }
      if Lower(ext) in SupportedExtensions() {
        var c, f :| f in FormatsOf(c) && Lower(ext) == "." + Lower(f);
        FormatsAreLowerCase(c, f);
        assert cur == ("." + cur)[1..] == ("." + f)[1..] == f;
        assert cur in FormatsOf(c);
      }
    }
  }

  predicate Distinct(s: seq<string>)
  {
    forall i, j :: 0 <= i < j < |s| ==> s[i] != s[j]
  }

  /** No category lists a format twice. */
  lemma FormatsAreDistinct(c: Category)
    ensures Distinct(FormatsOf(c))
  {
    match c
    case Photos =>
    case Videos =>
    case Vectors =>
    case Audio =>
    case Documents =>
    case Archives =>
    case Ebooks =>
  }

  /** The list comprehension that drops every occurrence of `x`, keeping
      the order of the rest. */
  function Without(s: seq<string>, x: string): (r: seq<string>)
    ensures forall y :: y in r <==> y in s && y != x
    ensures |r| <= |s|
    decreases |s|
  {
    if |s| == 0 then []
    else if s[0] == x then Without(s[1..], x)
    else [s[0]] + Without(s[1..], x)
  }

  /** Dropping a value that does not occur changes nothing. */
  lemma {:induction false} WithoutAbsent(s: seq<string>, x: string)
    requires x !in s
    ensures Without(s, x) == s
    decreases |s|
  {
    if |s| > 0 {
      assert s[0] != x;
      assert x !in s[1..];
      WithoutAbsent(s[1..], x);
      assert s == [s[0]] + s[1..];
    }
  }

  /** In a list without repetitions, dropping the value at index `i`
      removes exactly that entry and keeps the rest in order. */
  lemma {:induction false} WithoutOnce(s: seq<string>, x: string, i: nat)
    requires Distinct(s) && i < |s| && s[i] == x
    ensures Without(s, x) == s[..i] + s[i + 1..]
    decreases |s|
  {
    if i == 0 {
      assert x !in s[1..] by {
        forall j | 0 <= j < |s[1..]| ensures s[1..][j] != x {
          assert s[1..][j] == s[j + 1];
        }
      }
      WithoutAbsent(s[1..], x);
    } else {
      assert s[0] != x;
      var t := s[1..];
      assert Distinct(t) by {
        forall a, b | 0 <= a < b < |t| ensures t[a] != t[b] {
          assert t[a] == s[a + 1] && t[b] == s[b + 1];
        }
      }
      assert t[i - 1] == x;
      WithoutOnce(t, x, i - 1);
      assert t[..i - 1] + t[i..] == s[1..i] + s[i + 1..];
      assert [s[0]] + s[1..i] == s[..i];
    }
  }

  /** The targets a file's card offers: its category's formats without its
      own current format. */
  function OfferedTargets(p: string): (r: seq<string>)
    ensures CurrentFormat(p) !in r
    ensures forall f :: f in r ==> f in TargetFormats(GetFileType(p))
  {
    Without(TargetFormats(GetFileType(p)), CurrentFormat(p))
  }

  /** A classified file is offered every other format of its category, in
      the registry's order, exactly once each: the list is its category's
      list with its own format cut out. */
  lemma OfferedTargetsOfClassified(p: string)
    requires GetFileType(p).Some?
    ensures var formats := FormatsOf(GetFileType(p).value);
            exists i :: 0 <= i < |formats| && formats[i] == CurrentFormat(p) &&
              OfferedTargets(p) == formats[..i] + formats[i + 1..]
    ensures |OfferedTargets(p)| == |FormatsOf(GetFileType(p).value)| - 1 >= 2
  {
    var formats := FormatsOf(GetFileType(p).value);
    FormatsAreDistinct(GetFileType(p).value);
    var i :| 0 <= i < |formats| && formats[i] == CurrentFormat(p);
    WithoutOnce(formats, CurrentFormat(p), i);
  }

  /** An unclassified file is offered nothing. */
  lemma OfferedTargetsOfUnclassified(p: string)
    requires GetFileType(p).None?
    ensures OfferedTargets(p) == []
  {
  }

  /** The target a card preselects: the first offered one, if any. */
  function DefaultTarget(p: string): (r: Option<string>)
    ensures r.Some? ==> r.value in OfferedTargets(p)
    ensures r.None? <==> OfferedTargets(p) == []
  {
    var offered := OfferedTargets(p);
    if offered == [] then None else Some(offered[0])
  }

  /** Every classified file gets a preselected target: its category's
      first format, or the second one when the file already has the
      first.  An unclassified file gets none. */
  lemma DefaultTargetChoice(p: string)
    ensures GetFileType(p).None? ==> DefaultTarget(p) == None
    ensures GetFileType(p).Some? ==>
              var formats := FormatsOf(GetFileType(p).value);
              DefaultTarget(p) == Some(if formats[0] == CurrentFormat(p) then formats[1] else formats[0])
    ensures DefaultTarget(p).Some? ==> DefaultTarget(p).value != CurrentFormat(p)
  {
    if GetFileType(p).Some? {
      OfferedTargetsOfClassified(p);
      var formats := FormatsOf(GetFileType(p).value);
      var i :| 0 <= i < |formats| && formats[i] == CurrentFormat(p) &&
               OfferedTargets(p) == formats[..i] + formats[i + 1..];
      if i == 0 {
        assert OfferedTargets(p)[0] == formats[1];
      } else {
        assert OfferedTargets(p)[0] == formats[0];
        FormatsAreDistinct(GetFileType(p).value);
      }
    }
  }

  /** The overall fraction the window shows while row `i` of `n` reports
      `fraction` of its own conversion. */
  function OverallProgress(i: nat, n: nat, fraction: real): (r: real)
    requires i < n
    // while the row's own fraction stays within [0, 1], the overall fraction
    // stays within the row's slot [i/n, (i+1)/n]
    ensures 0.0 <= fraction <= 1.0 ==> i as real / n as real <= r <= (i + 1) as real / n as real
  {
    var d := n as real;
    var r := (i as real + fraction) / d;
    assert r - i as real / d == fraction / d;
    assert (i + 1) as real / d - r == (1.0 - fraction) / d;
    r
  }

  /** The overall fraction grows with the row's own fraction, and with the
      row's position: a later row's slot lies entirely after an earlier
      one's. */
  lemma ProgressMonotone(i: nat, j: nat, n: nat, a: real, b: real)
    requires i <= j < n
    requires i == j ==> a <= b
    requires i < j ==> 0.0 <= a <= 1.0 && 0.0 <= b
    ensures OverallProgress(i, n, a) <= OverallProgress(j, n, b)
  {
    var d := n as real;
    assert OverallProgress(j, n, b) - OverallProgress(i, n, a) == ((j - i) as real + b - a) / d;
  }

  /** A row of the window's file list: a file card, with the target chosen
      in its box, or any other widget. */
  datatype Row = FileRow(path: string, target: Option<string>) | OtherRow

  /** What the conversion loop hands to the window's main loop. */
  datatype Event =
    | NoTargetDialog(name: string)             // no valid target format for a file
    | ErrorDialog(name: string, error: Error)  // a conversion raised
    | SetProgress(fraction: real)              // the overall progress fraction
    | Completed                                // the whole list was processed

  /** Whether a row is a card whose target is set and non-empty. */
  predicate HasTarget(row: Row)
  {
    row.FileRow? && row.target.Some? && row.target.value != ""
  }

  /** What handling one row left behind: the filesystem and the events. */
  datatype Handled = Handled(fs: Fs, events: seq<Event>)

  /** The progress events of row `i` of `n` for its own reports. */
  function ProgressEvents(i: nat, n: nat, reports: seq<real>): (r: seq<Event>)
    requires i < n
    ensures |r| == |reports| && Completed !in r
    ensures forall k :: 0 <= k < |r| ==> r[k] == SetProgress(OverallProgress(i, n, reports[k]))
  {
    seq(|reports|, k requires 0 <= k < |reports| => SetProgress(OverallProgress(i, n, reports[k])))
  }

  /** The dialog an outcome leads to: none when the conversion returned,
      an error dialog naming the file and carrying the exception when it
      raised. */
  function Dialogs(path: string, outcome: Outcome<Error>): (r: seq<Event>)
    ensures |r| <= 1 && Completed !in r
    ensures forall k :: 0 <= k < |r| ==> r[k].ErrorDialog?
    ensures r != [] <==> outcome.Fail?
  {
    if outcome.Fail? then [ErrorDialog(Basename(path), outcome.error)] else []
  }

  /** A card with a target: it is converted into `dir` under its stem
      and target, its reports are scaled into its slot of the overall
      progress, and an exception becomes an error dialog after them. */
  function ConvertRow(convert: (Fs, string, string, string) -> Run, dir: string, fs: Fs,
                      path: string, target: string, i: nat, n: nat): (h: Handled)
    requires i < n
    ensures Completed !in h.events
    ensures var r := convert(fs, path, OutputPath(dir, path, target), target);
            h == Handled(r.fs, ProgressEvents(i, n, r.reports) + Dialogs(path, r.outcome))
  {
    var r := convert(fs, path, OutputPath(dir, path, target), target);
    Handled(r.fs, ProgressEvents(i, n, r.reports) + Dialogs(path, r.outcome))
  }

  /** One turn of the loop of `convert_files`, over any conversion
      `convert` from a filesystem, an input, an output and a target.  A
      card without a target gets a dialog and no conversion; a card with
      one is converted, and an exception becomes an error dialog instead
      of ending the loop.  Other rows do nothing observable. */
  function HandleRow(convert: (Fs, string, string, string) -> Run, dir: string, fs: Fs, row: Row, i: nat, n: nat): (h: Handled)
    requires i < n
    ensures Completed !in h.events
    ensures !HasTarget(row) ==> h.fs == fs
    ensures row.OtherRow? ==> h.events == []
    ensures row.FileRow? && !HasTarget(row) ==> h.events == [NoTargetDialog(Basename(row.path))]
    ensures HasTarget(row) ==> h == ConvertRow(convert, dir, fs, row.path, row.target.value, i, n)
  {
    match row
    case OtherRow => Handled(fs, [])
    case FileRow(path, target) =>
      if target.None? || target.value == "" then Handled(fs, [NoTargetDialog(Basename(path))])
      else ConvertRow(convert, dir, fs, path, target.value, i, n)
  }

  /** The filesystem before row `k` is handled. */
  function BeforeRow(fs: Fs, handled: seq<Handled>, k: nat): Fs
    requires k <= |handled|
  {
    if k == 0 then fs else handled[k - 1].fs
  }

  /** The events of the handled rows, in row order. */
  function Flatten(handled: seq<Handled>): seq<Event>
    decreases |handled|
  {
    if |handled| == 0 then []
    else Flatten(handled[..|handled| - 1]) + handled[|handled| - 1].events
  }

  /** No row's events include the completion event, so neither do all of
      them together. */
  lemma {:induction false} FlattenHasNoCompletion(handled: seq<Handled>)
    requires forall k :: 0 <= k < |handled| ==> Completed !in handled[k].events
    ensures Completed !in Flatten(handled)
    decreases |handled|
  {
    if |handled| > 0 {
      var init := handled[..|handled| - 1];
      assert forall k :: 0 <= k < |init| ==> init[k] == handled[k];
      FlattenHasNoCompletion(init);
    }
  }

  /** The loop of `convert_files`: every row is handled, in list order, each
      from the filesystem the previous one left, whatever earlier rows
      raised; then the completion event follows, once, after everything
      else. */
  method ConvertRows(convert: (Fs, string, string, string) -> Run, dir: string, fs: Fs, rows: seq<Row>)
    returns (final: Fs, handled: seq<Handled>, events: seq<Event>)
    ensures |handled| == |rows|
    ensures forall k :: 0 <= k < |rows| ==>
              handled[k] == HandleRow(convert, dir, BeforeRow(fs, handled, k), rows[k], k, |rows|)
    ensures events == Flatten(handled) + [Completed]
    ensures events[|events| - 1] == Completed && Completed !in events[..|events| - 1]
    ensures final == BeforeRow(fs, handled, |rows|)
  {
    final := fs;
    handled := [];
    events := [];
    var i := 0;
    while i < |rows|
      invariant 0 <= i <= |rows| && |handled| == i
      invariant forall k :: 0 <= k < i ==>
                  handled[k] == HandleRow(convert, dir, BeforeRow(fs, handled, k), rows[k], k, |rows|)
      invariant events == Flatten(handled)
      invariant final == BeforeRow(fs, handled, i)
    {
      var h := HandleRow(convert, dir, final, rows[i], i, |rows|);
      var done := handled;
      handled := done + [h];
      forall k | 0 <= k <= i
        ensures handled[k] == HandleRow(convert, dir, BeforeRow(fs, handled, k), rows[k], k, |rows|)
      {
        assert BeforeRow(fs, handled, k) == BeforeRow(fs, done, k);
        if k < i {
          assert handled[k] == done[k];
        } else {
          assert handled[k] == h;
        }
      }
      assert handled[..|handled| - 1] == done;
      events := events + h.events;
      final := h.fs;
      i := i + 1;
    }
    FlattenHasNoCompletion(handled);
    events := events + [Completed];
    assert events[..|events| - 1] == Flatten(handled);
  }

  /** `convert_file` as the window calls it: with a progress callback. */
  function RowConversion(env: Env): (Fs, string, string, string) -> Run
  {
    (before, input, output, target) => ConvertFile(env, before, input, output, target, true)
  }

  /** `convert_files`. */
  method ConvertFiles(env: Env, fs: Fs, rows: seq<Row>, dir: string)
    returns (final: Fs, handled: seq<Handled>, events: seq<Event>)
    ensures |handled| == |rows|
    ensures forall k :: 0 <= k < |rows| ==>
              handled[k] == HandleRow(RowConversion(env), dir, BeforeRow(fs, handled, k), rows[k], k, |rows|)
    ensures events == Flatten(handled) + [Completed]
    ensures events[|events| - 1] == Completed && Completed !in events[..|events| - 1]
    ensures final == BeforeRow(fs, handled, |rows|)
  {
    final, handled, events := ConvertRows(RowConversion(env), dir, fs, rows);
  }

  /** A card whose conversion raises before any call or report gets
      exactly one error dialog, and nothing else happens. */
  lemma RejectedRow(convert: (Fs, string, string, string) -> Run, dir: string, fs: Fs,
                    path: string, target: string, i: nat, n: nat, error: Error)
    requires i < n && target != ""
    requires convert(fs, path, OutputPath(dir, path, target), target) == Run([], [], fs, Fail(error))
    ensures HandleRow(convert, dir, fs, FileRow(path, Some(target)), i, n) ==
              Handled(fs, [ErrorDialog(Basename(path), error)])
  {
    var h := ConvertRow(convert, dir, fs, path, target, i, n);
    assert ProgressEvents(i, n, []) == [];
    assert h.events == [] + [ErrorDialog(Basename(path), error)];
  }

  /** A card whose conversion reports nothing leaves at most its error
      dialog. */
  lemma SilentRow(convert: (Fs, string, string, string) -> Run, dir: string, fs: Fs,
                  path: string, target: string, i: nat, n: nat)
    requires i < n && target != ""
    requires convert(fs, path, OutputPath(dir, path, target), target).reports == []
    ensures var h := HandleRow(convert, dir, fs, FileRow(path, Some(target)), i, n);
            |h.events| <= 1 && forall k :: 0 <= k < |h.events| ==> h.events[k].ErrorDialog?
  {
    var r := convert(fs, path, OutputPath(dir, path, target), target);
    var h := ConvertRow(convert, dir, fs, path, target, i, n);
    assert HasTarget(FileRow(path, Some(target)));
    assert HandleRow(convert, dir, fs, FileRow(path, Some(target)), i, n) == h;
    assert ProgressEvents(i, n, r.reports) == [];
    assert h.events == [] + Dialogs(path, r.outcome);
    assert h.events == Dialogs(path, r.outcome);
  }

  /** A card holding a file the converter cannot classify gets one error
      dialog carrying the unsupported-file-type error, and nothing else
      happens. */
  lemma UnclassifiedFileGetsErrorDialog(env: Env, dir: string, fs: Fs, path: string, target: string, i: nat, n: nat)
    requires i < n && target != ""
    requires GetFileType(path).None?
    ensures HandleRow(RowConversion(env), dir, fs, FileRow(path, Some(target)), i, n) ==
              Handled(fs, [ErrorDialog(Basename(path), UnsupportedFileType)])
  {
    var output := OutputPath(dir, path, target);
    assert RowConversion(env)(fs, path, output, target) == ConvertFile(env, fs, path, output, target, true);
    RejectedRow(RowConversion(env), dir, fs, path, target, i, n, UnsupportedFileType);
  }

  /** Only a video card moves the progress bar: any other card yields at
      most its error dialog. */
  lemma OnlyVideosMoveProgress(env: Env, dir: string, fs: Fs, path: string, target: string, i: nat, n: nat)
    requires i < n && target != ""
    requires GetFileType(path) != Some(Videos)
    ensures var h := HandleRow(RowConversion(env), dir, fs, FileRow(path, Some(target)), i, n);
            |h.events| <= 1 && forall k :: 0 <= k < |h.events| ==> h.events[k].ErrorDialog?
  {
    var output := OutputPath(dir, path, target);
    assert RowConversion(env)(fs, path, output, target) == ConvertFile(env, fs, path, output, target, true);
    SilentRow(RowConversion(env), dir, fs, path, target, i, n);
  }

  /** Only an archive card changes the filesystem. */
  lemma OnlyArchivesChangeFiles(env: Env, dir: string, fs: Fs, path: string, target: string, i: nat, n: nat)
    requires i < n && target != ""
    ensures HandleRow(RowConversion(env), dir, fs, FileRow(path, Some(target)), i, n).fs != fs ==>
              GetFileType(path) == Some(Archives)
  {
    var r := ConvertFile(env, fs, path, OutputPath(dir, path, target), target, true);
    assert RowConversion(env)(fs, path, OutputPath(dir, path, target), target) == r;
  }
}
