# files-converter core in Dafny

This project models the core of files-converter, a desktop tool that converts
photos, videos, vector drawings, audio, documents, archives and ebooks from
one format into another. The model covers:

- **`FileConverter`.** This includes:
  - its format registry;
  - classification of a path by its last extension (`get_file_type`,
    `get_current_format`, `get_target_formats`);
  - the `convert_file` dispatch;
  - the seven conversion strategies;
  - `batch_convert`.
- **The pure parts of the converter window.** This includes:
  - which dropped files it accepts (`is_supported_file`,
    `get_supported_extensions`);
  - which target formats a file's card offers and preselects;
  - the `convert_files` loop. That loop names each output, scales each
    file's progress into the overall bar, turns exceptions into error
    dialogs and signals completion once.

Everything the converter does to the outside world is an explicit parameter.
An `Env` record of oracles says:

- whether each library call returns or raises;
- how each subprocess ends;
- what `ffmpeg.probe` reports as the duration;
- which lines the transcoder writes to its error stream;
- what the PDF, DOCX and text readers return;
- which paths an extraction writes.

Each strategy is a pure function from the `Env` and a filesystem (`Fs`, the
set of existing paths) to a `Run`. A `Run` records:

- the external calls made, in order;
- the values passed to the progress callback;
- the filesystem afterwards;
- whether the call returned or which exception it raised.

Modules:

- `Results`: `Option` and `Outcome`.
- `Paths`: the parts of `os.path` the converter relies on, written out.
  These are `splitext`, `basename`, `dirname`, `join`, `str.endswith` and
  ASCII `lower`.
- `Registry`: the format registry and classification.
- `Effects`: calls, oracles, errors and exception messages.
- `Progress`: the `time=HH:MM:SS.cc` progress tracker of the video strategy.
- `Documents`: the document conversion matrix, and the text it writes.
- `Archive`: the extract, repack and clean-up workflow.
- `Converter`: the strategies, dispatch and `batch_convert`.
- `Window`: supported files, offered targets and `convert_files`.

Behaviours of the code worth noting:

- Classification looks only at the LAST extension, so `x.tar.gz` is an
  archive through "gz".
- A failed duration probe is not retried or defaulted.
- The audio strategy passes the target to the transcoder unchanged.
- The document strategy implements only four conversions: docx to pdf,
  txt to pdf, pdf to txt and docx to txt. Every other input paired with a
  pdf or txt target returns without doing anything.
- `batch_convert` stops at the first exception.
- Every archive conversion into one directory extracts into the same
  `temp_extract` directory.
- "txt", "rtf" and "pdf" files are always documents, never ebooks.
- Classification lower-cases the extension, but the archive strategy picks
  its extractor with case-sensitive suffix tests. A `*.ZIP` input is an
  archive that nothing extracts, so the repack reads an extraction
  directory nothing was written to.

## Model

| member | source | states |
|---|---|---|
| Registry.FormatsOf | src/files_converter/converter.py:16-24 | every category lists at least three formats and its first two differ, so a card always has a target left after its own format is removed |
| Registry.CurrentFormat | src/files_converter/converter.py:36-37 | the current format never holds a dot or a separator and is lower-case |
| Registry.CurrentFormatOfAppend | src/files_converter/converter.py:36-37 | the current format of `root.ext`, for a named root, is `ext` lower-cased |
| Registry.CurrentFormatOfJoin | src/files_converter/converter.py:36-37 | joining `stem.ext` onto any directory gives a path named `stem.ext` whose current format is `ext` lower-cased |
| Registry.FirstHolding | src/files_converter/converter.py:28-31 | the registry loop returns the first list holding the format; it returns none exactly when no list holds it |
| Registry.GetFileType | src/files_converter/converter.py:26-31 | a classified path's format is listed by its category and by no category ahead of it in registry order; a path is unclassified exactly when no category lists its format |
| Registry.GetFileTypeIsListing | src/files_converter/converter.py:26-31 | classification agrees on every path with an independent reference: a chain of membership tests in dictionary order |
| Registry.CurrentFormatIsTarget | src/files_converter/converter.py:33-37 | a classified path's own format is among its category's targets; an unclassified path has no targets |
| Registry.TargetFormats | src/files_converter/converter.py:33-34 | a missing category key gives no targets, and only it; a category gives at least three targets, the first two distinct, every one a non-empty lower-case name |
| Registry.TarGzClassifiesThroughGz | src/files_converter/converter.py:26-31 | every path ending in `.tar.gz`, hidden names such as `.tar.gz` and `d/.tar.gz` included, has current format "gz" and is an archive through it |
| Registry.UpperCaseZipClassifies | src/files_converter/converter.py:26-31 | the extension is lower-cased before the lookup, so a named `*.ZIP` file is an archive |
| Registry.SharedFormatsAreDocuments | src/files_converter/converter.py:21-23 | the ebooks also list "txt", "rtf" and "pdf", but such files always classify as documents |
| Registry.LongFormatsAreUnclassified | src/files_converter/converter.py:16-31 | a format longer than four characters is never classified |
| Registry.TextFileIsDocument | src/files_converter/converter.py:26-31 | every `*.txt` file has extension ".txt" and is a document |
| Registry.ExampleJpgIsPhoto | tests/tests.py:17 | `example.jpg` classifies as photos |
| Registry.ExampleMp4IsVideo | tests/tests.py:18 | `example.mp4` classifies as videos |
| Registry.ExampleSvgIsVector | tests/tests.py:19 | `example.svg` classifies as vectors |
| Registry.ExampleMp3IsAudio | tests/tests.py:20 | `example.mp3` classifies as audio |
| Registry.ExampleDocxIsDocument | tests/tests.py:21 | `example.docx` classifies as documents |
| Registry.ExampleZipIsArchive | tests/tests.py:22 | `example.zip` classifies as archives |
| Registry.ExampleEpubIsEbook | tests/tests.py:23 | `example.epub` classifies as ebooks |
| Registry.ExampleUnknownIsUnclassified | tests/tests.py:24 | `example.unknown` is not classified |
| Paths.SplitExt | src/files_converter/converter.py:27 | root and extension concatenate back to the path; the extension is empty or a dot followed by a separator-free, dot-free suffix; a non-empty extension follows a named last component |
| Paths.SplitExtAppend | src/files_converter/converter.py:195-196 | appending `.ext` to a named root and splitting gives back the root and `.ext`: the inverse of the split |
| Converter.PhotoSave | src/files_converter/converter.py:60-65 | a "jpg" target is saved with the format name "jpeg" after an RGB conversion; every other target is saved under its own name without one |
| Converter.ConvertPhoto | src/files_converter/converter.py:60-65 | one image save, with no progress and no filesystem change; the result passes exactly when the save completes |
| Converter.JpegTargetIsNotConverted | src/files_converter/converter.py:62-65 | only the spelling "jpg" triggers the RGB conversion; "jpeg" does not |
| Converter.ConvertVideo | src/files_converter/converter.py:67-106 | a probe comes first, and a failed probe ends the run; with a callback there is one report per marker line, equal to its seconds over the duration; the run passes exactly when the transcoder exits 0; a non-zero exit raises with its code |
| Converter.FailingTranscodeStillReports | src/files_converter/converter.py:82-98 | a transcoder that exits non-zero still delivers every progress report it announced before the failure is raised |
| Converter.ConvertVector | src/files_converter/converter.py:108-112 | without inkscape it raises the missing-inkscape error and makes no call; with inkscape it makes one call and passes whenever inkscape exits, whatever its status |
| Converter.VectorIgnoresTarget | src/files_converter/converter.py:108-112 | the vector result does not depend on the target format |
| Converter.ConvertAudio | src/files_converter/converter.py:114-120 | one transcoder call with the target passed through unchanged; passes exactly on exit 0; a non-zero exit or a missing program raises |
| Converter.ConvertEbook | src/files_converter/converter.py:186-190 | one ebook-convert call that passes exactly on exit 0; a non-zero exit becomes the ebook failure naming both paths |
| Converter.FailedEbookNamesBothPaths | src/files_converter/converter.py:187-190 | the failed-ebook message contains both the input path and the output path |
| Converter.Strategy | src/files_converter/converter.py:43-56 | each strategy only makes calls of its own category; no strategy raises the unsupported-file-type error; only videos report progress; only archives change the filesystem |
| Converter.ConvertFile | src/files_converter/converter.py:39-58 | an unclassified input raises the unsupported-file-type error before any call; a classified one runs its category's strategy; that error is raised exactly when the input is unclassified |
| Converter.TextToUnknownIsRejected | tests/tests.py:154-158 | converting any `*.txt` file to "unknown" raises the unsupported-document error naming ".txt" and "unknown", before any call |
| Paths.Basename | src/files_converter/converter.py:194 | the base name holds no separator and is the tail of the path after its last separator |
| Paths.Dirname | src/files_converter/converter.py:154 | the directory name is a prefix of the path |
| Paths.Join | src/files_converter/converter.py:196 | the joined path ends with the second part, and starts with the first unless the second is absolute |
| Paths.BasenameOfJoin | src/files_converter/converter.py:196 | joining a separator-free name onto any directory gives a path whose base name is that name |
| Converter.Stem | src/files_converter/converter.py:194-195 | the stem has no separator, and the stem followed by the last extension gives back the base name |
| Converter.OutputPathNaming | src/files_converter/converter.py:194-196 | the output's base name is `stem.target`, and the output classifies by the lower-cased target |
| Converter.OutputPath | src/files_converter/converter.py:194-196 | the derived output starts with the output directory and ends with the input's stem, a dot and the target |
| Converter.RunBatch | src/files_converter/converter.py:192-197 | inputs are converted in order, each from the filesystem the previous one left; every attempt but the last passed; a failure ends the batch and becomes its outcome; a passing batch attempted every input |
| Converter.BatchConvert | src/files_converter/converter.py:192-197 | `batch_convert` names each output `dir/stem.target`, runs `convert_file` without a callback, and stops at the first exception |
| Progress.SearchFrom | src/files_converter/converter.py:81-86 | the search finds the leftmost `time=DD:DD:DD.DD` marker at or after the start, or reports that there is none |
| Progress.MarkerAt | src/files_converter/converter.py:80 | a match of the pattern starts with the marker's only 't', so two matches never overlap |
| Progress.MarkerSeconds | src/files_converter/converter.py:88-89 | a marker names at most 99 hours, 99 minutes and 99 seconds: the two-digit groups bound the seconds reported |
| Progress.MarkerTextReadsBack | src/files_converter/converter.py:80-89 | the marker printed for `hh:mm:ss.cc` matches the pattern, and its groups read back as h * 3600 + m * 60 + s seconds |
| Progress.MarkerRoundTrip | src/files_converter/converter.py:80-89 | a printed marker matches wherever it sits in a line and names h * 3600 + m * 60 + s seconds; with no 't' ahead of it, it is the line's first marker and gives the seconds the line reports |
| Progress.Markers | src/files_converter/converter.py:81-89 | the readline loop announces at most one elapsed time per line, each at most what two-digit fields can name |
| Progress.ReportsScaleMarkers | src/files_converter/converter.py:82-92 | there is exactly one report per marker read before end of output, in order, equal to the marker's seconds over the duration |
| Progress.Reports | src/files_converter/converter.py:82-92 | the tracking loop reports at most once per line read, and never a negative fraction |
| Progress.ReportsAppend | src/files_converter/converter.py:82-85 | reading output in two chunks reports the first chunk's values, then the second's |
| Progress.OneReportPerMarkedLine | src/files_converter/converter.py:86-92 | a line with no marker reports nothing; a marked line reports its seconds over the duration |
| Progress.MonotoneMarkersGiveMonotoneReports | src/files_converter/converter.py:88-92 | non-decreasing timestamps give non-decreasing progress fractions |
| Progress.OvershootIsNotClamped | src/files_converter/converter.py:89-92 | a timestamp at or past the probed duration reports a fraction of at least 1: nothing clamps it |
| Documents.ToPdf | src/files_converter/converter.py:123-135 | a docx input is re-saved as the output and passes exactly when that save returns; a txt input is read and its text drawn into the output, failing at the read or at the drawing; any other input returns without a call |
| Documents.ToTxt | src/files_converter/converter.py:136-147 | a pdf input writes its page text and a docx input its paragraph text to the output, failing when the input cannot be read or the write raises; any other input returns without a call |
| Documents.ConvertDocument | src/files_converter/converter.py:122-151 | a target other than pdf or txt raises the unsupported-document error with the input's extension, before any call; docx to pdf is one re-save that passes exactly when it returns; txt to pdf reads the text and draws it, failing at the read or the drawing; docx to txt writes the paragraph text; pdf to txt writes the page text; unimplemented pairs return without a call |
| Documents.ParagraphText | src/files_converter/converter.py:143-147 | the text a docx-to-txt conversion writes is empty exactly for a document without paragraphs, otherwise ends with a newline, and has at least one character per paragraph |
| Documents.PageText | src/files_converter/converter.py:137-142 | the text a pdf-to-txt conversion writes is empty exactly when every page's extracted text is |
| Documents.ParagraphTextRoundTrip | src/files_converter/converter.py:143-147 | when no paragraph text holds a newline, reading back a docx-to-txt output line by line gives the paragraphs |
| Documents.PagesInOrder | src/files_converter/converter.py:137-142 | every page's text appears whole in a pdf-to-txt output, right after the text of the pages before it |
| Effects.UnsupportedDocumentMessageNamesBoth | src/files_converter/converter.py:148-151 | the unsupported-document message contains the input's extension and the target |
| Effects.Message | src/files_converter/converter.py:58-190 | every error the converter raises itself carries its own message; only failures raised inside a library, a missing program and a failing ffmpeg run carry a text the model does not know |
| Effects.FfmpegMessageCarriesCode | src/files_converter/converter.py:97-98 | for any return code, negative ones of a process killed by a signal included, the transcoder failure message ends with the code as `str` writes it, and the digits read back as the code (after the minus sign for a negative one) |
| Archive.RemoveTreeFs | src/files_converter/converter.py:182-184 | a removal that succeeds deletes the directory and everything below it, and nothing else |
| Archive.DropLastFour | src/files_converter/converter.py:172 | `output_path[:-4]` drops exactly four characters, or gives "" for shorter paths |
| Archive.ExtractCall | src/files_converter/converter.py:159-168 | whatever extraction the input's suffix selects reads that input into that directory |
| Archive.ExtractorBySuffix | src/files_converter/converter.py:159-168 | tarfile is chosen exactly for ".tar", ".gz" and ".bz2", zipfile exactly for ".zip", unrar exactly for ".rar" and 7z exactly for ".7z": the order of the tests never decides |
| Archive.ExtractCallBySuffix | src/files_converter/converter.py:159-168 | each suffix selects its own extraction call whatever precedes it, and an input with none of the six suffixes makes no extraction call |
| Archive.SuffixesExclude | src/files_converter/converter.py:159-168 | no path ends with two suffixes that belong to different extractors |
| Archive.UpperCaseZipIsNotExtracted | src/files_converter/converter.py:159-168 | a `*.ZIP` input, an archive to the classification, matches none of the case-sensitive extractor tests, so nothing is extracted before the repack |
| Archive.Perform | src/files_converter/converter.py:160-178 | a library call raises exactly when it fails and otherwise does its work; a program raises only when it cannot be started, and a non-zero exit completes silently without the work |
| Archive.WrittenPath | src/files_converter/converter.py:171-178 | `make_archive` writes its base with ".zip" or ".tar.gz" appended, and nothing for another format; rar and 7z write the output they are given; extractions write no archive |
| Archive.ExtractStage | src/files_converter/converter.py:159-168 | extraction makes only extraction calls; with no extractor it does nothing; it removes no path, and a path it adds lies below the directory unless an absolute or `..` member name placed it elsewhere |
| Archive.RepackStage | src/files_converter/converter.py:170-180 | repacking makes at most one call; an unsupported target raises the unsupported-archive error without any call; the only path it can add is the archive it writes, and only when it does not raise |
| Archive.Workflow | src/files_converter/converter.py:158-180 | an extraction that raises ends the workflow with nothing repacked; the workflow removes nothing, and adds only paths below the directory, paths placed by escaping member names, or the written archive |
| Archive.AddUnder | src/files_converter/converter.py:159-164 | an extraction keeps existing paths and writes every member: a contained name below the directory, an absolute or `..` name wherever the extractor places it; with only contained names it adds nothing outside the directory |
| Archive.MemberPath | src/files_converter/converter.py:161 | a member name that is relative and has no `..` segment lands below the directory; any other lands where the extractor places it |
| Archive.EscapingNamesAreNotContained | src/files_converter/converter.py:161 | member names such as `/x`, `../x` and `..` are not contained in the extraction directory |
| Archive.Finish | src/files_converter/converter.py:182-184 | once the directory is made, the workflow's calls are followed by the removal; the run passes exactly when no step raised, whatever the removal does; a removal that succeeds takes the tree and nothing else, one that fails leaves the filesystem as the workflow left it |
| Archive.ArchiveIn | src/files_converter/converter.py:153-184 | the directory is made first; once it exists, its removal is the last call on every exit path, the tree is gone when that removal succeeds, and the directory silently stays when it does not; if it cannot be made, nothing else happens |
| Archive.ArchiveFilesystemEffect | src/files_converter/converter.py:153-184 | nothing outside the extraction directory disappears; a path that appears is the repacked archive of a passing run, a path placed by an escaping member name, or a leftover of a failed removal |
| Archive.ContainedMembersLeaveOnlyTheArchive | src/files_converter/converter.py:153-184 | when every member name is contained and the removal succeeds, the only path that can appear is the repacked archive, and only on success |
| Archive.RepackCall | src/files_converter/converter.py:170-180 | exactly the five archive formats select a repacking call, a non-extracting archive call that writes a file; rar and 7z write the requested output itself |
| Archive.NoExtractorNoExtraction | src/files_converter/converter.py:159-168 | an input suffix with no extractor leads to no extraction call at all |
| Archive.UnsupportedTargetAfterExtraction | src/files_converter/converter.py:170-184 | an unsupported target is raised only after a full extraction, with the directory removed afterwards |
| Archive.XzIsNotExtracted | src/files_converter/converter.py:159-168 | a ".xz" input matches no extractor |
| Archive.ZipOutputKeepsItsName | src/files_converter/converter.py:171-172 | a zip target writes exactly the requested `*.zip` output |
| Archive.TarOutputGainsGz | src/files_converter/converter.py:173-174 | a tar target writes `*.tar.gz`, not the requested `*.tar` |
| Archive.GzOutputLosesAStemCharacter | src/files_converter/converter.py:173-174 | a gz target writes the requested name with its last stem character lost and ".tar.gz" appended |
| Archive.TempDirIsBesideOutput | src/files_converter/converter.py:154 | every output in one directory extracts into `dir/temp_extract`, whatever its name |
| Window.SupportedExtensions | src/files_converter/ui.py:547-551 | the supported extensions are exactly the dotted, lower-cased registry formats |
| Window.IsSupportedFile | src/files_converter/ui.py:540-545 | the path itself is returned exactly when its lower-cased extension is supported |
| Window.SupportedIffClassified | src/files_converter/ui.py:540-551 | the window accepts a file exactly when the converter classifies it |
| Window.FormatsAreDistinct | src/files_converter/converter.py:16-24 | no category lists a format twice |
| Window.Without | src/files_converter/ui.py:86 | the filtered list keeps exactly the entries other than the removed one, and never grows |
| Window.WithoutOnce | src/files_converter/ui.py:86 | in a list without repeats, removing an entry cuts out exactly its position and keeps the rest in order |
| Window.OfferedTargets | src/files_converter/ui.py:82-86 | a card never offers its own format, and offers only formats of its category |
| Window.OfferedTargetsOfClassified | src/files_converter/ui.py:82-86 | a classified file is offered its category's list with its own format cut out, so at least two targets in registry order |
| Window.OfferedTargetsOfUnclassified | src/files_converter/ui.py:82-86 | an unclassified file is offered nothing |
| Window.DefaultTarget | src/files_converter/ui.py:93-95 | the preselected target is an offered one; there is none exactly when nothing is offered |
| Window.DefaultTargetChoice | src/files_converter/ui.py:82-95 | a classified file preselects its category's first format, or the second when it already has the first; the choice never equals its own format |
| Window.OverallProgress | src/files_converter/ui.py:352-354 | while a file reports a fraction in [0, 1], the overall bar stays within that file's slot [i/n, (i+1)/n] |
| Window.ProgressMonotone | src/files_converter/ui.py:352-354 | the overall bar grows with a file's own fraction and with the file's position in the list |
| Window.ProgressEvents | src/files_converter/ui.py:352-354 | each report becomes one progress event carrying its overall fraction, in order |
| Window.Dialogs | src/files_converter/ui.py:359-363 | a raised exception gives exactly one error dialog; a returned conversion gives none |
| Window.ConvertRow | src/files_converter/ui.py:345-363 | a card is converted to `dir/stem.target`; its progress events come first, then an error dialog if it raised; the completion event never appears |
| Window.HandleRow | src/files_converter/ui.py:333-366 | a card without a target gets a no-target dialog and no conversion; other widgets do nothing; a card with a target is converted |
| Window.FlattenHasNoCompletion | src/files_converter/ui.py:333-366 | no handled row emits the completion event |
| Window.ConvertRows | src/files_converter/ui.py:331-368 | every row is handled in order, each from the filesystem the previous one left, whatever earlier rows raised; the completion event comes once, after everything else |
| Window.ConvertFiles | src/files_converter/ui.py:331-368 | `convert_files` is that loop with `convert_file` and a progress callback |
| Window.RejectedRow | src/files_converter/ui.py:356-363 | a conversion that raises before any call or report leaves one error dialog and nothing else |
| Window.SilentRow | src/files_converter/ui.py:352-363 | a conversion without reports leaves at most one event, and that event is an error dialog |
| Window.UnclassifiedFileGetsErrorDialog | src/files_converter/ui.py:356-363 | a card holding an unclassified file gets one unsupported-file-type error dialog, and nothing else happens |
| Window.OnlyVideosMoveProgress | src/files_converter/ui.py:352-363 | a card that is not a video never moves the progress bar |
| Window.OnlyArchivesChangeFiles | src/files_converter/ui.py:356-358 | only an archive card changes the filesystem |

## Left out

- GTK widgets, the dialog wording and the main-loop plumbing (`GLib.idle_add`, timers, threads, the file queue, the multiprocessing pool): events carry only the file's base name and the exception.
- The speed and ETA display, `format_size` and `format_time`, icons and `os.stat`: they need clocks and the operating system.
- Codec and tool internals (Pillow, ffmpeg, inkscape, python-docx, reportlab, PyPDF2, tarfile, zipfile, rar, 7z, ebook-convert): each is an oracle in `Env` that returns, raises or exits with a code.
- Files written by the photo, video, vector, audio, document and ebook strategies are not added to `Fs`; only the archive workflow's directory and repacked archive are tracked.
- Partial effects of a call that raises (a half-written extraction or archive): a raising call changes nothing.
- Archive.ArchiveIn: `os.makedirs` creating missing parent directories is not recorded; only the extraction directory is added.
- The `print` calls in the video strategy and for unexpected list items: console output is not observable in the model.
- `str.lower` and the regex's `\d` are modelled on ASCII only; Python also lower-cases and matches non-ASCII letters and digits.
- Effects.Duration: the probed duration is taken as a positive finite real; a zero or negative duration (a division error, or negative fractions, in the source) and an `inf` or `nan` duration from `float` (fractions of zero or `nan`) are not modelled.
- Effects.Env: the transcoder's error output reaches the model as lines already decoded; a line that is not valid UTF-8 raises `UnicodeDecodeError` in the source and aborts the conversion without waiting for the transcoder, which is not modelled.
- Archive.RemoveTreeFs: a removal that fails part-way is modelled as removing nothing; `shutil.rmtree` with `ignore_errors=True` may also delete part of the tree, and any such partial state is not modelled.
- Archive.MemberPath: where an absolute or `..` member name lands is an oracle of the environment; the model does not resolve it against the directory, and symbolic links stored in an archive are not modelled.
- Window.OverallProgress: the slot bound is stated only for fractions in [0, 1]; the video tracker does not clamp its fractions (see Progress.OvershootIsNotClamped).
- Archive.ConvertArchive: a thin wrapper that fixes the directory to `temp_extract` beside the output; its properties are stated on Archive.ArchiveIn for any directory.
- The Nautilus extension and the packaging script: they only launch the window.
