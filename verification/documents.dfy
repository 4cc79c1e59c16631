/** The document strategy of `FileConverter`: a target-by-input matrix that
    implements only docx or txt to pdf and pdf or docx to txt, with the text
    written for the two txt cells assembled from the page and paragraph texts
    the libraries extract. */
module Documents {
  import opened Results
  import opened Paths
  import opened Registry
  import opened Effects

  /** The text file a docx to txt conversion writes: each paragraph followed
      by a newline. */
  function ParagraphText(paragraphs: seq<string>): (r: string)
    // a non-empty document ends with a newline, one per paragraph at least
    ensures paragraphs == [] <==> r == []
    ensures r != [] ==> r[|r| - 1] == '\n'
    ensures |r| >= |paragraphs|
    decreases |paragraphs|
  {
    if |paragraphs| == 0 then []
    else paragraphs[0] + "\n" + ParagraphText(paragraphs[1..])
  }

  /** The text file a pdf to txt conversion writes: the page texts
      concatenated in page order, with nothing in between. */
  function PageText(pages: seq<string>): (r: string)
    // the text is empty exactly when every page is
    ensures r == [] <==> forall k :: 0 <= k < |pages| ==> pages[k] == []
    decreases |pages|
  {
    if |pages| == 0 then []
    else pages[0] + PageText(pages[1..])
  }

  /** Index of the first `c` in `s`, or `|s|` when there is none. */
  function IndexOf(s: string, c: char): (r: nat)
    ensures r <= |s|
    ensures r < |s| ==> s[r] == c
    ensures forall k :: 0 <= k < r ==> s[k] != c
    decreases |s|
  {
    if |s| == 0 then 0
    else if s[0] == c then 0
    else 1 + IndexOf(s[1..], c)
  }

  /** The first occurrence of a character is determined by where it sits and
      what precedes it. */
  lemma IndexOfAt(s: string, c: char, i: nat)
    requires i <= |s|
    requires i < |s| ==> s[i] == c
    requires forall k :: 0 <= k < i ==> s[k] != c
    ensures IndexOf(s, c) == i
  {
  }

  /** The lines of a text, as a reader splitting at newlines sees them; a
      final newline does not start another line. */
  function Lines(s: string): seq<string>
    decreases |s|
  {
    if |s| == 0 then []
    else
      var i := IndexOf(s, '\n');
      if i == |s| then [s] else [s[..i]] + Lines(s[i + 1..])
  }

  /** Reading the text a docx to txt conversion writes back line by line
      gives the paragraphs, as long as no paragraph holds a newline itself. */
  lemma {:induction false} ParagraphTextRoundTrip(paragraphs: seq<string>)
    requires forall k :: 0 <= k < |paragraphs| ==> '\n' !in paragraphs[k]
    ensures Lines(ParagraphText(paragraphs)) == paragraphs
    decreases |paragraphs|
  {
    if |paragraphs| > 0 {
      var p := paragraphs[0];
      var rest := ParagraphText(paragraphs[1..]);
      var s := p + "\n" + rest;
      assert s == ParagraphText(paragraphs);
      assert forall k :: 0 <= k < |p| ==> s[k] == p[k] && p[k] in p;
      IndexOfAt(s, '\n', |p|);
      assert s[..|p|] == p;
      assert s[|p| + 1..] == rest;
      ParagraphTextRoundTrip(paragraphs[1..]);
    }
  }

  /** Page text is a homomorphism from page lists to strings. */
  lemma {:induction false} PageTextAppend(a: seq<string>, b: seq<string>)
    ensures PageText(a + b) == PageText(a) + PageText(b)
    decreases |a|
  {
    if |a| == 0 {
      assert a + b == b;
    } else {
      assert (a + b)[0] == a[0];
      assert (a + b)[1..] == a[1..] + b;
      PageTextAppend(a[1..], b);
    }
  }

  /** Page `k` sits in the written text right after the text of the pages
      before it: the pages appear whole and in page order. */
  lemma PagesInOrder(pages: seq<string>, k: nat)
    requires k < |pages|
    ensures var off := |PageText(pages[..k])|;
            off + |pages[k]| <= |PageText(pages)| &&
            PageText(pages)[off..off + |pages[k]|] == pages[k]
  {
    assert pages == pages[..k] + ([pages[k]] + pages[k + 1..]);
    PageTextAppend(pages[..k], [pages[k]] + pages[k + 1..]);
    assert ([pages[k]] + pages[k + 1..])[1..] == pages[k + 1..];
  }

  /** The pdf column of `_convert_document`: a docx input is re-saved under
      the output name, a txt input is read and drawn as one string; any
      other input is left alone without an error. */
  function ToPdf(env: Env, fs: Fs, input: string, output: string): (r: Run)
    ensures r.reports == [] && r.fs == fs && CallsOf(r, Documents)
    ensures r.outcome.Fail? ==> r.outcome.error.CallFailed?
    ensures EndsWith(input, ".docx") ==>
              r.calls == [DocxResave(input, output)] &&
              (r.outcome == Pass <==> env.completes(DocxResave(input, output)))
    ensures !EndsWith(input, ".docx") && EndsWith(input, ".txt") && env.text(input).None? ==>
              r == Run([ReadText(input)], [], fs, Fail(CallFailed(ReadText(input))))
    ensures !EndsWith(input, ".docx") && EndsWith(input, ".txt") && env.text(input).Some? ==>
              r.calls == [ReadText(input), DrawPdf(output, env.text(input).value)] &&
              (r.outcome == Pass <==> env.completes(DrawPdf(output, env.text(input).value)))
    ensures !EndsWith(input, ".docx") && !EndsWith(input, ".txt") ==> r == Run([], [], fs, Pass)
  {
    if EndsWith(input, ".docx") then
      var call := DocxResave(input, output);
      Run([call], [], fs, LibraryOutcome(env, call))
    else if EndsWith(input, ".txt") then
      match env.text(input)
      case None => Run([ReadText(input)], [], fs, Fail(CallFailed(ReadText(input))))
      case Some(text) =>
        var call := DrawPdf(output, text);
        Run([ReadText(input), call], [], fs, LibraryOutcome(env, call))
    else Run([], [], fs, Pass)
  }

  /** The txt column of `_convert_document`: the page texts of a pdf input,
      or the paragraph texts of a docx input, are written to the output;
      any other input is left alone without an error. */
  function ToTxt(env: Env, fs: Fs, input: string, output: string): (r: Run)
    ensures r.reports == [] && r.fs == fs && CallsOf(r, Documents)
    ensures r.outcome.Fail? ==> r.outcome.error.CallFailed?
    ensures EndsWith(input, ".pdf") && env.pages(input).None? ==>
              r == Run([ReadPdfPages(input)], [], fs, Fail(CallFailed(ReadPdfPages(input))))
    ensures EndsWith(input, ".pdf") && env.pages(input).Some? ==>
              r.calls == [ReadPdfPages(input), WriteText(output, PageText(env.pages(input).value))] &&
              (r.outcome == Pass <==> env.completes(WriteText(output, PageText(env.pages(input).value))))
    ensures !EndsWith(input, ".pdf") && EndsWith(input, ".docx") && env.paragraphs(input).None? ==>
              r == Run([ReadDocxParagraphs(input)], [], fs, Fail(CallFailed(ReadDocxParagraphs(input))))
    ensures !EndsWith(input, ".pdf") && EndsWith(input, ".docx") && env.paragraphs(input).Some? ==>
              r.calls == [ReadDocxParagraphs(input), WriteText(output, ParagraphText(env.paragraphs(input).value))] &&
              (r.outcome == Pass <==> env.completes(WriteText(output, ParagraphText(env.paragraphs(input).value))))
    ensures !EndsWith(input, ".pdf") && !EndsWith(input, ".docx") ==> r == Run([], [], fs, Pass)
  {
    if EndsWith(input, ".pdf") then
      match env.pages(input)
      case None => Run([ReadPdfPages(input)], [], fs, Fail(CallFailed(ReadPdfPages(input))))
      case Some(pages) =>
        var call := WriteText(output, PageText(pages));
        Run([ReadPdfPages(input), call], [], fs, LibraryOutcome(env, call))
    else if EndsWith(input, ".docx") then
      match env.paragraphs(input)
      case None => Run([ReadDocxParagraphs(input)], [], fs, Fail(CallFailed(ReadDocxParagraphs(input))))
      case Some(paragraphs) =>
        var call := WriteText(output, ParagraphText(paragraphs));
        Run([ReadDocxParagraphs(input), call], [], fs, LibraryOutcome(env, call))
    else Run([], [], fs, Pass)
  }

  /** `_convert_document`.  Inputs are recognised by a case-sensitive
      `endswith` on the whole input path; only four input and target pairs
      convert anything, and a target other than pdf or txt raises before
      any call. */
  function ConvertDocument(env: Env, fs: Fs, input: string, output: string, target: string): (r: Run)
    ensures r.reports == [] && r.fs == fs && CallsOf(r, Documents)
    ensures r.outcome != Fail(UnsupportedFileType)
    ensures target != "pdf" && target != "txt" ==>
              r == Run([], [], fs, Fail(UnsupportedDocumentConversion(Ext(input), target)))
    // docx to pdf: the document is re-saved under the output name
    ensures target == "pdf" && EndsWith(input, ".docx") ==>
              r.calls == [DocxResave(input, output)] &&
              (r.outcome == Pass <==> env.completes(DocxResave(input, output)))
    // txt to pdf: the text is read and drawn into the pdf
    ensures target == "pdf" && !EndsWith(input, ".docx") && EndsWith(input, ".txt") ==>
              if env.text(input).None? then r.outcome == Fail(CallFailed(ReadText(input)))
              else r.calls == [ReadText(input), DrawPdf(output, env.text(input).value)] &&
                   (r.outcome == Pass <==> env.completes(DrawPdf(output, env.text(input).value)))
    // pdf to txt: the page texts are written in page order
    ensures target == "txt" && EndsWith(input, ".pdf") ==>
              if env.pages(input).None? then r.outcome == Fail(CallFailed(ReadPdfPages(input)))
              else r.calls == [ReadPdfPages(input), WriteText(output, PageText(env.pages(input).value))] &&
                   (r.outcome == Pass <==> env.completes(WriteText(output, PageText(env.pages(input).value))))
    // docx to txt: every paragraph is written on its own line
    ensures target == "txt" && !EndsWith(input, ".pdf") && EndsWith(input, ".docx") ==>
              if env.paragraphs(input).None? then r.outcome == Fail(CallFailed(ReadDocxParagraphs(input)))
              else r.calls == [ReadDocxParagraphs(input), WriteText(output, ParagraphText(env.paragraphs(input).value))] &&
                   (r.outcome == Pass <==> env.completes(WriteText(output, ParagraphText(env.paragraphs(input).value))))
    // every other pair returns without doing anything
    ensures target == "pdf" && !EndsWith(input, ".docx") && !EndsWith(input, ".txt") ==>
              r == Run([], [], fs, Pass)
    ensures target == "txt" && !EndsWith(input, ".pdf") && !EndsWith(input, ".docx") ==>
              r == Run([], [], fs, Pass)
  {
    if target == "pdf" then ToPdf(env, fs, input, output)
    else if target == "txt" then ToTxt(env, fs, input, output)
    else Run([], [], fs, Fail(UnsupportedDocumentConversion(Ext(input), target)))
  }
}
