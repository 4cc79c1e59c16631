/** The format classifier of `FileConverter`: a fixed registry from seven
    categories to their extension lists, looked up through the last
    extension of a path (`supported_formats`, `get_file_type`,
    `get_target_formats`, `get_current_format`). */
module Registry {
  import opened Results
  import opened Paths

  datatype Category = Photos | Videos | Vectors | Audio | Documents | Archives | Ebooks

  /** The registry's iteration order: the order in which its dictionary was
      built, which decides classification when two categories list the same
      format. */
  const Order: seq<Category> := [Photos, Videos, Vectors, Audio, Documents, Archives, Ebooks]

  /** Position of a category in `Order`. */
  function Rank(c: Category): (r: nat)
    ensures r < |Order| && Order[r] == c
  {
    match c
    case Photos => 0
    case Videos => 1
    case Vectors => 2
    case Audio => 3
    case Documents => 4
    case Archives => 5
    case Ebooks => 6
  }

  lemma RankOfOrder(i: nat)
    requires i < |Order|
    ensures Rank(Order[i]) == i
  {
  }

  /** The registry entry of a category, in its preferred order. */
  function FormatsOf(c: Category): (r: seq<string>)
    ensures |r| >= 3 && r[0] != r[1]
  {
    match c
    case Photos => ["jpg", "png", "gif", "bmp", "tiff", "webp"]
    case Videos => ["mp4", "avi", "mov", "mkv", "webm"]
    case Vectors => ["svg", "eps", "ai"]
    case Audio => ["mp3", "wav", "ogg", "flac", "aac"]
    case Documents => ["pdf", "docx", "txt", "rtf", "odt"]
    case Archives => ["zip", "tar", "gz", "rar", "7z"]
    case Ebooks => ["epub", "mobi", "azw3", "fb2", "lit", "txt", "rtf", "pdf"]
  }

  /** Every entry of a category's list is a non-empty lower-case name. */
  lemma CategoryIsLowerCase(c: Category)
    ensures forall f :: f in FormatsOf(c) ==> f != [] && IsLowerCase(f)
  {
    if Rank(c) < 4 {
      MediaAreLowerCase(c);
    } else {
      OthersAreLowerCase(c);
    }
  }

  lemma MediaAreLowerCase(c: Category)
    requires Rank(c) < 4
    ensures forall f :: f in FormatsOf(c) ==> f != [] && IsLowerCase(f)
  {
    match c
    case Photos =>
    case Videos =>
    case Vectors =>
    case Audio =>
  }

  lemma OthersAreLowerCase(c: Category)
    requires Rank(c) >= 4
    ensures forall f :: f in FormatsOf(c) ==> f != [] && IsLowerCase(f)
  {
    match c
    case Documents =>
    case Archives =>
    case Ebooks =>
  }

  /** Lower-casing a registry entry changes nothing. */
  lemma FormatsAreLowerCase(c: Category, f: string)
    requires f in FormatsOf(c)
    ensures f != [] && Lower(f) == f
  {
    CategoryIsLowerCase(c);
    LowerOfLowerCase(f);
  }

  /** `get_current_format`: the last extension of the path, without its dot,
      lower-cased; "" when the path has no extension. */
  function CurrentFormat(p: string): (r: string)
    ensures '.' !in r && '/' !in r && IsLowerCase(r)
  {
    var e := DropFirst(Ext(p));
    assert forall c :: c in e ==> c in Ext(p);
    LowerIsLowerCase(e);
    Lower(e)
  }

  /** The registry's lists in iteration order. */
  function Lists(): (r: seq<seq<string>>)
    ensures |r| == |Order| && forall i :: 0 <= i < |Order| ==> r[i] == FormatsOf(Order[i])
  {
    seq(|Order|, i requires 0 <= i < |Order| => FormatsOf(Order[i]))
  }

  /** Index of the first list of `lists` that holds `f`: the loop over the
      registry's items. */
  function FirstHolding(lists: seq<seq<string>>, f: string): (r: Option<nat>)
    ensures r.Some? ==> r.value < |lists| && f in lists[r.value]
    ensures r.Some? ==> forall j :: 0 <= j < r.value ==> f !in lists[j]
    ensures r.None? <==> forall j :: 0 <= j < |lists| ==> f !in lists[j]
    decreases |lists|
  {
    if |lists| == 0 then None
    else if f in lists[0] then Some(0)
    else
      assert forall j :: 1 <= j < |lists| ==> lists[j] == lists[1..][j - 1];
      match FirstHolding(lists[1..], f)
      case None => None
      case Some(i) => Some(i + 1)
  }

  /** What the first holding list says about the categories themselves. */
  lemma FirstHoldingInOrder(f: string)
    ensures FirstHolding(Lists(), f).None? ==> forall c :: f !in FormatsOf(c)
    ensures FirstHolding(Lists(), f).Some? ==>
              FirstHolding(Lists(), f).value < |Order| &&
              Rank(Order[FirstHolding(Lists(), f).value]) == FirstHolding(Lists(), f).value &&
              f in FormatsOf(Order[FirstHolding(Lists(), f).value]) &&
              forall c :: Rank(c) < FirstHolding(Lists(), f).value ==> f !in FormatsOf(c)
  {
    match FirstHolding(Lists(), f)
    case None =>
      forall c ensures f !in FormatsOf(c) {
        assert Lists()[Rank(c)] == FormatsOf(c);
      }
    case Some(i) =>
      RankOfOrder(i);
      assert Lists()[i] == FormatsOf(Order[i]);
      forall c | Rank(c) < i ensures f !in FormatsOf(c) {
        assert Lists()[Rank(c)] == FormatsOf(c);
      }
  }

  /** `get_file_type`: the first category, in registry order, whose list holds
      the path's current format; None when no list holds it. */
  function GetFileType(p: string): (r: Option<Category>)
    ensures r.Some? ==> CurrentFormat(p) in FormatsOf(r.value)
    ensures r.Some? ==> forall c :: Rank(c) < Rank(r.value) ==> CurrentFormat(p) !in FormatsOf(c)
    ensures r.None? <==> forall c :: CurrentFormat(p) !in FormatsOf(c)
  {
    var f := CurrentFormat(p);
    FirstHoldingInOrder(f);
    match FirstHolding(Lists(), f)
    case None => None
    case Some(i) => Some(Order[i])
  }

  /** `get_target_formats`: the registry entry for a category key; None stands
      for any key that names no category (Python's None among them). */
  function TargetFormats(key: Option<Category>): (r: seq<string>)
    ensures key.None? <==> r == []
    ensures key.Some? ==> |r| >= 3 && r[0] != r[1]
    ensures forall f :: f in r ==> f != [] && IsLowerCase(f)
  {
    match key
    case None => []
    case Some(c) => CategoryIsLowerCase(c); FormatsOf(c)
  }

  /** A format listed by category `c` and by no category ahead of it
      classifies as `c`. */
  lemma ClassifiedAs(p: string, c: Category)
    requires CurrentFormat(p) in FormatsOf(c)
    requires forall d :: Rank(d) < Rank(c) ==> CurrentFormat(p) !in FormatsOf(d)
    ensures GetFileType(p) == Some(c)
  {
    var r := GetFileType(p);
    assert r.Some?;
    if Rank(r.value) < Rank(c) {
      assert false;
    } else if Rank(c) < Rank(r.value) {
      assert false;
    }
  }

  /** For any classified path, its current format is among the targets the
      registry offers for its category. */
  lemma CurrentFormatIsTarget(p: string)
    ensures GetFileType(p).Some? ==>
              CurrentFormat(p) in TargetFormats(GetFileType(p)) && |TargetFormats(GetFileType(p))| >= 3
    ensures GetFileType(p).None? ==> TargetFormats(GetFileType(p)) == []
  {
  }

  /** The current format of `root.ext` is the lower-cased `ext`. */
  lemma CurrentFormatOfAppend(root: string, ext: string)
    requires '.' !in ext && '/' !in ext
    requires NamedComponent(root)
    ensures CurrentFormat(root + "." + ext) == Lower(ext)
  {
    SplitExtAppend(root, ext);
    assert DropFirst("." + ext) == ext;
  }

  /** Joining `stem.ext` onto any directory, for a stem without separators
      but with a non-dot character, gives a path named `stem.ext` whose
      current format is the lower-cased `ext`. */
  lemma CurrentFormatOfJoin(dir: string, stem: string, ext: string)
    requires '/' !in stem && HasNonDot(stem, 0, |stem|)
    requires '.' !in ext && '/' !in ext
    ensures Basename(Join(dir, stem + "." + ext)) == stem + "." + ext
    ensures CurrentFormat(Join(dir, stem + "." + ext)) == Lower(ext)
  {
    var name := stem + "." + ext;
    assert '/' !in name by {
      assert forall i :: 0 <= i < |name| ==> name[i] == if i < |stem| then stem[i] else ("." + ext)[i - |stem|];
    }
    BasenameOfJoin(dir, name);
    var k :| 0 <= k < |stem| && stem[k] != '.';
    assert stem[0] != '/' by { assert stem[0] in stem; }
    JoinAppend(dir, stem, ".");
    JoinAppend(dir, stem + ".", ext);
    NamedComponentOfJoin(dir, stem);
    CurrentFormatOfAppend(Join(dir, stem), ext);
  }

  /** Only the LAST extension is looked at: every `*.tar.gz` path, hidden
      names such as `.tar.gz` included, classifies as an archive through
      "gz", and its current format is "gz". */
  lemma TarGzClassifiesThroughGz(root: string)
    ensures CurrentFormat(root + ".tar.gz") == "gz"
    ensures GetFileType(root + ".tar.gz") == Some(Archives)
  {
    var r := root + ".tar";
    RFindAppend(root, ".tar", '/');
    assert r[|root| + 1] == 't';
    assert NamedComponent(r);
    assert r + "." + "gz" == root + ".tar.gz";
    CurrentFormatOfAppend(r, "gz");
    LowerOfLowerCase("gz");
    GzIsArchive();
    ClassifiedAs(root + ".tar.gz", Archives);
  }

  /** Classification lower-cases the extension: a named `*.ZIP` file is an
      archive. */
  lemma UpperCaseZipClassifies(root: string)
    requires NamedComponent(root)
    ensures GetFileType(root + ".ZIP") == Some(Archives)
  {
    UpperCaseZipFormat(root);
    ZipIsArchive();
    ClassifiedAs(root + ".ZIP", Archives);
  }

  lemma UpperCaseZipFormat(root: string)
    requires NamedComponent(root)
    ensures CurrentFormat(root + ".ZIP") == "zip"
  {
    CurrentFormatOfAppend(root, "ZIP");
    assert root + "." + "ZIP" == root + ".ZIP";
    LowerZip();
  }

  lemma LowerZip()
    ensures Lower("ZIP") == "zip"
  {
    var l := Lower("ZIP");
    assert l[0] == 'z' && l[1] == 'i' && l[2] == 'p';
  }

  /** Every `*.txt` file classifies as a document: photos, videos,
      vectors and audio come first and none of them lists "txt". */
  lemma TextFileIsDocument(root: string)
    requires NamedComponent(root)
    ensures Ext(root + ".txt") == ".txt"
    ensures GetFileType(root + ".txt") == Some(Documents)
  {
    SplitExtAppend(root, "txt");
    assert root + "." + "txt" == root + ".txt";
    CurrentFormatOfAppend(root, "txt");
    LowerOfLowerCase("txt");
    TxtIsDocument();
    ClassifiedAs(root + ".txt", Documents);
  }

  /** "txt" is listed by the documents and by no category ahead of them. */
  lemma TxtIsDocument()
    ensures "txt" in FormatsOf(Documents)
    ensures forall d :: Rank(d) < Rank(Documents) ==> "txt" !in FormatsOf(d)
  {
    forall d | Rank(d) < Rank(Documents)
      ensures "txt" !in FormatsOf(d)
    {
      match d
      case Photos =>
      case Videos =>
      case Vectors =>
      case Audio =>
    }
  }

  /** The registry lookup written out as a chain of membership tests, one
      per category in dictionary order: a reference for `GetFileType`. */
  function Listing(f: string): Option<Category>
  {
    if f in FormatsOf(Photos) then Some(Photos)
    else if f in FormatsOf(Videos) then Some(Videos)
    else if f in FormatsOf(Vectors) then Some(Vectors)
    else if f in FormatsOf(Audio) then Some(Audio)
    else if f in FormatsOf(Documents) then Some(Documents)
    else if f in FormatsOf(Archives) then Some(Archives)
    else if f in FormatsOf(Ebooks) then Some(Ebooks)
    else None
  }

  /** `get_file_type` agrees with the chain of membership tests on every
      path. */
  lemma GetFileTypeIsListing(p: string)
    ensures GetFileType(p) == Listing(CurrentFormat(p))
  {
    var f := CurrentFormat(p);
    match Listing(f)
    case None =>
      forall c ensures f !in FormatsOf(c) {
        match c
        case Photos =>
        case Videos =>
        case Vectors =>
        case Audio =>
        case Documents =>
        case Archives =>
        case Ebooks =>
      }
    case Some(c) =>
      forall d | Rank(d) < Rank(c) ensures f !in FormatsOf(d) {
        match d
        case Photos =>
        case Videos =>
        case Vectors =>
        case Audio =>
        case Documents =>
        case Archives =>
        case Ebooks =>
      }
      ClassifiedAs(p, c);
  }

  /** How the shared formats are listed: by the documents, ahead of the
      ebooks. */
  lemma SharedFormatListings()
    ensures Listing("txt") == Some(Documents) && "txt" in FormatsOf(Ebooks)
    ensures Listing("rtf") == Some(Documents) && "rtf" in FormatsOf(Ebooks)
    ensures Listing("pdf") == Some(Documents) && "pdf" in FormatsOf(Ebooks)
  {
  }

  /** "txt", "rtf" and "pdf" are listed by the documents and by the ebooks;
      the documents come first, so such files are never ebooks. */
  lemma SharedFormatsAreDocuments(p: string)
    requires CurrentFormat(p) in ["txt", "rtf", "pdf"]
    ensures CurrentFormat(p) in FormatsOf(Ebooks)
    ensures GetFileType(p) == Some(Documents)
  {
    GetFileTypeIsListing(p);
    SharedFormatListings();
  }

  /** No registered format is longer than four characters. */
  lemma FormatsAreShort(c: Category)
    ensures forall f :: f in FormatsOf(c) ==> |f| <= 4
  {
    match c
    case Photos =>
    case Videos =>
    case Vectors =>
    case Audio =>
    case Documents =>
    case Archives =>
    case Ebooks =>
  }

  /** A path whose current format is longer than any registered one is
      unclassified. */
  lemma LongFormatsAreUnclassified(p: string)
    requires |CurrentFormat(p)| > 4
    ensures GetFileType(p) == None
  {
    forall c ensures CurrentFormat(p) !in FormatsOf(c) {
      FormatsAreShort(c);
    }
  }

  /** A file named `example.<ext>`, for a lower-case extension, classifies
      by the listing of `ext`. */
  lemma ExampleFile(ext: string)
    requires ext != [] && '.' !in ext && '/' !in ext && IsLowerCase(ext)
    ensures CurrentFormat("example." + ext) == ext
    ensures GetFileType("example." + ext) == Listing(ext)
  {
    var root := "example";
    assert NamedComponent(root) by {
      RFindAt(root, '/', -1);
      assert root[0] != '.';
    }
    assert root + "." + ext == "example." + ext;
    CurrentFormatOfAppend(root, ext);
    LowerOfLowerCase(ext);
    GetFileTypeIsListing("example." + ext);
  }

  /** An extension no category lists leaves the file unclassified, as the
      project's own tests expect of `example.unknown`. */
  lemma ExampleUnknownIsUnclassified()
    ensures GetFileType("example." + "unknown") == None
  {
    ExampleFile("unknown");
    LongFormatsAreUnclassified("example." + "unknown");
  }

  /** A format only the ebooks list classifies as an ebook, as the
      project's own tests expect of `example.epub`. */
  lemma ExampleEpubIsEbook()
    ensures GetFileType("example." + "epub") == Some(Ebooks)
  {
    EpubListing();
    ExampleFile("epub");
  }

  lemma EpubListing()
    ensures Listing("epub") == Some(Ebooks)
  {
  }

  /** `example.jpg` classifies as photos, as the project's own tests
      expect. */
  lemma ExampleJpgIsPhoto()
    ensures GetFileType("example." + "jpg") == Some(Photos)
  {
    JpgListing();
    ExampleFile("jpg");
  }

  lemma JpgListing()
    ensures Listing("jpg") == Some(Photos)
  {
  }

  /** `example.mp4` classifies as videos, as the project's own tests
      expect. */
  lemma ExampleMp4IsVideo()
    ensures GetFileType("example." + "mp4") == Some(Videos)
  {
    Mp4Listing();
    ExampleFile("mp4");
  }

  lemma Mp4Listing()
    ensures Listing("mp4") == Some(Videos)
  {
  }

  /** `example.svg` classifies as vectors, as the project's own tests
      expect. */
  lemma ExampleSvgIsVector()
    ensures GetFileType("example." + "svg") == Some(Vectors)
  {
    SvgListing();
    ExampleFile("svg");
  }

  lemma SvgListing()
    ensures Listing("svg") == Some(Vectors)
  {
  }

  /** `example.mp3` classifies as audio, as the project's own tests
      expect. */
  lemma ExampleMp3IsAudio()
    ensures GetFileType("example." + "mp3") == Some(Audio)
  {
    Mp3Listing();
    ExampleFile("mp3");
  }

  lemma Mp3Listing()
    ensures Listing("mp3") == Some(Audio)
  {
  }

  /** `example.docx` classifies as documents, as the project's own tests
      expect. */
  lemma ExampleDocxIsDocument()
    ensures GetFileType("example." + "docx") == Some(Documents)
  {
    DocxListing();
    ExampleFile("docx");
  }

  lemma DocxListing()
    ensures Listing("docx") == Some(Documents)
  {
  }

  /** `example.zip` classifies as archives, as the project's own tests
      expect. */
  lemma ExampleZipIsArchive()
    ensures GetFileType("example." + "zip") == Some(Archives)
  {
    ZipListing();
    ExampleFile("zip");
  }

  lemma ZipListing()
    ensures Listing("zip") == Some(Archives)
  {
  }

  /** "gz" is listed by the archives and by no category ahead of them. */
  lemma GzIsArchive()
    ensures "gz" in FormatsOf(Archives)
    ensures forall d :: Rank(d) < Rank(Archives) ==> "gz" !in FormatsOf(d)
  {
    forall d | Rank(d) < Rank(Archives)
      ensures "gz" !in FormatsOf(d)
    {
      match d
      case Photos =>
      case Videos =>
      case Vectors =>
      case Audio =>
      case Documents =>
    }
  }

  /** "zip" is listed by the archives and by no category ahead of them. */
  lemma ZipIsArchive()
    ensures "zip" in FormatsOf(Archives)
    ensures forall d :: Rank(d) < Rank(Archives) ==> "zip" !in FormatsOf(d)
  {
    forall d | Rank(d) < Rank(Archives)
      ensures "zip" !in FormatsOf(d)
    {
      match d
      case Photos =>
      case Videos =>
      case Vectors =>
      case Audio =>
      case Documents =>
    }
  }
}
