/**
 * The document side of the knowledge processor for one file: the choice of
 * extractor by extension, the four extractors with their emptiness checks and
 * error messages, and `process_single_file`, which turns a file into a
 * titled, hashed and identified document or an error.
 *
 * PyMuPDF, ebooklib, mobi, BeautifulSoup, file reading, NFKC, SHA-256,
 * `str.isalnum` and `str.title` are the fields of a `Library` value.
 */
module Extract {
  import opened PyStr
  import opened Normalize
  import opened DocId

  // ---------------------------------------------------------------------------
  // The extractor map of process_single_file
  // ---------------------------------------------------------------------------

  datatype Kind = PlainText | Pdf | Epub | Mobi | Unsupported

  /** `extractor_map`: lower-case extension to extractor. */
  const EXTRACTORS: map<string, Kind> := map[
    ".txt" := PlainText, ".md" := PlainText, ".markdown" := PlainText, ".rst" := PlainText,
    ".csv" := PlainText, ".tsv" := PlainText, ".log" := PlainText, ".json" := PlainText,
    ".xml" := PlainText, ".yaml" := PlainText, ".yml" := PlainText, ".toml" := PlainText,
    ".ini" := PlainText, ".cfg" := PlainText, ".conf" := PlainText, ".sql" := PlainText,
    ".tex" := PlainText, ".rtf" := PlainText,
    ".pdf" := Pdf, ".epub" := Epub, ".mobi" := Mobi]

  function Dispatch(ext: string): Kind {
    if ext in EXTRACTORS then EXTRACTORS[ext] else Unsupported
  }

  /** The extension `process_single_file` looks up: `splitext(basename)[1].lower()`. */
  function ExtensionOf(path: string): string {
    Lower(SplitExtExt(Basename(path)))
  }

  function KindOf(path: string): Kind {
    Dispatch(ExtensionOf(path))
  }

  /** The table's keys are dotted lower-case extensions, and exactly they are supported. */
  lemma DispatchTable(ext: string)
    ensures Dispatch(ext) != Unsupported <==> ext in EXTRACTORS
    ensures ext in EXTRACTORS ==> |ext| >= 3 && ext[0] == '.' && Lower(ext) == ext
  {
  }

  /**
   * The look-up ignores the directory and the case of the extension, so the
   * same extractor is chosen.
   */
  lemma ExtensionIgnoresCase(dir: string, name: string, other: string)
    requires '/' !in name && '/' !in other
    requires |name| == |other| && forall i :: 0 <= i < |name| ==> LowerChar(name[i]) == LowerChar(other[i])
    requires SplitExtIndex(name) == SplitExtIndex(other)
    ensures ExtensionOf(dir + "/" + name) == ExtensionOf(other)
  {
    BasenameAfterSlash(dir, name);
    BasenameOfName(other);
    LowerExtension(name, other);
  }

  lemma BasenameOfName(name: string)
    requires '/' !in name
    ensures Basename(name) == name
  {
    assert LastIndexOf(name, '/') == -1;
  }

  lemma LowerExtension(name: string, other: string)
    requires |name| == |other| && forall i :: 0 <= i < |name| ==> LowerChar(name[i]) == LowerChar(other[i])
    requires SplitExtIndex(name) == SplitExtIndex(other)
    ensures Lower(SplitExtExt(name)) == Lower(SplitExtExt(other))
  {
    match SplitExtIndex(name)
    case None =>
    case Some(d) =>
      assert SplitExtExt(name) == name[d..] && SplitExtExt(other) == other[d..];
      LowerSuffixAgree(name, other, d);
  }

  /** Strings equal up to case have suffixes equal up to case. */
  lemma LowerSuffixAgree(name: string, other: string, d: nat)
    requires |name| == |other| && forall i :: 0 <= i < |name| ==> LowerChar(name[i]) == LowerChar(other[i])
    requires d <= |name|
    ensures Lower(name[d..]) == Lower(other[d..])
  {
    var e := name[d..];
    var f := other[d..];
    forall i | 0 <= i < |e| ensures Lower(e)[i] == Lower(f)[i] {
      assert e[i] == name[d + i] && f[i] == other[d + i];
    }
  }

  /** The extension of a name starts at its last dot when a non-dot comes before it. */
  lemma ExtensionAt(name: string, d: nat, w: nat)
    requires '/' !in name && w < d < |name| && name[d] == '.' && name[w] != '.'
    requires forall k :: d < k < |name| ==> name[k] != '.'
    ensures SplitExtIndex(name) == Some(d)
  {
    assert LastIndexOf(name, '/') == -1;
    assert LastIndexOf(name, '.') == d;
  }

  /** An upper-case extension in a directory still selects its extractor. */
  lemma UpperCaseExtension()
    ensures KindOf("books/Guide.PDF") == Pdf
  {
    GuideExtension();
    assert ".pdf" in EXTRACTORS;
  }

  lemma GuideExtension()
    ensures ExtensionOf("books/Guide.PDF") == ".pdf"
  {
    var name := "Guide.PDF";
    assert "books/Guide.PDF" == "books" + "/" + name;
    BasenameAfterSlash("books", name);
    ExtensionAt(name, 5, 0);
    assert name[5..] == ".PDF";
    LowerPdf();
  }

  lemma LowerPdf()
    ensures Lower(".PDF") == ".pdf"
  {
    var l := Lower(".PDF");
    assert l[0] == '.' && l[1] == 'p' && l[2] == 'd' && l[3] == 'f';
  }

  /** A hidden file named like an extension has no extension, so it is refused. */
  lemma HiddenFileUnsupported()
    ensures KindOf(".md") == Unsupported
  {
    assert '/' !in ".md";
    assert LastIndexOf(".md", '/') == -1;
    assert LastIndexOf(".md", '.') == 0;
    assert SplitExtIndex(".md") == None;
    assert Lower([]) == [];
    assert [] !in EXTRACTORS;
  }

  /** Only the last suffix counts: a compressed archive is refused. */
  lemma LastSuffixOnly()
    ensures KindOf("archive.tar.gz") == Unsupported
  {
    var name := "archive.tar.gz";
    assert '/' !in name;
    ExtensionAt(name, 11, 0);
    assert name[11..] == ".gz";
    assert Lower(".gz") == ".gz" by {
      var l := Lower(".gz");
      assert l[0] == '.' && l[1] == 'g' && l[2] == 'z';
    }
    assert ".gz" !in EXTRACTORS;
  }

  // ---------------------------------------------------------------------------
  // The extractors
  // ---------------------------------------------------------------------------

  /** What a foreign call returns: a value, or the message of the exception it raised. */
  datatype Outcome<T> = Ok(value: T) | Failed(reason: string)

  /** The libraries and the file system, as functions. */
  datatype Library = Library(
    readText: string -> Outcome<string>,                  // open(..., 'utf-8' then 'latin-1').read()
    pdfPages: string -> Outcome<seq<string>>,             // page.get_text("text") per page
    epubDocuments: string -> Outcome<seq<(string, string)>>, // (get_name() or '', body) per document item
    mobiFiles: string -> Outcome<seq<(string, string)>>,  // (file name, contents) of the unpacked tree, walk order
    markedText: string -> string,                         // BeautifulSoup text with the code markers inserted
    nfkc: string -> string,
    sha256Hex: string -> string,
    isAlnum: char -> bool,
    title: string -> string)

  /** `raise ExtractionError(f"Reason: {e}")` around every extractor. */
  function Reason(e: string): string { "Reason: " + e }

  /** `extract_text_from_txt`; `not text.strip()` is `AllSpace(text)`. */
  function ExtractTxt(lib: Library, path: string): (r: Outcome<string>)
    ensures r.Failed? ==> StartsWith(r.reason, "Reason: ")
  {
    match lib.readText(path)
    case Failed(e) => Failed(Reason(e))
    case Ok(raw) =>
      var text := NormalizeCodeSafe(raw, lib.nfkc);
      if AllSpace(text) then Failed(Reason("Empty text after normalization.")) else Ok(text)
  }

  /** `extract_text_from_pdf`: the pages joined, then normalised. */
  function ExtractPdf(lib: Library, path: string): (r: Outcome<string>)
    ensures r.Failed? ==> StartsWith(r.reason, "Reason: ")
  {
    match lib.pdfPages(path)
    case Failed(e) => Failed(Reason(e))
    case Ok(pages) =>
      var text := NormalizeCodeSafe(Concat(pages), lib.nfkc);
      if text == [] then Failed(Reason("No selectable text found (likely scanned PDF).")) else Ok(text)
  }

  /** `_html_to_text_preserving_code` */
  function HtmlToText(lib: Library, html: string): string {
    NormalizeCodeSafe(lib.markedText(html), lib.nfkc)
  }

  /** The parts of an EPUB: documents not named `*.css` whose text is not blank. */
  function EpubParts(lib: Library, docs: seq<(string, string)>): (parts: seq<string>)
    ensures forall k :: 0 <= k < |parts| ==> !AllSpace(parts[k])
  {
    if docs == [] then []
    else
      var t := HtmlToText(lib, docs[0].1);
      var keep := !EndsWith(Lower(docs[0].0), ".css") && !AllSpace(t);
      (if keep then [t] else []) + EpubParts(lib, docs[1..])
  }

  /** `extract_text_from_epub` */
  function ExtractEpub(lib: Library, path: string): (r: Outcome<string>)
    ensures r.Failed? ==> StartsWith(r.reason, "Reason: ")
  {
    match lib.epubDocuments(path)
    case Failed(e) => Failed(Reason(e))
    case Ok(docs) =>
      var parts := EpubParts(lib, docs);
      if parts == [] then Failed(Reason("No text documents found in EPUB.")) else Ok(Join(parts, "\n\n"))
  }

  predicate IsMarkupOrText(name: string) {
    var n := Lower(name);
    EndsWith(n, ".html") || EndsWith(n, ".htm") || EndsWith(n, ".txt")
  }

  /** The parts of an unpacked MOBI: every `.html`, `.htm` or `.txt` file, blank or not. */
  function MobiParts(lib: Library, files: seq<(string, string)>): (parts: seq<string>)
    ensures |parts| <= |files|
  {
    if files == [] then []
    else
      (if IsMarkupOrText(files[0].0) then [HtmlToText(lib, files[0].1)] else [])
      + MobiParts(lib, files[1..])
  }

  /** `extract_text_from_mobi` */
  function ExtractMobi(lib: Library, path: string): (r: Outcome<string>)
    ensures r.Failed? ==> StartsWith(r.reason, "Reason: ")
  {
    match lib.mobiFiles(path)
    case Failed(e) => Failed(Reason(e))
    case Ok(files) =>
      var parts := MobiParts(lib, files);
      if parts == [] then Failed(Reason("No text content found after MOBI unpack.")) else Ok(Join(parts, "\n\n"))
  }

  function Extract(lib: Library, kind: Kind, path: string): (r: Outcome<string>)
    requires kind != Unsupported
    ensures r.Failed? ==> StartsWith(r.reason, "Reason: ")
  {
    match kind
    case PlainText => ExtractTxt(lib, path)
    case Pdf => ExtractPdf(lib, path)
    case Epub => ExtractEpub(lib, path)
    case Mobi => ExtractMobi(lib, path)
  }

  /** A part that is not blank makes a join that is not blank. */
  lemma {:induction false} JoinNotBlank(parts: seq<string>, sep: string)
    requires parts != [] && !AllSpace(parts[0])
    ensures !AllSpace(Join(parts, sep))
  {
    var j := Join(parts, sep);
    var i :| 0 <= i < |parts[0]| && !IsSpace(parts[0][i]);
    if |parts| > 1 {
      assert j == parts[0] + (sep + Join(parts[1..], sep));
    }
    assert j[i] == parts[0][i];
  }

  /**
   * The plain-text, PDF and EPUB extractors never return blank text; a MOBI
   * whose markup files hold no text does (two newlines for two such files).
   */
  lemma ExtractedNotBlank(lib: Library, kind: Kind, path: string)
    requires kind == PlainText || kind == Pdf || kind == Epub
    ensures Extract(lib, kind, path).Ok? ==> !AllSpace(Extract(lib, kind, path).value)
  {
    if kind == Pdf && lib.pdfPages(path).Ok? {
      CodeSafeNeverBlank(Concat(lib.pdfPages(path).value), lib.nfkc);
    }
    if kind == Epub && lib.epubDocuments(path).Ok? {
      var parts := EpubParts(lib, lib.epubDocuments(path).value);
      if parts != [] { JoinNotBlank(parts, "\n\n"); }
    }
  }

  /**
   * The way to a blank extracted text: a MOBI whose only text file holds no
   * text, which `process_single_file` then reports as empty.
   */
  lemma BlankMobi(lib: Library, path: string, prefix: string, title: string, contents: string)
    requires lib.mobiFiles(path) == Ok([("a.txt", contents)])
    requires HtmlToText(lib, contents) == ""
    ensures Extract(lib, Mobi, path) == Ok("")
    ensures ProcessKind(lib, path, prefix, title, Mobi) == Error("Extracted text is empty.")
  {
    var l := Lower("a.txt");
    assert l[0] == 'a' && l[1] == '.' && l[2] == 't' && l[3] == 'x' && l[4] == 't';
    assert l[1..] == ".txt";
    assert IsMarkupOrText("a.txt");
    var files := [("a.txt", contents)];
    assert files[1..] == [];
    assert MobiParts(lib, files) == [""];
  }

  // ---------------------------------------------------------------------------
  // process_single_file
  // ---------------------------------------------------------------------------

  /**
   * What `process_single_file` returns for a file: a document, an error
   * entry, or an exception that escapes it (`int(hash_hex, 16)` is outside
   * its `try`), which the worker records as a crash.
   */
  datatype FileResult =
    | Document(shortId: string, fullHash: string, title: string, text: string)
    | Error(message: string)
    | Raised

  /** The text that is hashed for a document: its normalised title and a sample of its text. */
  function HashContent(lib: Library, title: string, text: string): string {
    NormalizeCodeSafe(title, lib.nfkc) + StableSample(text, 2000)
  }

  /** `process_single_file(path, prefix)` */
  function ProcessSingleFile(lib: Library, path: string, prefix: string): FileResult {
    ProcessKind(lib, path, prefix, NormalizeTitleFromPath(path, lib.isAlnum, lib.title, lib.nfkc), KindOf(path))
  }

  /**
   * `process_single_file` once the title and the extractor are chosen: the
   * unsupported case, or what the extractor gives.
   */
  function ProcessKind(lib: Library, path: string, prefix: string, title: string, kind: Kind): (r: FileResult)
    ensures r == Error("Unsupported file type") <==> kind == Unsupported
    ensures r.Error? ==>
      (r.message == "Unsupported file type" || r.message == "Extracted text is empty."
       || StartsWith(r.message, "ExtractionError: Reason: "))
  {
    if kind == Unsupported then Error("Unsupported file type")
    else FromExtracted(lib, title, prefix, Extract(lib, kind, path))
  }

  /** The extractor's error, the blank text, or a document. */
  function FromExtracted(lib: Library, title: string, prefix: string, extracted: Outcome<string>): (r: FileResult)
    requires extracted.Failed? ==> StartsWith(extracted.reason, "Reason: ")
    ensures r.Error? ==>
      (r.message == "Extracted text is empty." || StartsWith(r.message, "ExtractionError: Reason: "))
    ensures r.Error? ==> r.message[0] == 'E'
  {
    match extracted
    case Failed(e) =>
      var m := "ExtractionError: " + e;
      assert m[..25] == "ExtractionError: " + e[..8];
      Error(m)
    case Ok(text) =>
      if AllSpace(text) then Error("Extracted text is empty.") else MakeDocument(lib, title, text, prefix)
  }

  /** The document for a non-blank text: its stable hash and the short id derived from it. */
  function MakeDocument(lib: Library, title: string, text: string, prefix: string): (r: FileResult)
    ensures !r.Error?
  {
    var fullHash := StableHash(HashContent(lib, title, text), lib.sha256Hex);
    match GenerateShortId(fullHash, prefix, 6, lib.sha256Hex)
    case None => Raised
    case Some(id) => Document(id, fullHash, title, text)
  }

  /** A SHA-256 that always yields a hex digest. */
  ghost predicate DigestsAreHex(sha256Hex: string -> string) {
    forall s :: IsHexDigest(sha256Hex(s))
  }

  /**
   * With a real SHA-256 a document is always made: it carries the stable hash
   * of its title and sample and an id of the prefix and six to ten base-36
   * digits that read back as the first 12 hex digits of that hash.
   */
  lemma DocumentId(lib: Library, title: string, text: string, prefix: string)
    requires DigestsAreHex(lib.sha256Hex)
    ensures var r := MakeDocument(lib, title, text, prefix);
      r.Document? && r.title == title && r.text == text
      && r.fullHash == StableHash(HashContent(lib, title, text), lib.sha256Hex)
      && IsStableHash(r.fullHash)
      && StartsWith(r.shortId, prefix)
      && 6 <= |r.shortId| - |prefix| <= 10
      && FromBase(r.shortId[|prefix|..], 36) == HexValue(r.fullHash[7..19])
      && forall i :: |prefix| <= i < |r.shortId| ==> IsIdChar(r.shortId[i])
  {
    var content := HashContent(lib, title, text);
    var h := StableHash(content, lib.sha256Hex);
    assert IsHexDigest(lib.sha256Hex(content));
    StableHashShape(content, lib.sha256Hex);
    ShortIdOfStableHash(h, prefix, 6, lib.sha256Hex);
    var id := GenerateShortId(h, prefix, 6, lib.sha256Hex).value;
    forall i | |prefix| <= i < |id| ensures IsIdChar(id[i]) {
      assert id[i] == id[|prefix|..][i - |prefix|];
    }
  }

  /**
   * A processed file is a document exactly when its extension is supported,
   * its extractor succeeds and the text is not blank; the document carries
   * the title of its path and that text, and nothing escapes.
   */
  lemma ProcessedDocument(lib: Library, path: string, prefix: string)
    requires DigestsAreHex(lib.sha256Hex)
    ensures var r := ProcessSingleFile(lib, path, prefix);
      var kind := KindOf(path);
      !r.Raised?
      && (r.Document? <==>
          kind != Unsupported && Extract(lib, kind, path).Ok? && !AllSpace(Extract(lib, kind, path).value))
      && (r.Document? ==>
          Extract(lib, kind, path) == Ok(r.text)
          && r.title == NormalizeTitleFromPath(path, lib.isAlnum, lib.title, lib.nfkc)
          && r == MakeDocument(lib, r.title, r.text, prefix))
  {
    var title := NormalizeTitleFromPath(path, lib.isAlnum, lib.title, lib.nfkc);
    var kind := KindOf(path);
    if kind != Unsupported && Extract(lib, kind, path).Ok? {
      DocumentId(lib, title, Extract(lib, kind, path).value, prefix);
    }
  }

  /** A file is refused as unsupported exactly when its extension is not in the table. */
  lemma UnsupportedExactly(lib: Library, path: string, prefix: string)
    ensures ProcessSingleFile(lib, path, prefix) == Error("Unsupported file type")
        <==> ExtensionOf(path) !in EXTRACTORS
  {
    DispatchTable(ExtensionOf(path));
  }
}
