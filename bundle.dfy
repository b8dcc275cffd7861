/**
 * The decisions of the project bundler's worker (`_bundle_project_worker`):
 * the order the collected files are listed in, their sequential ids, what is
 * measured about each file, and the section-writing loop that includes a
 * file's (possibly truncated) content only while a total byte budget lasts.
 * File contents, sizes, SHA-1 digests and the UTF-8 decoder are inputs.
 */
module Bundle {
  import opened PyStr
  import opened Order
  import opened Classify
  import TreeMap

  /**
   * A file yielded by the walk: its root-relative path components, its size
   * (0 when it no longer exists) and its bytes (`None` when it cannot be read).
   */
  datatype Entry = Entry(rel: seq<string>, size: nat, data: Option<bytes>)

  /** `p.name` */
  function Name(e: Entry): string {
    if e.rel == [] then "" else e.rel[|e.rel| - 1]
  }

  /** `p.relative_to(root).as_posix()` */
  function PosixPath(e: Entry): string {
    Join(e.rel, "/")
  }

  /** `str(p)`, for the project root written `root`. */
  function FullPath(root: string, e: Entry): string {
    root + "/" + PosixPath(e)
  }

  // ---------------------------------------------------------------------------
  // Sorting
  // ---------------------------------------------------------------------------

  datatype SortMode = BySize | ByExt | ByPath

  /** The sort-mode setting: "size" and "ext" are recognised, anything else sorts by path. */
  function SortModeOf(setting: string): (m: SortMode)
    ensures m.BySize? <==> setting == "size"
    ensures m.ByExt? <==> setting == "ext"
  {
    if setting == "size" then BySize else if setting == "ext" then ByExt else ByPath
  }

  function SizeKey(root: string): Entry -> (int, string) {
    (e: Entry) => (e.size as int, FullPath(root, e))
  }

  function ExtKey(root: string): Entry -> (string, string) {
    (e: Entry) => (LowerSuffix(Name(e)), FullPath(root, e))
  }

  function PathKey(root: string): Entry -> string {
    (e: Entry) => FullPath(root, e)
  }

  /** `files.sort(key=...)` for the chosen mode. */
  function SortFiles(root: string, files: seq<Entry>, mode: SortMode): (r: seq<Entry>)
    ensures multiset(r) == multiset(files)
  {
    match mode
    case BySize => SortBy(files, SizeKey(root), IntStrOrder())
    case ByExt => SortBy(files, ExtKey(root), StrStrOrder())
    case ByPath => SortBy(files, PathKey(root), StrOrder())
  }

  /** The files are listed in ascending order of the mode's key. */
  lemma SortFilesOrdered(root: string, files: seq<Entry>, mode: SortMode)
    ensures mode.BySize? ==> SortedBy(SortFiles(root, files, mode), SizeKey(root), IntStrOrder())
    ensures mode.ByExt? ==> SortedBy(SortFiles(root, files, mode), ExtKey(root), StrStrOrder())
    ensures mode.ByPath? ==> SortedBy(SortFiles(root, files, mode), PathKey(root), StrOrder())
  {
    match mode
    case BySize => IntStrOrderTotal(); SortBySorted(files, SizeKey(root), IntStrOrder());
    case ByExt => StrStrOrderTotal(); SortBySorted(files, ExtKey(root), StrStrOrder());
    case ByPath => StrOrderTotal(); SortBySorted(files, PathKey(root), StrOrder());
  }

  /** No two entries share a path. */
  ghost predicate DistinctPaths(root: string, files: seq<Entry>) {
    forall i, j :: 0 <= i < j < |files| ==> FullPath(root, files[i]) != FullPath(root, files[j])
  }

  lemma DistinctPathsPermuted(root: string, a: seq<Entry>, b: seq<Entry>)
    requires multiset(a) == multiset(b)
    requires DistinctPaths(root, a)
    ensures DistinctPaths(root, b)
  {
    forall i, j | 0 <= i < j < |b| ensures FullPath(root, b[i]) != FullPath(root, b[j]) {
      assert b[i] in multiset(a) && b[j] in multiset(a);
      var i' :| 0 <= i' < |a| && a[i'] == b[i];
      var j' :| 0 <= j' < |a| && a[j'] == b[j];
      DistinctCount(root, a, i');
      CountedOnce(b, i, j);
    }
  }

  /** An element counted once in `s` sits at only one position. */
  lemma CountedOnce<T>(s: seq<T>, i: nat, j: nat)
    requires i < j < |s| && multiset(s)[s[i]] <= 1
    ensures s[i] != s[j]
  {
    assert s == s[..i] + [s[i]] + s[i + 1..j] + [s[j]] + s[j + 1..];
  }

  lemma DistinctCount(root: string, a: seq<Entry>, i: nat)
    requires DistinctPaths(root, a) && i < |a|
    ensures multiset(a)[a[i]] <= 1
  {
    var x := a[i];
    assert a == a[..i] + [x] + a[i + 1..];
    forall k | 0 <= k < |a| && k != i ensures a[k] != x {}
    assert x !in a[..i];
  }

  /**
   * The listing order depends only on which files were found, not on the
   * order the walk produced them in (paths are distinct, so every key is).
   */
  lemma SortIgnoresWalkOrder(root: string, a: seq<Entry>, b: seq<Entry>, mode: SortMode)
    requires multiset(a) == multiset(b)
    requires DistinctPaths(root, a)
    ensures SortFiles(root, a, mode) == SortFiles(root, b, mode)
  {
    var ra, rb := SortFiles(root, a, mode), SortFiles(root, b, mode);
    SortFilesOrdered(root, a, mode);
    SortFilesOrdered(root, b, mode);
    DistinctPathsPermuted(root, a, ra);
    match mode
    case BySize =>
      IntStrOrderTotal();
      SortedUnique(ra, rb, SizeKey(root), IntStrOrder());
    case ByExt =>
      StrStrOrderTotal();
      SortedUnique(ra, rb, ExtKey(root), StrStrOrder());
    case ByPath =>
      StrOrderTotal();
      SortedUnique(ra, rb, PathKey(root), StrOrder());
  }

  // ---------------------------------------------------------------------------
  // File ids
  // ---------------------------------------------------------------------------

  /** The configured id prefix, "F" when left empty. */
  function IdPrefix(configured: string): (r: string)
    ensures r != []
    ensures configured != [] ==> r == configured
  {
    if configured == "" then "F" else configured
  }

  /** `max(4, len(str(count)))` */
  function IdWidth(count: nat): (w: nat)
    ensures w >= 4 && w >= |NatToDecimal(count)|
  {
    Max(4, |NatToDecimal(count)|)
  }

  /** `file_id(i)`: the prefix, then `i` zero-padded to the id width. */
  function FileId(configured: string, count: nat, i: nat): string {
    IdPrefix(configured) + LeftPad(NatToDecimal(i), IdWidth(count), '0')
  }

  /** The digits after the prefix spell `i`, in exactly `IdWidth(count)` characters. */
  lemma FileIdDigits(configured: string, count: nat, i: nat)
    requires i <= count
    ensures var p := IdPrefix(configured);
            var id := FileId(configured, count, i);
            && |id| == |p| + IdWidth(count)
            && id[..|p|] == p
            && AllDigits(id[|p|..]) && DecimalValue(id[|p|..]) == i
  {
    var p := IdPrefix(configured);
    var s := NatToDecimal(i);
    var w := IdWidth(count);
    DecimalLengthMonotone(i, count);
    var padded := LeftPad(s, w, '0');
    assert padded == Repeat('0', w - |s|) + s;
    LeadingZerosValue(w - |s|, s);
    DecimalRoundTrip(i);
    var id := p + padded;
    assert id[|p|..] == padded;
  }

  /** All ids of one bundle have the same length and no two are equal. */
  lemma FileIdsDistinct(configured: string, count: nat, i: nat, j: nat)
    requires 1 <= i <= count && 1 <= j <= count
    ensures |FileId(configured, count, i)| == |FileId(configured, count, j)|
    ensures i != j ==> FileId(configured, count, i) != FileId(configured, count, j)
  {
    FileIdDigits(configured, count, i);
    FileIdDigits(configured, count, j);
  }

  /** With the default prefix, a bundle of two files uses the ids F0001 and F0002. */
  lemma TwoFileIds()
    ensures FileId("", 2, 1) == "F0001" && FileId("", 2, 2) == "F0002"
  {
    assert NatToDecimal(2) == "2" && NatToDecimal(1) == "1";
    assert IdWidth(2) == 4;
    assert Repeat('0', 3) == "000";
  }

  // ---------------------------------------------------------------------------
  // Measuring each file
  // ---------------------------------------------------------------------------

  /** What the bundle records about one file (`meta` entries). */
  datatype Meta = Meta(id: string, rel: seq<string>, path: string, lang: string, size: nat,
                       lines: nat, sha1: string, isBinary: bool, note: string)

  /** The line count of a text: its newlines, plus one for an unterminated last line. */
  function LineCount(text: string): nat {
    Count(text, '\n') + (if text != [] && !EndsWith(text, "\n") then 1 else 0)
  }

  /** The text made of `ls`, each followed by a newline, then `last`. */
  function Unlines(ls: seq<string>, last: string): string {
    if ls == [] then last else ls[0] + "\n" + Unlines(ls[1..], last)
  }

  ghost predicate NoNewline(s: string) {
    '\n' !in s
  }

  lemma {:induction false} CountUnlines(ls: seq<string>, last: string)
    requires forall k :: 0 <= k < |ls| ==> NoNewline(ls[k])
    requires NoNewline(last)
    ensures Count(Unlines(ls, last), '\n') == |ls|
  {
    if ls == [] {
      NoNewlineCount(last);
    } else {
      var l := ls[0];
      CountUnlines(ls[1..], last);
      CountAppend(l, "\n" + Unlines(ls[1..], last), '\n');
      CountAppend("\n", Unlines(ls[1..], last), '\n');
      NoNewlineCount(l);
      assert ls[0] + "\n" + Unlines(ls[1..], last) == l + ("\n" + Unlines(ls[1..], last));
    }
  }

  lemma {:induction false} NoNewlineCount(s: string)
    requires NoNewline(s)
    ensures Count(s, '\n') == 0
  {
    if s != [] {
      assert s[0] != '\n';
      assert forall k :: 0 <= k < |s[1..]| ==> s[1..][k] == s[k + 1];
      NoNewlineCount(s[1..]);
    }
  }

  lemma {:induction false} UnlinesEnd(ls: seq<string>, last: string)
    ensures last != [] ==> EndsWith(Unlines(ls, last), last)
    ensures last == [] && ls != [] ==> EndsWith(Unlines(ls, last), "\n")
    ensures Unlines(ls, last) == [] <==> ls == [] && last == []
  {
    if ls != [] {
      UnlinesEnd(ls[1..], last);
      var t := Unlines(ls[1..], last);
      var u := ls[0] + "\n" + t;
      if last != [] {
        assert u[|u| - |last|..] == t[|t| - |last|..];
      } else if ls[1..] == [] {
        assert t == [];
      } else {
        assert u[|u| - 1..] == t[|t| - 1..];
      }
    }
  }

  /**
   * The count is the number of lines: `k` complete lines and a last line
   * without newline give `k`, plus one when that last line is non-empty.
   */
  lemma LineCountOfLines(ls: seq<string>, last: string)
    requires forall k :: 0 <= k < |ls| ==> NoNewline(ls[k])
    requires NoNewline(last)
    ensures LineCount(Unlines(ls, last)) == |ls| + (if last == [] then 0 else 1)
  {
    CountUnlines(ls, last);
    UnlinesEnd(ls, last);
    var t := Unlines(ls, last);
    if last != [] {
      assert t[|t| - 1] == last[|last| - 1];
      assert last[|last| - 1] in last;
      assert !EndsWith(t, "\n");
    }
  }

  /** The note of a file cut at `maxPerFile` bytes. */
  function TruncationNote(maxPerFile: int): string {
    "truncated to " + IntToDecimal(maxPerFile) + " bytes"
  }

  /**
   * The `meta` entry of the `i`-th (1-based) of `count` sorted files: the
   * digest, line count and note come from the first `maxPerFile` bytes.
   */
  function MetaOf(configured: string, count: nat, i: nat, e: Entry, maxPerFile: int,
                  sha1: bytes -> string, decode: bytes -> string): (m: Meta)
    ensures m.id == FileId(configured, count, i) && m.rel == e.rel && m.size == e.size
    ensures m.isBinary == IsProbablyBinary(Name(e), e.data)
  {
    var lang := DetectLanguageAsWritten(Name(e));
    var isBin := IsProbablyBinary(Name(e), e.data);
    var raw := if isBin || e.data.None? then [] else e.data.value;
    var readNote := if !isBin && e.data.None? then "read error: skipped" else "";
    var preview := decode(SliceTo(raw, maxPerFile));
    Meta(
      FileId(configured, count, i), e.rel, PosixPath(e),
      if isBin then "Binary" else lang,
      e.size,
      if isBin || raw == [] then 0 else LineCount(preview),
      if raw == [] then "" else sha1(raw),
      isBin,
      if isBin then "binary: skipped"
      else if raw != [] && |raw| > maxPerFile then TruncationNote(maxPerFile)
      else readNote)
  }

  /**
   * A text file is noted as truncated exactly when it is longer than the
   * per-file limit; a binary file is noted as skipped and counts no lines.
   */
  lemma MetaNote(configured: string, count: nat, i: nat, e: Entry, maxPerFile: int,
                 sha1: bytes -> string, decode: bytes -> string)
    ensures var m := MetaOf(configured, count, i, e, maxPerFile, sha1, decode);
            && (m.isBinary ==> m.note == "binary: skipped" && m.lines == 0 && m.lang == "Binary")
            && (!m.isBinary ==> m.lang == DetectLanguageAsWritten(Name(e)))
            && (!m.isBinary && e.data.Some? && e.data.value != [] ==>
                  (m.note == TruncationNote(maxPerFile) <==> |e.data.value| > maxPerFile))
            && (!m.isBinary && e.data.Some? && e.data.value == [] ==> m.note == "" && m.lines == 0)
            && (!m.isBinary && e.data.Some? && e.data.value != [] ==>
                  m.lines == LineCount(decode(SliceTo(e.data.value, maxPerFile))))
  {
    assert TruncationNote(maxPerFile) != "";
  }

  /**
   * The pre-measuring loop: one entry per sorted file, in order, the `k`-th
   * made by `describe` from the `k`-th file and its 1-based number `k + 1`
   * (`MetaOf` in the bundler).
   */
  method Measure<T>(files: seq<Entry>, describe: (nat, Entry) -> T) returns (meta: seq<T>)
    ensures |meta| == |files|
    ensures forall k :: 0 <= k < |files| ==> meta[k] == describe(k + 1, files[k])
  {
    meta := [];
    var i := 0;
    while i < |files|
      invariant 0 <= i <= |files| && |meta| == i
      invariant forall k :: 0 <= k < i ==> meta[k] == describe(k + 1, files[k])
    {
      meta := meta + [describe(i + 1, files[i])];
      i := i + 1;
    }
  }

  /** `visible_text_files`: the paths of the files that are not binary, in order. */
  function VisibleTextFiles(meta: seq<Meta>): (r: seq<seq<string>>)
    ensures |r| <= |meta|
    ensures forall p :: p in r <==> exists k :: 0 <= k < |meta| && !meta[k].isBinary && meta[k].rel == p
  {
    if meta == [] then []
    else
      var rest := VisibleTextFiles(meta[1..]);
      assert forall k :: 0 <= k < |meta[1..]| ==> meta[1..][k] == meta[k + 1];
      (if meta[0].isBinary then [] else [meta[0].rel]) + rest
  }

  // ---------------------------------------------------------------------------
  // Writing the file sections under a byte budget
  // ---------------------------------------------------------------------------

  /** What the section loop does with one file. */
  datatype Outcome =
    | BinarySkipped
    | Unreadable
    | OverBudget
    | Emitted(content: bytes)

  /**
   * One turn of the section loop, with `written` bytes already emitted: the
   * file's first `maxPerFile` bytes go in only if they fit in `maxTotal`.
   */
  function Decide(m: Meta, data: Option<bytes>, maxPerFile: int, maxTotal: int, written: int): Outcome {
    if m.isBinary then BinarySkipped
    else
      match data
      case None => Unreadable
      case Some(raw) =>
        var w := SliceTo(raw, maxPerFile);
        if written + |w| > maxTotal then OverBudget else Emitted(w)
  }

  /** The bytes one turn adds to `written_total`. */
  function Added(o: Outcome): nat {
    if o.Emitted? then |o.content| else 0
  }

  /** `written_total` after the first `n` files. */
  function WrittenAfter(meta: seq<Meta>, datas: seq<Option<bytes>>, maxPerFile: int, maxTotal: int, n: nat): int
    requires |datas| == |meta| && n <= |meta|
  {
    if n == 0 then 0
    else
      var w := WrittenAfter(meta, datas, maxPerFile, maxTotal, n - 1);
      w + Added(Decide(meta[n - 1], datas[n - 1], maxPerFile, maxTotal, w))
  }

  /** What happens to the `k`-th file. */
  function OutcomeAt(meta: seq<Meta>, datas: seq<Option<bytes>>, maxPerFile: int, maxTotal: int, k: nat): Outcome
    requires |datas| == |meta| && k < |meta|
  {
    Decide(meta[k], datas[k], maxPerFile, maxTotal, WrittenAfter(meta, datas, maxPerFile, maxTotal, k))
  }

  function BeginLine(id: string): string { "----- BEGIN CONTENT " + id + " -----\n" }

  function EndLine(id: string): string { "----- END CONTENT " + id + " -----\n\n" }

  function ContentBlock(id: string, body: string): string {
    BeginLine(id) + body + EndLine(id)
  }

  /** The header lines of a file's section. */
  function SectionHeader(m: Meta): string {
    "===== FILE " + m.id + " =====\n" + "PATH: " + m.path + "\n" + "LANG: " + m.lang + "\n"
    + "BYTES: " + NatToDecimal(m.size) + "\n" + "LINES: " + NatToDecimal(m.lines) + "\n"
    + "SHA1: " + m.sha1 + "\n" + (if m.note != "" then "NOTE: " + m.note + "\n" else "") + "\n"
  }

  /** The lines after the header: the content, or the reason there is none. */
  function SectionBody(id: string, o: Outcome, decode: bytes -> string): string {
    match o
    case BinarySkipped => "[SKIPPED] Binary content not included.\n" + ContentBlock(id, "[No content]\n")
    case Unreadable => "[SKIPPED] Could not read file as text.\n" + ContentBlock(id, "[No content]\n")
    case OverBudget => "[SKIPPED] Total bundle size limit reached.\n" + ContentBlock(id, "[No content]\n")
    case Emitted(w) =>
      var text := decode(w);
      ContentBlock(id, text + (if EndsWith(text, "\n") then "" else "\n"))
  }

  function SectionText(m: Meta, o: Outcome, decode: bytes -> string): string {
    SectionHeader(m) + SectionBody(m.id, o, decode)
  }

  /** The section writer of a run whose text decoder is `decode`. */
  function SectionFormat(decode: bytes -> string): (Meta, Outcome) -> string {
    (m: Meta, o: Outcome) => SectionText(m, o, decode)
  }

  /** The sections of the first `n` files, each written by `format`. */
  function SectionsAfter(meta: seq<Meta>, datas: seq<Option<bytes>>, maxPerFile: int, maxTotal: int,
                         format: (Meta, Outcome) -> string, n: nat): string
    requires |datas| == |meta| && n <= |meta|
  {
    if n == 0 then ""
    else
      SectionsAfter(meta, datas, maxPerFile, maxTotal, format, n - 1)
        + format(meta[n - 1], OutcomeAt(meta, datas, maxPerFile, maxTotal, n - 1))
  }

  /**
   * The file-section loop; `datas[k]` is what re-reading the `k`-th file
   * gives, and `format` writes one section (`SectionFormat` of the run).
   */
  method WriteSections(meta: seq<Meta>, datas: seq<Option<bytes>>, maxPerFile: int, maxTotal: int,
                       format: (Meta, Outcome) -> string) returns (text: string, written: int)
    requires |datas| == |meta|
    ensures text == SectionsAfter(meta, datas, maxPerFile, maxTotal, format, |meta|)
    ensures written == WrittenAfter(meta, datas, maxPerFile, maxTotal, |meta|)
  {
    text := "";
    written := 0;
    var idx := 0;
    while idx < |meta|
      invariant 0 <= idx <= |meta|
      invariant text == SectionsAfter(meta, datas, maxPerFile, maxTotal, format, idx)
      invariant written == WrittenAfter(meta, datas, maxPerFile, maxTotal, idx)
    {
      var m := meta[idx];
      var o: Outcome;
      if m.isBinary {
        o := BinarySkipped;
      } else if datas[idx].None? {
        o := Unreadable;
      } else {
        var writeBytes := SliceTo(datas[idx].value, maxPerFile);
        if written + |writeBytes| > maxTotal {
          o := OverBudget;
        } else {
          o := Emitted(writeBytes);
        }
      }
      text := text + format(m, o);
      written := written + Added(o);
      idx := idx + 1;
    }
  }

  // ---------------------------------------------------------------------------
  // Properties of the budget
  // ---------------------------------------------------------------------------

  /** `written_total` never exceeds the budget (nor 0 when the budget is negative). */
  lemma {:induction false} WrittenWithinBudget(meta: seq<Meta>, datas: seq<Option<bytes>>, maxPerFile: int,
                                               maxTotal: int, n: nat)
    requires |datas| == |meta| && n <= |meta|
    ensures 0 <= WrittenAfter(meta, datas, maxPerFile, maxTotal, n) <= Max(0, maxTotal)
  {
    if n > 0 {
      WrittenWithinBudget(meta, datas, maxPerFile, maxTotal, n - 1);
    }
  }

  /**
   * A file's content is emitted exactly when it is a readable text file whose
   * first `maxPerFile` bytes fit in what is left of the budget, and it adds
   * exactly those bytes; every other file adds nothing.
   */
  lemma EmittedIff(meta: seq<Meta>, datas: seq<Option<bytes>>, maxPerFile: int, maxTotal: int, k: nat)
    requires |datas| == |meta| && k < |meta|
    ensures var w := WrittenAfter(meta, datas, maxPerFile, maxTotal, k);
            var o := OutcomeAt(meta, datas, maxPerFile, maxTotal, k);
            && (o.Emitted? <==> !meta[k].isBinary && datas[k].Some?
                                 && w + |SliceTo(datas[k].value, maxPerFile)| <= maxTotal)
            && (o.Emitted? ==> o.content == SliceTo(datas[k].value, maxPerFile))
            && WrittenAfter(meta, datas, maxPerFile, maxTotal, k + 1) == w + Added(o)
            && (meta[k].isBinary ==> WrittenAfter(meta, datas, maxPerFile, maxTotal, k + 1) == w)
  {
  }

  /** A file left out for the budget does not stop a later, smaller file from going in. */
  lemma SkipDoesNotLatch()
    ensures var a := Meta("F0001", ["a"], "a", "Text", 10, 1, "", false, "");
            var b := Meta("F0002", ["b"], "b", "Text", 5, 1, "", false, "");
            var meta := [a, b];
            var datas := [Some(Repeat(65 as byte, 10)), Some(Repeat(66 as byte, 5))];
            OutcomeAt(meta, datas, 100, 8, 0) == OverBudget
            && OutcomeAt(meta, datas, 100, 8, 1) == Emitted(Repeat(66 as byte, 5))
  {
    var a := Meta("F0001", ["a"], "a", "Text", 10, 1, "", false, "");
    var b := Meta("F0002", ["b"], "b", "Text", 5, 1, "", false, "");
    var meta := [a, b];
    var datas := [Some(Repeat(65 as byte, 10)), Some(Repeat(66 as byte, 5))];
    assert SliceTo(Repeat(65 as byte, 10), 100) == Repeat(65 as byte, 10);
    assert SliceTo(Repeat(66 as byte, 5), 100) == Repeat(66 as byte, 5);
    assert WrittenAfter(meta, datas, 100, 8, 1) == 0;
  }

  lemma BlockContains(id: string, body: string, x: string)
    requires Contains(body, x)
    ensures Contains(ContentBlock(id, body), x)
  {
    ContainsRight(BeginLine(id), body, x);
    ContainsLeft(BeginLine(id) + body, EndLine(id), x);
  }

  /** An emitted section holds the decoded bytes verbatim; a skipped one says "[No content]". */
  lemma SectionContent(m: Meta, o: Outcome, decode: bytes -> string)
    ensures o.Emitted? ==> Contains(SectionText(m, o, decode), decode(o.content))
    ensures !o.Emitted? ==> Contains(SectionText(m, o, decode), "[No content]\n")
  {
    var body := SectionBody(m.id, o, decode);
    if o.Emitted? {
      var text := decode(o.content);
      ContainsSelf(text);
      ContainsLeft(text, if EndsWith(text, "\n") then "" else "\n", text);
      BlockContains(m.id, text + (if EndsWith(text, "\n") then "" else "\n"), text);
      ContainsRight(SectionHeader(m), body, text);
    } else {
      var nc := "[No content]\n";
      ContainsSelf(nc);
      BlockContains(m.id, nc, nc);
      var lead := match o
        case BinarySkipped => "[SKIPPED] Binary content not included.\n"
        case Unreadable => "[SKIPPED] Could not read file as text.\n"
        case OverBudget => "[SKIPPED] Total bundle size limit reached.\n";
      assert body == lead + ContentBlock(m.id, nc);
      ContainsRight(lead, ContentBlock(m.id, nc), nc);
      ContainsRight(SectionHeader(m), body, nc);
    }
  }

  // ---------------------------------------------------------------------------
  // The worker's pipeline
  // ---------------------------------------------------------------------------

  /** What re-reading each file gives. */
  function Contents(files: seq<Entry>): (r: seq<Option<bytes>>)
    ensures |r| == |files| && forall k :: 0 <= k < |files| ==> r[k] == files[k].data
  {
    seq(|files|, k requires 0 <= k < |files| => files[k].data)
  }

  /**
   * The bundler's decisions for the collected files: sort them, measure them,
   * draw the project map of the text files, and write the sections.
   */
  method BundleFiles(root: string, rootName: string, files: seq<Entry>, sortSetting: string, configured: string,
                     maxPerFile: int, maxTotal: int, sha1: bytes -> string, decode: bytes -> string)
    returns (meta: seq<Meta>, mapFiles: seq<seq<string>>, mapText: string, sections: string, written: int)
    ensures var sorted := SortFiles(root, files, SortModeOf(sortSetting));
      |meta| == |sorted| && forall k :: 0 <= k < |sorted| ==>
        meta[k] == MetaOf(configured, |sorted|, k + 1, sorted[k], maxPerFile, sha1, decode)
    ensures mapFiles == VisibleTextFiles(meta)
    ensures mapText == Join(TreeMap.TreeLines(rootName, mapFiles), "\n")
    ensures var datas := Contents(SortFiles(root, files, SortModeOf(sortSetting)));
            sections == SectionsAfter(meta, datas, maxPerFile, maxTotal, SectionFormat(decode), |meta|)
            && written == WrittenAfter(meta, datas, maxPerFile, maxTotal, |meta|)
    ensures 0 <= written <= Max(0, maxTotal)
  {
    var sorted := SortFiles(root, files, SortModeOf(sortSetting));
    var describe := (i: nat, e: Entry) => MetaOf(configured, |sorted|, i, e, maxPerFile, sha1, decode);
    meta := Measure(sorted, describe);
    forall k | 0 <= k < |sorted|
      ensures meta[k] == MetaOf(configured, |sorted|, k + 1, sorted[k], maxPerFile, sha1, decode)
    {
      assert meta[k] == describe(k + 1, sorted[k]);
    }
    mapFiles := VisibleTextFiles(meta);
    mapText := TreeMap.MakeTreeMap(rootName, mapFiles);
    var datas := Contents(sorted);
    sections, written := WriteSections(meta, datas, maxPerFile, maxTotal, SectionFormat(decode));
    WrittenWithinBudget(meta, datas, maxPerFile, maxTotal, |meta|);
  }
}
