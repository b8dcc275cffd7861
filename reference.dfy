/**
 * The reference-sheet builder: every line of the chosen knowledge files is
 * matched against the table-of-contents pattern, the first title and source
 * file seen for each DocID are kept, and the entries are listed sorted by
 * lower-cased title.
 */
module Reference {
  import opened PyStr
  import opened Order
  import opened DocId
  import Knowledge
  import Extract

  // ---------------------------------------------------------------------------
  // The table-of-contents pattern
  // ---------------------------------------------------------------------------

  /** What a table-of-contents line carries: the DocID, the stable hash and the title. */
  datatype TocEntry = TocEntry(shortId: string, fullHash: string, title: string)

  /** The length of the longest prefix of `s` made of `[A-Z0-9]`. */
  function IdRun(s: string): (n: nat)
    ensures n <= |s| && (forall i :: 0 <= i < n ==> IsIdChar(s[i])) && (n < |s| ==> !IsIdChar(s[n]))
  {
    if s == [] || !IsIdChar(s[0]) then 0 else 1 + IdRun(s[1..])
  }

  /** The length of the longest prefix of `s` free of `]`. */
  function TitleRun(s: string): (n: nat)
    ensures n <= |s| && (forall i :: 0 <= i < n ==> s[i] != ']') && (n < |s| ==> s[n] == ']')
  {
    if s == [] || s[0] == ']' then 0 else 1 + TitleRun(s[1..])
  }

  const ID_OPEN := "[DocID: "
  const HASH_OPEN := " ("
  const TITLE_OPEN := ") | Title: "

  /** The entry as the pattern spells it, without the trailing whitespace. */
  function TocText(e: TocEntry): string {
    ID_OPEN + IdTail(e)
  }

  function IdTail(e: TocEntry): string {
    e.shortId + HASH_OPEN + HashTail(e.fullHash, e.title)
  }

  function HashTail(hash: string, title: string): string {
    hash + TITLE_OPEN + title + "]"
  }

  /** The fields the pattern accepts. */
  ghost predicate ValidEntry(e: TocEntry) {
    && e.shortId != [] && (forall i :: 0 <= i < |e.shortId| ==> IsIdChar(e.shortId[i]))
    && IsStableHash(e.fullHash)
    && e.title != [] && ']' !in e.title
  }

  /**
   * `re.match(r"^\[DocID: ([A-Z0-9]+) \((sha256-[a-f0-9]{64})\) \| Title: ([^\]]+)\]\s*$", line)`,
   * scanned left to right: the id is the run of `[A-Z0-9]` up to the space,
   * the title the run up to the first `]`, and what follows that `]` must be
   * whitespace. A match is a valid entry followed by whitespace.
   */
  function ParseTocLine(line: string): (r: Option<TocEntry>)
    ensures r.Some? ==> ValidEntry(r.value) && StartsWith(line, TocText(r.value))
                        && AllSpace(line[|TocText(r.value)|..])
  {
    if !StartsWith(line, ID_OPEN) then None
    else
      var r := ParseId(line[|ID_OPEN|..]);
      if r.None? then None
      else
        PrefixThen(line, ID_OPEN, line[|ID_OPEN|..], IdTail(r.value));
        r
  }

  /** The pattern after `[DocID: `. */
  function ParseId(s: string): (r: Option<TocEntry>)
    ensures r.Some? ==> ValidEntry(r.value) && StartsWith(s, IdTail(r.value))
                        && AllSpace(s[|IdTail(r.value)|..])
  {
    var n := IdRun(s);
    if n == 0 || !StartsWith(s[n..], HASH_OPEN) then None
    else
      match ParseHash(s[n + |HASH_OPEN|..])
      case None => None
      case Some((hash, title)) =>
        IdThenHash(s, n, hash, title);
        Some(TocEntry(s[..n], hash, title))
  }

  /** An id, the opening of the hash, and a hash and title the rest of the pattern accepts. */
  lemma IdThenHash(s: string, n: nat, hash: string, title: string)
    requires 0 < n <= |s| && (forall i :: 0 <= i < n ==> IsIdChar(s[i])) && StartsWith(s[n..], HASH_OPEN)
    requires ParseHash(s[n + |HASH_OPEN|..]) == Some((hash, title))
    ensures var e := TocEntry(s[..n], hash, title);
      ValidEntry(e) && StartsWith(s, IdTail(e)) && AllSpace(s[|IdTail(e)|..])
  {
    var e := TocEntry(s[..n], hash, title);
    assert s == e.shortId + HASH_OPEN + s[n + |HASH_OPEN|..];
    PrefixThen(s, e.shortId + HASH_OPEN, s[n + |HASH_OPEN|..], HashTail(hash, title));
  }

  /** What follows a prefix `a` starts with `tail`, then whitespace: so `s` starts with `a + tail`. */
  lemma PrefixThen(s: string, a: string, rest: string, tail: string)
    requires s == a + rest && StartsWith(rest, tail) && AllSpace(rest[|tail|..])
    ensures StartsWith(s, a + tail) && AllSpace(s[|a + tail|..])
  {
    assert s[..|a + tail|] == a + rest[..|tail|];
    assert s[|a + tail|..] == rest[|tail|..];
  }

  /** The pattern after ` (`: the hash, then the title. */
  function ParseHash(h: string): (r: Option<(string, string)>)
    ensures r.Some? ==> IsStableHash(r.value.0) && r.value.1 != [] && ']' !in r.value.1
    ensures r.Some? ==> StartsWith(h, HashTail(r.value.0, r.value.1))
                        && AllSpace(h[|HashTail(r.value.0, r.value.1)|..])
  {
    if |h| < 71 || !IsStableHash(h[..71]) || !StartsWith(h[71..], TITLE_OPEN) then None
    else
      match ParseTitle(h[71 + |TITLE_OPEN|..])
      case None => None
      case Some(title) =>
        assert h == h[..71] + TITLE_OPEN + h[71 + |TITLE_OPEN|..];
        Some((h[..71], title))
  }

  /** The pattern after `) | Title: `: the title up to the first `]`, then whitespace only. */
  function ParseTitle(t: string): (r: Option<string>)
    ensures r.Some? ==> r.value != [] && ']' !in r.value
    ensures r.Some? ==> StartsWith(t, r.value + "]") && AllSpace(t[|r.value| + 1..])
  {
    var m := TitleRun(t);
    if m == 0 || m == |t| || !AllSpace(t[m + 1..]) then None
    else
      assert t[..m + 1] == t[..m] + "]";
      Some(t[..m])
  }

  lemma IdRunOf(id: string, s: string)
    requires id != [] && (forall i :: 0 <= i < |id| ==> IsIdChar(id[i]))
    requires s != [] && !IsIdChar(s[0])
    ensures IdRun(id + s) == |id|
    decreases |id|
  {
    if |id| > 1 {
      assert (id + s)[1..] == id[1..] + s;
      IdRunOf(id[1..], s);
    }
  }

  lemma TitleRunOf(title: string, s: string)
    requires ']' !in title && s != [] && s[0] == ']'
    ensures TitleRun(title + s) == |title|
    decreases |title|
  {
    if title != [] {
      assert (title + s)[1..] == title[1..] + s;
      TitleRunOf(title[1..], s);
    }
  }

  lemma ParseTitleComplete(title: string, ws: string)
    requires title != [] && ']' !in title && AllSpace(ws)
    ensures ParseTitle(title + "]" + ws) == Some(title)
  {
    var t := title + "]" + ws;
    assert t == title + ("]" + ws);
    TitleRunOf(title, "]" + ws);
    assert t[|title| + 1..] == ws;
  }

  lemma ParseHashComplete(hash: string, title: string, ws: string)
    requires IsStableHash(hash) && title != [] && ']' !in title && AllSpace(ws)
    ensures ParseHash(HashTail(hash, title) + ws) == Some((hash, title))
  {
    var h := HashTail(hash, title) + ws;
    assert h == hash + TITLE_OPEN + (title + "]" + ws);
    assert h[..71] == hash;
    assert h[71..] == TITLE_OPEN + (title + "]" + ws);
    ParseTitleComplete(title, ws);
  }

  lemma ParseIdComplete(e: TocEntry, ws: string)
    requires ValidEntry(e) && AllSpace(ws)
    ensures ParseId(IdTail(e) + ws) == Some(e)
  {
    var rest := HashTail(e.fullHash, e.title) + ws;
    var s := IdTail(e) + ws;
    assert s == e.shortId + (HASH_OPEN + rest);
    IdRunOf(e.shortId, HASH_OPEN + rest);
    assert s[|e.shortId|..] == HASH_OPEN + rest;
    assert s[|e.shortId| + |HASH_OPEN|..] == rest;
    ParseHashComplete(e.fullHash, e.title, ws);
  }

  /** Every valid entry followed by whitespace is matched, and gives the entry back. */
  lemma ParseComplete(e: TocEntry, ws: string)
    requires ValidEntry(e) && AllSpace(ws)
    ensures ParseTocLine(TocText(e) + ws) == Some(e)
  {
    var line := TocText(e) + ws;
    assert line == ID_OPEN + (IdTail(e) + ws);
    assert line[|ID_OPEN|..] == IdTail(e) + ws;
    ParseIdComplete(e, ws);
  }

  /**
   * A table-of-contents line written to a knowledge file reads back as the
   * document's id, hash and title, provided the id is made of `[A-Z0-9]`,
   * the hash is a stable hash and the title is non-empty and free of `]`.
   */
  lemma TocLineRoundTrip(d: Knowledge.Doc)
    requires ValidEntry(TocEntry(d.shortId, d.fullHash, d.title))
    ensures ParseTocLine(Knowledge.TocLine(d)) == Some(TocEntry(d.shortId, d.fullHash, d.title))
  {
    var e := TocEntry(d.shortId, d.fullHash, d.title);
    assert Knowledge.TocLine(d) == TocText(e) + "\n";
    ParseComplete(e, "\n");
  }

  /**
   * A document made with a real SHA-256 and a cleaned-up prefix has a DocID
   * of `[A-Z0-9]` and a stable hash, so its table-of-contents line reads
   * back whenever its title is non-empty and free of `]`.
   */
  lemma MadeDocumentParses(lib: Extract.Library, title: string, text: string, entered: Option<string>, order: nat)
    requires Extract.DigestsAreHex(lib.sha256Hex) && title != [] && ']' !in title
    ensures var r := Extract.MakeDocument(lib, title, text, CleanPrefix(entered));
      r.Document?
      && ParseTocLine(Knowledge.TocLine(Knowledge.Doc(order, r.shortId, r.fullHash, r.title, r.text)))
         == Some(TocEntry(r.shortId, r.fullHash, title))
  {
    var prefix := CleanPrefix(entered);
    Extract.DocumentId(lib, title, text, prefix);
    CleanPrefixChars(entered);
    var r := Extract.MakeDocument(lib, title, text, prefix);
    forall i | 0 <= i < |r.shortId| ensures IsIdChar(r.shortId[i]) {
      if i < |prefix| {
        assert r.shortId[i] == prefix[i];
      }
    }
    TocLineRoundTrip(Knowledge.Doc(order, r.shortId, r.fullHash, r.title, r.text));
  }

  // ---------------------------------------------------------------------------
  // First-wins registration
  // ---------------------------------------------------------------------------

  /** The title and source file kept for a DocID. */
  datatype Ref = Ref(title: string, source: string)

  /** `doc_references`, a dictionary: its items in insertion order. */
  type Refs = seq<(string, Ref)>

  /** `doc_references.get(id)` */
  function Lookup(refs: Refs, id: string): Option<Ref> {
    if refs == [] then None
    else if refs[|refs| - 1].0 == id then Some(refs[|refs| - 1].1)
    else Lookup(refs[..|refs| - 1], id)
  }

  /** No DocID is registered twice. */
  ghost predicate UniqueIds(refs: Refs) {
    forall i, j :: 0 <= i < j < |refs| ==> refs[i].0 != refs[j].0
  }

  lemma {:induction false} LookupFound(refs: Refs, id: string)
    ensures Lookup(refs, id).Some? <==> exists k :: 0 <= k < |refs| && refs[k].0 == id
  {
    if refs != [] {
      var n := |refs| - 1;
      LookupFound(refs[..n], id);
      if refs[n].0 != id {
        forall k | 0 <= k < |refs| && refs[k].0 == id ensures exists k' :: 0 <= k' < n && refs[..n][k'].0 == id {
          assert refs[..n][k].0 == id;
        }
      }
    }
  }

  /** `doc_references.setdefault(id, ref)` */
  function SetDefault(refs: Refs, id: string, ref: Ref): (r: Refs)
    ensures Lookup(r, id) == (if Lookup(refs, id).Some? then Lookup(refs, id) else Some(ref))
    ensures forall other :: other != id ==> Lookup(r, other) == Lookup(refs, other)
  {
    if Lookup(refs, id).Some? then refs
    else
      assert (refs + [(id, ref)])[..|refs|] == refs;
      refs + [(id, ref)]
  }

  lemma SetDefaultUnique(refs: Refs, id: string, ref: Ref)
    requires UniqueIds(refs)
    ensures UniqueIds(SetDefault(refs, id, ref))
  {
    LookupFound(refs, id);
  }

  /** One line of a knowledge file: registered if it matches the pattern. */
  function ScanLine(refs: Refs, source: string, line: string): Refs {
    match ParseTocLine(line)
    case None => refs
    case Some(e) => SetDefault(refs, e.shortId, Ref(e.title, source))
  }

  /** The lines of one file, in order. */
  function ScanLines(refs: Refs, source: string, lines: seq<string>): Refs
    decreases |lines|
  {
    if lines == [] then refs
    else ScanLine(ScanLines(refs, source, lines[..|lines| - 1]), source, lines[|lines| - 1])
  }

  /** A knowledge file as the worker reads it: its path and its lines. */
  datatype InputFile = InputFile(path: string, lines: seq<string>)

  /** The files, in the order chosen; each entry's source is the file's name. */
  function ScanFiles(refs: Refs, files: seq<InputFile>): Refs
    decreases |files|
  {
    if files == [] then refs
    else
      var f := files[|files| - 1];
      ScanLines(ScanFiles(refs, files[..|files| - 1]), Basename(f.path), f.lines)
  }

  /** The first line of `lines` that matches with DocID `id`, as its title and `source`. */
  function FirstMatch(source: string, lines: seq<string>, id: string): Option<Ref> {
    if lines == [] then None
    else match ParseTocLine(lines[0])
      case Some(e) =>
        if e.shortId == id then Some(Ref(e.title, source)) else FirstMatch(source, lines[1..], id)
      case None => FirstMatch(source, lines[1..], id)
  }

  /** The first match for `id` over the files, in order. */
  function FirstMatchIn(files: seq<InputFile>, id: string): Option<Ref> {
    if files == [] then None
    else match FirstMatch(Basename(files[0].path), files[0].lines, id)
      case Some(r) => Some(r)
      case None => FirstMatchIn(files[1..], id)
  }

  lemma {:induction false} FirstMatchSnoc(source: string, lines: seq<string>, line: string, id: string)
    ensures FirstMatch(source, lines + [line], id)
         == (if FirstMatch(source, lines, id).Some? then FirstMatch(source, lines, id)
             else FirstMatch(source, [line], id))
  {
    if lines != [] {
      assert (lines + [line])[1..] == lines[1..] + [line];
      FirstMatchSnoc(source, lines[1..], line, id);
    }
  }

  /**
   * First wins within a file: after its lines, a DocID keeps what it had
   * and otherwise gets the title of its first matching line.
   */
  lemma {:induction false} ScanLinesFirstWins(refs: Refs, source: string, lines: seq<string>, id: string)
    ensures Lookup(ScanLines(refs, source, lines), id)
         == (if Lookup(refs, id).Some? then Lookup(refs, id) else FirstMatch(source, lines, id))
    decreases |lines|
  {
    if lines != [] {
      var n := |lines| - 1;
      ScanLinesFirstWins(refs, source, lines[..n], id);
      assert lines == lines[..n] + [lines[n]];
      FirstMatchSnoc(source, lines[..n], lines[n], id);
      assert [lines[n]][1..] == [];
    }
  }

  lemma {:induction false} FirstMatchInSnoc(files: seq<InputFile>, f: InputFile, id: string)
    ensures FirstMatchIn(files + [f], id)
         == (if FirstMatchIn(files, id).Some? then FirstMatchIn(files, id)
             else FirstMatch(Basename(f.path), f.lines, id))
  {
    if files != [] {
      assert (files + [f])[1..] == files[1..] + [f];
      FirstMatchInSnoc(files[1..], f, id);
    } else {
      assert [f][1..] == [];
    }
  }

  /**
   * First wins across files: what is registered for a DocID is the title of
   * its first matching line in the first file that has one, with that
   * file's name; a DocID no line carries is not registered.
   */
  lemma {:induction false} ScanFilesFirstWins(files: seq<InputFile>, id: string)
    ensures Lookup(ScanFiles([], files), id) == FirstMatchIn(files, id)
    decreases |files|
  {
    if files != [] {
      var n := |files| - 1;
      ScanFilesFirstWins(files[..n], id);
      var f := files[n];
      ScanLinesFirstWins(ScanFiles([], files[..n]), Basename(f.path), f.lines, id);
      assert files == files[..n] + [f];
      FirstMatchInSnoc(files[..n], f, id);
    }
  }

  lemma {:induction false} ScanLinesUnique(refs: Refs, source: string, lines: seq<string>)
    requires UniqueIds(refs)
    ensures UniqueIds(ScanLines(refs, source, lines))
    decreases |lines|
  {
    if lines != [] {
      var n := |lines| - 1;
      ScanLinesUnique(refs, source, lines[..n]);
      match ParseTocLine(lines[n]) {
        case None =>
        case Some(e) => SetDefaultUnique(ScanLines(refs, source, lines[..n]), e.shortId, Ref(e.title, source));
      }
    }
  }

  /** Registration keeps one entry per DocID. */
  lemma {:induction false} ScanFilesUnique(files: seq<InputFile>)
    ensures UniqueIds(ScanFiles([], files))
    decreases |files|
  {
    if files != [] {
      var n := |files| - 1;
      ScanFilesUnique(files[..n]);
      ScanLinesUnique(ScanFiles([], files[..n]), Basename(files[n].path), files[n].lines);
    }
  }

  /**
   * `_create_reference_sheet_worker`'s scan: every line of every file, in
   * order, goes through `setdefault` when it matches.
   */
  method CollectReferences(files: seq<InputFile>) returns (refs: Refs)
    ensures refs == ScanFiles([], files)
  {
    refs := [];
    var i := 0;
    while i < |files|
      invariant i <= |files|
      invariant refs == ScanFiles([], files[..i])
    {
      refs := ScanFile(refs, Basename(files[i].path), files[i].lines);
      ScanFilesStep(files, i);
      i := i + 1;
    }
    assert files[..i] == files;
  }

  /** The lines of one file, read in order, each matching one going through `setdefault`. */
  method ScanFile(refs0: Refs, source: string, lines: seq<string>) returns (refs: Refs)
    ensures refs == ScanLines(refs0, source, lines)
  {
    refs := refs0;
    var j := 0;
    while j < |lines|
      invariant j <= |lines|
      invariant refs == ScanLines(refs0, source, lines[..j])
    {
      var parsed := ParseTocLine(lines[j]);
      ScanLinesStep(refs0, source, lines, j);
      match parsed {
        case None =>
        case Some(e) =>
          refs := SetDefault(refs, e.shortId, Ref(e.title, source));
      }
      j := j + 1;
    }
    assert lines[..j] == lines;
  }

  lemma ScanLinesStep(refs: Refs, source: string, lines: seq<string>, j: nat)
    requires j < |lines|
    ensures ScanLines(refs, source, lines[..j + 1]) == ScanLine(ScanLines(refs, source, lines[..j]), source, lines[j])
  {
    assert lines[..j + 1][..j] == lines[..j];
  }

  lemma ScanFilesStep(files: seq<InputFile>, i: nat)
    requires i < |files|
    ensures ScanFiles([], files[..i + 1])
         == ScanLines(ScanFiles([], files[..i]), Basename(files[i].path), files[i].lines)
  {
    assert files[..i + 1][..i] == files[..i];
  }

  // ---------------------------------------------------------------------------
  // The sheet
  // ---------------------------------------------------------------------------

  function TitleKey(item: (string, Ref)): string {
    Lower(item.1.title)
  }

  /** `sorted(doc_references.items(), key=lambda item: item[1]['title'].lower())` */
  function SortedRefs(refs: Refs): Refs {
    SortBy(refs, TitleKey, StrOrder())
  }

  /**
   * The sheet lists every registered DocID once, ordered by lower-cased
   * title; DocIDs whose titles differ only in case keep their registration
   * order.
   */
  lemma SortedRefsOrder(refs: Refs, key: string)
    ensures multiset(SortedRefs(refs)) == multiset(refs)
    ensures SortedBy(SortedRefs(refs), TitleKey, StrOrder())
    ensures WithKey(SortedRefs(refs), TitleKey, key) == WithKey(refs, TitleKey, key)
  {
    StrOrderTotal();
    SortBySorted(refs, TitleKey, StrOrder());
    SortByStable(refs, TitleKey, StrOrder(), key);
  }

  /** One line of the global index. */
  function IndexLine(item: (string, Ref)): string {
    "[DocID: " + item.0 + " | Title: " + item.1.title + "] | [SourceFile: " + item.1.source + "]"
  }

  function IndexLines(refs: Refs): (lines: seq<string>)
    ensures |lines| == |refs| && forall k :: 0 <= k < |refs| ==> lines[k] == IndexLine(refs[k])
  {
    if refs == [] then [] else [IndexLine(refs[0])] + IndexLines(refs[1..])
  }

  const INDEX_START := "\n--- GLOBAL DOCUMENT INDEX ---\n"
  const INDEX_END := "\n--- END OF INDEX ---\n"

  /**
   * The reference sheet's content, or nothing (no file is written) when no
   * line matched.
   */
  function Sheet(header: string, refs: Refs): Option<string> {
    if refs == [] then None
    else Some(header + INDEX_START + Join(IndexLines(SortedRefs(refs)), "\n") + INDEX_END)
  }

  /** `_create_reference_sheet_worker`, with the sheet's header as a parameter. */
  method CreateReferenceSheet(files: seq<InputFile>, header: string) returns (sheet: Option<string>)
    ensures sheet == Sheet(header, ScanFiles([], files))
  {
    var refs := CollectReferences(files);
    if refs == [] {
      sheet := None;
    } else {
      sheet := Some(header + INDEX_START + Join(IndexLines(SortedRefs(refs)), "\n") + INDEX_END);
    }
  }

  lemma {:induction false} FirstMatchFinds(source: string, lines: seq<string>, line: string)
    requires line in lines
    ensures ParseTocLine(line).Some? ==> FirstMatch(source, lines, ParseTocLine(line).value.shortId).Some?
  {
    if lines[0] != line {
      FirstMatchFinds(source, lines[1..], line);
    }
  }

  lemma {:induction false} FirstMatchInFinds(files: seq<InputFile>, f: InputFile, line: string)
    requires f in files && line in f.lines
    ensures ParseTocLine(line).Some? ==> FirstMatchIn(files, ParseTocLine(line).value.shortId).Some?
  {
    if files[0] == f {
      FirstMatchFinds(Basename(f.path), f.lines, line);
    } else {
      FirstMatchInFinds(files[1..], f, line);
    }
  }

  lemma {:induction false} FirstMatchHas(source: string, lines: seq<string>, id: string)
    ensures FirstMatch(source, lines, id).Some? ==> exists line :: line in lines && ParseTocLine(line).Some?
  {
    if lines != [] {
      FirstMatchHas(source, lines[1..], id);
      assert forall line :: line in lines[1..] ==> line in lines;
    }
  }

  lemma {:induction false} FirstMatchInHas(files: seq<InputFile>, id: string)
    ensures FirstMatchIn(files, id).Some? ==>
      exists f, line :: f in files && line in f.lines && ParseTocLine(line).Some?
  {
    if files != [] {
      FirstMatchHas(Basename(files[0].path), files[0].lines, id);
      FirstMatchInHas(files[1..], id);
      assert forall f :: f in files[1..] ==> f in files;
    }
  }

  /** No sheet is written exactly when no line of any file matches. */
  lemma NoSheetWhenNoMatch(files: seq<InputFile>, header: string)
    ensures Sheet(header, ScanFiles([], files)).None?
        <==> forall f, line :: f in files && line in f.lines ==> ParseTocLine(line).None?
  {
    var refs := ScanFiles([], files);
    if refs != [] {
      var id := refs[0].0;
      LookupFound(refs, id);
      ScanFilesFirstWins(files, id);
      FirstMatchInHas(files, id);
    } else {
      forall f, line | f in files && line in f.lines ensures ParseTocLine(line).None? {
        FirstMatchInFinds(files, f, line);
        var id := if ParseTocLine(line).Some? then ParseTocLine(line).value.shortId else [];
        ScanFilesFirstWins(files, id);
      }
    }
  }

  // ---------------------------------------------------------------------------
  // Knowledge files read back
  // ---------------------------------------------------------------------------

  /** The length of the first line of `text`, its newline included. */
  function LineLength(text: string): (n: nat)
    ensures n <= |text| && (text != [] ==> 1 <= n)
    ensures forall i :: 0 <= i < n - 1 ==> text[i] != '\n'
    ensures 0 < n < |text| ==> text[n - 1] == '\n'
  {
    if text == [] then 0 else if text[0] == '\n' then 1 else 1 + LineLength(text[1..])
  }

  /** `for line in infile`: the lines of a text, each keeping its newline. */
  function ReadLines(text: string): seq<string>
    decreases |text|
  {
    if text == [] then [] else [text[..LineLength(text)]] + ReadLines(text[LineLength(text)..])
  }

  /** Text that is empty or ends a line. */
  predicate EndsLine(text: string) {
    text == [] || text[|text| - 1] == '\n'
  }

  lemma {:induction false} LineLengthAppend(a: string, b: string)
    requires '\n' in a
    ensures LineLength(a + b) == LineLength(a)
  {
    if a[0] != '\n' {
      assert (a + b)[1..] == a[1..] + b;
      assert '\n' in a[1..] by {
        var i :| 0 <= i < |a| && a[i] == '\n';
        assert a[1..][i - 1] == '\n';
      }
      LineLengthAppend(a[1..], b);
    }
  }

  /** Reading text that ends a line, then more text, reads the two apart. */
  lemma {:induction false} ReadLinesAppend(a: string, b: string)
    requires EndsLine(a)
    ensures ReadLines(a + b) == ReadLines(a) + ReadLines(b)
    decreases |a|
  {
    if a == [] {
      assert a + b == b;
    } else {
      assert a[|a| - 1] in a;
      LineLengthAppend(a, b);
      var n := LineLength(a);
      assert (a + b)[..n] == a[..n];
      assert (a + b)[n..] == a[n..] + b;
      assert EndsLine(a[n..]);
      ReadLinesAppend(a[n..], b);
      assert ReadLines(a + b) == [a[..n]] + ReadLines(a[n..] + b);
    }
  }

  /** A line with its one newline at the end reads as itself. */
  lemma OneLine(line: string)
    requires line != [] && line[|line| - 1] == '\n'
    requires forall i :: 0 <= i < |line| - 1 ==> line[i] != '\n'
    ensures ReadLines(line) == [line]
  {
    assert line[|line| - 1] in line;
    var n := LineLength(line);
    assert n == |line|;
    assert line[..n] == line && line[n..] == [];
    assert ReadLines(line) == [line[..n]] + ReadLines(line[n..]);
  }

  /** Ids, hashes and titles that stay on one line. */
  ghost predicate OneLineFields(d: Knowledge.Doc) {
    '\n' !in d.shortId && '\n' !in d.fullHash && '\n' !in d.title
  }

  lemma TocLineIsLine(d: Knowledge.Doc)
    requires OneLineFields(d)
    ensures ReadLines(Knowledge.TocLine(d)) == [Knowledge.TocLine(d)]
  {
    var l := Knowledge.TocLine(d);
    var body := ID_OPEN + d.shortId + " (" + d.fullHash + TITLE_OPEN + d.title + "]";
    assert l == body + "\n";
    assert '\n' !in body;
    OneLine(l);
  }

  /** The table of contents reads back as its entries, one per line. */
  lemma {:induction false} TocLinesRead(docs: seq<Knowledge.Doc>)
    requires forall d :: d in docs ==> OneLineFields(d)
    ensures EndsLine(Knowledge.TocLines(docs))
    ensures forall d :: d in docs ==> Knowledge.TocLine(d) in ReadLines(Knowledge.TocLines(docs))
  {
    if docs != [] {
      var head := Knowledge.TocLine(docs[0]);
      TocLinesRead(docs[1..]);
      TocLineIsLine(docs[0]);
      ReadLinesAppend(head, Knowledge.TocLines(docs[1..]));
      assert forall d :: d in docs ==> d == docs[0] || d in docs[1..];
    }
  }

  /**
   * Every document of a knowledge file whose fields the pattern accepts and
   * which stay on one line is registered by the reference sheet built from
   * that file.
   */
  lemma KnowledgeFileIndexed(header: string, docs: seq<Knowledge.Doc>, nfkc: string -> string,
                             path: string, d: Knowledge.Doc)
    requires d in docs
    requires forall x :: x in docs ==> OneLineFields(x)
    requires ValidEntry(TocEntry(d.shortId, d.fullHash, d.title))
    ensures var text := Knowledge.KnowledgeText(header, docs, nfkc);
      Lookup(ScanFiles([], [InputFile(path, ReadLines(text))]), d.shortId).Some?
  {
    var a := header + Knowledge.TOC_START;
    var b := Knowledge.TocLines(docs);
    var c := Knowledge.TOC_END + Knowledge.Sections(docs, nfkc);
    var text := Knowledge.KnowledgeText(header, docs, nfkc);
    assert text == a + (b + c);
    TocLinesRead(docs);
    ReadLinesAppend(a, b + c);
    ReadLinesAppend(b, c);
    var lines := ReadLines(text);
    var line := Knowledge.TocLine(d);
    assert line in lines;
    var files := [InputFile(path, lines)];
    TocLineRoundTrip(d);
    FirstMatchInFinds(files, files[0], line);
    ScanFilesFirstWins(files, d.shortId);
  }
}
