/**
 * The project map (`make_tree_map`): the visible files, given as
 * root-relative paths, drawn as an indented tree.  Under each directory the
 * subdirectories come first, then the files, each group sorted by name; the
 * last entry of a level is drawn with "└── ", the others with "├── ", and
 * the children of an entry are indented by "    " under a last entry and by
 * "│   " otherwise.  Only directories holding a visible file appear.
 */
module TreeMap {
  import opened PyStr
  import opened Order

  type Path = seq<string>

  const BRANCH: string := "├── "
  const LAST_BRANCH: string := "└── "
  const PIPE_INDENT: string := "│   "
  const BLANK_INDENT: string := "    "

  /** The longest path among `files` (0 for none). */
  function MaxLen(files: seq<Path>): nat
  {
    if files == [] then 0 else Max(|files[0]|, MaxLen(files[1..]))
  }

  lemma {:induction false} MaxLenBound(files: seq<Path>)
    ensures forall f :: f in files ==> |f| <= MaxLen(files)
  {
    if files != [] {
      MaxLenBound(files[1..]);
      assert forall f :: f in files ==> f == files[0] || f in files[1..];
    }
  }

  /** `f` lies strictly inside the directory `d`. */
  predicate Below(f: Path, d: Path) {
    |f| > |d| && f[..|d|] == d
  }

  /** The final component (`Path.name`). */
  function LastName(p: Path): string {
    if p == [] then "" else p[|p| - 1]
  }

  /** `x` names a subdirectory of `d` that holds a visible file. */
  predicate IsSubdirName(files: seq<Path>, d: Path, x: string) {
    exists f :: f in files && |f| > |d| + 1 && Below(f, d) && f[|d|] == x
  }

  /** The visible files directly inside `d`, in input order (`children[d]["files"]`). */
  function Direct(files: seq<Path>, d: Path): seq<Path>
  {
    if files == [] then []
    else (if |files[0]| == |d| + 1 && Below(files[0], d) then [files[0]] else []) + Direct(files[1..], d)
  }

  lemma {:induction false} DirectMembers(files: seq<Path>, d: Path)
    ensures forall f :: f in Direct(files, d) <==> f in files && |f| == |d| + 1 && Below(f, d)
    ensures multiset(Direct(files, d)) <= multiset(files)
  {
    if files != [] {
      DirectMembers(files[1..], d);
      assert files == [files[0]] + files[1..];
    }
  }

  /** The names of the subdirectories of `d` holding a visible file, each once. */
  function SubdirNames(files: seq<Path>, d: Path): seq<string>
  {
    if files == [] then []
    else
      var rest := SubdirNames(files[..|files| - 1], d);
      var f := files[|files| - 1];
      if |f| > |d| + 1 && Below(f, d) && f[|d|] !in rest then rest + [f[|d|]] else rest
  }

  lemma {:induction false} SubdirNamesMembers(files: seq<Path>, d: Path)
    ensures forall x :: x in SubdirNames(files, d) <==> IsSubdirName(files, d, x)
    ensures forall x :: multiset(SubdirNames(files, d))[x] <= 1
  {
    if files != [] {
      var init := files[..|files| - 1];
      SubdirNamesMembers(init, d);
      var f := files[|files| - 1];
      assert files == init + [f];
      forall x | IsSubdirName(init, d, x) ensures IsSubdirName(files, d, x) {
        var g :| g in init && |g| > |d| + 1 && Below(g, d) && g[|d|] == x;
        assert g in files;
      }
      forall x | IsSubdirName(files, d, x)
        ensures IsSubdirName(init, d, x) || (|f| > |d| + 1 && Below(f, d) && f[|d|] == x)
      {
        var g :| g in files && |g| > |d| + 1 && Below(g, d) && g[|d|] == x;
        if g != f { assert g in init; }
      }
    }
  }

  function Id(s: string): string { s }

  /** `sorted(children[d]["dirs"], key=lambda x: x.name)`, as names. */
  function SortedSubdirs(files: seq<Path>, d: Path): seq<string>
  {
    SortBy(SubdirNames(files, d), Id, StrOrder())
  }

  lemma SortedSubdirsMembers(files: seq<Path>, d: Path)
    ensures forall x :: x in SortedSubdirs(files, d) <==> IsSubdirName(files, d, x)
    ensures forall x :: multiset(SortedSubdirs(files, d))[x] <= 1
  {
    var r := SortedSubdirs(files, d);
    SubdirNamesMembers(files, d);
    assert forall x :: x in r <==> x in multiset(r);
  }

  /** `sorted(children[d]["files"], key=lambda x: x.name)` */
  function SortedDirect(files: seq<Path>, d: Path): seq<Path>
  {
    SortBy(Direct(files, d), LastName, StrOrder())
  }

  lemma SortedDirectMembers(files: seq<Path>, d: Path)
    ensures forall f :: f in SortedDirect(files, d) <==> f in files && |f| == |d| + 1 && Below(f, d)
    ensures multiset(SortedDirect(files, d)) == multiset(Direct(files, d))
  {
    var r := SortedDirect(files, d);
    DirectMembers(files, d);
    assert forall x :: x in r <==> x in multiset(r);
  }

  /** One drawn entry: its indentation, whether it is last at its level, its path. */
  datatype Row = Row(prefix: string, last: bool, path: Path, isDir: bool)

  function Line(r: Row): string {
    r.prefix + (if r.last then LAST_BRANCH else BRANCH) + LastName(r.path) + (if r.isDir then "/" else "")
  }

  function Lines(rows: seq<Row>): (r: seq<string>)
    ensures |r| == |rows|
  {
    if rows == [] then [] else Lines(rows[..|rows| - 1]) + [Line(rows[|rows| - 1])]
  }

  lemma {:induction false} LinesAppend(a: seq<Row>, b: seq<Row>)
    ensures Lines(a + b) == Lines(a) + Lines(b)
    decreases |b|
  {
    if b != [] {
      assert (a + b)[..|a + b| - 1] == a + b[..|b| - 1];
      LinesAppend(a, b[..|b| - 1]);
      Assoc(Lines(a), Lines(b[..|b| - 1]), [Line(b[|b| - 1])]);
    } else {
      assert a + b == a;
    }
  }

  /** Stated once so that the rendering proofs need not re-derive it in a large context. */
  lemma Assoc(a: seq<string>, b: seq<string>, c: seq<string>)
    ensures (a + b) + c == a + (b + c)
  {
  }

  function ChildIndent(prefix: string, last: bool): string {
    prefix + (if last then BLANK_INDENT else PIPE_INDENT)
  }

  /**
   * `render(d, prefix)`: the entries below `d`, in drawing order.  Nothing
   * lies below a directory as deep as the longest file path.
   */
  function Rows(files: seq<Path>, d: Path, prefix: string): seq<Row>
    decreases MaxLen(files) - |d|, 1, 0
  {
    if MaxLen(files) <= |d| then []
    else
      var subs := SortedSubdirs(files, d);
      var fs := SortedDirect(files, d);
      SubdirRows(files, d, prefix, subs, fs == [], |subs|) + FileRows(prefix, fs, |fs|)
  }

  /** The entries of the first `n` subdirectories of `d` and everything below them. */
  function SubdirRows(files: seq<Path>, d: Path, prefix: string, subs: seq<string>, noFiles: bool, n: nat): seq<Row>
    requires |d| < MaxLen(files) && n <= |subs|
    decreases MaxLen(files) - |d|, 0, n
  {
    if n == 0 then []
    else
      var x := subs[n - 1];
      var last := n == |subs| && noFiles;
      SubdirRows(files, d, prefix, subs, noFiles, n - 1)
        + [Row(prefix, last, d + [x], true)]
        + Rows(files, d + [x], ChildIndent(prefix, last))
  }

  /** The entries of the first `n` of the files `fs` of one directory. */
  function FileRows(prefix: string, fs: seq<Path>, n: nat): (r: seq<Row>)
    requires n <= |fs|
    ensures |r| == n
    ensures forall i :: 0 <= i < n ==> r[i] == Row(prefix, i == |fs| - 1, fs[i], false)
  {
    if n == 0 then [] else FileRows(prefix, fs, n - 1) + [Row(prefix, n == |fs|, fs[n - 1], false)]
  }

  /** The lines of the map: the root's name with a '/', then the tree. */
  function TreeLines(rootName: string, files: seq<Path>): (r: seq<string>)
    ensures r != [] && r[0] == rootName + "/"
  {
    [rootName + "/"] + Lines(Rows(files, [], ""))
  }

  // ---------------------------------------------------------------------------
  // The renderer, appending to the shared list of lines
  // ---------------------------------------------------------------------------

  lemma SubdirDepth(files: seq<Path>, d: Path, x: string)
    requires IsSubdirName(files, d, x)
    ensures |d| + 2 <= MaxLen(files)
  {
    MaxLenBound(files);
  }

  /** A directory at least as deep as every file has nothing below it. */
  lemma NothingBelowDeep(files: seq<Path>, d: Path)
    requires MaxLen(files) <= |d|
    ensures SortedSubdirs(files, d) == [] && SortedDirect(files, d) == []
  {
    var subs := SortedSubdirs(files, d);
    SortedSubdirsMembers(files, d);
    if subs != [] {
      SubdirDepth(files, d, subs[0]);
    }
    var fs := SortedDirect(files, d);
    SortedDirectMembers(files, d);
    MaxLenBound(files);
  }

  lemma SubdirRowsStep(files: seq<Path>, d: Path, prefix: string, subs: seq<string>, noFiles: bool, i: nat,
                        lines: seq<string>, before: seq<string>, after: seq<string>)
    requires |d| < MaxLen(files) && i < |subs|
    requires before == lines + Lines(SubdirRows(files, d, prefix, subs, noFiles, i))
    requires var last := i == |subs| - 1 && noFiles;
             after == before + [Line(Row(prefix, last, d + [subs[i]], true))]
                      + Lines(Rows(files, d + [subs[i]], ChildIndent(prefix, last)))
    ensures after == lines + Lines(SubdirRows(files, d, prefix, subs, noFiles, i + 1))
  {
    var last := i == |subs| - 1 && noFiles;
    var row := Row(prefix, last, d + [subs[i]], true);
    var prev := SubdirRows(files, d, prefix, subs, noFiles, i);
    var below := Rows(files, d + [subs[i]], ChildIndent(prefix, last));
    assert SubdirRows(files, d, prefix, subs, noFiles, i + 1) == prev + [row] + below;
    LinesAppend(prev, [row]);
    LinesAppend(prev + [row], below);
    var lp, lb := Lines(prev), Lines(below);
    assert Lines([row]) == [Line(row)];
    Assoc(lines, lp, [Line(row)]);
    Assoc(lines, lp + [Line(row)], lb);
  }

  lemma FileRowsStep(prefix: string, fs: seq<Path>, j: nat, head: seq<string>, before: seq<string>)
    requires j < |fs|
    requires before == head + Lines(FileRows(prefix, fs, j))
    ensures before + [Line(Row(prefix, j == |fs| - 1, fs[j], false))] == head + Lines(FileRows(prefix, fs, j + 1))
  {
    LinesAppend(FileRows(prefix, fs, j), [Row(prefix, j == |fs| - 1, fs[j], false)]);
  }

  /** `render(d, prefix)`: appends the lines below `d` to `lines`. */
  method Render(files: seq<Path>, d: Path, prefix: string, lines: seq<string>) returns (out: seq<string>)
    ensures out == lines + Lines(Rows(files, d, prefix))
    decreases MaxLen(files) - |d|, 1
  {
    var subdirs := SortedSubdirs(files, d);
    var fs := SortedDirect(files, d);
    if MaxLen(files) <= |d| {
      NothingBelowDeep(files, d);
    }
    out := RenderSubdirs(files, d, prefix, subdirs, fs == [], lines);
    ghost var mid := out;
    out := RenderFiles(prefix, fs, out);
    RowsSplit(files, d, prefix, lines, mid, out);
  }

  /** The first loop of `render`: each subdirectory's line, then its own rendering. */
  method RenderSubdirs(files: seq<Path>, d: Path, prefix: string, subs: seq<string>, noFiles: bool,
                       lines: seq<string>) returns (out: seq<string>)
    requires subs != [] ==> |d| < MaxLen(files)
    ensures subs != [] ==> out == lines + Lines(SubdirRows(files, d, prefix, subs, noFiles, |subs|))
    ensures subs == [] ==> out == lines
    decreases MaxLen(files) - |d|, 0
  {
    out := lines;
    var i := 0;
    while i < |subs|
      invariant 0 <= i <= |subs|
      invariant subs != [] ==> out == lines + Lines(SubdirRows(files, d, prefix, subs, noFiles, i))
      invariant subs == [] ==> out == lines
    {
      var sd := subs[i];
      var isLast := i == |subs| - 1 && noFiles;
      ghost var before := out;
      out := out + [Line(Row(prefix, isLast, d + [sd], true))];
      out := Render(files, d + [sd], ChildIndent(prefix, isLast), out);
      SubdirRowsStep(files, d, prefix, subs, noFiles, i, lines, before, out);
      i := i + 1;
    }
  }

  lemma RowsSplit(files: seq<Path>, d: Path, prefix: string, lines: seq<string>, mid: seq<string>, out: seq<string>)
    requires var subs := SortedSubdirs(files, d);
             subs != [] ==>
               |d| < MaxLen(files) &&
               mid == lines + Lines(SubdirRows(files, d, prefix, subs, SortedDirect(files, d) == [], |subs|))
    requires SortedSubdirs(files, d) == [] ==> mid == lines
    requires var fs := SortedDirect(files, d);
             out == mid + Lines(FileRows(prefix, fs, |fs|))
    ensures out == lines + Lines(Rows(files, d, prefix))
  {
    var subs := SortedSubdirs(files, d);
    var fs := SortedDirect(files, d);
    if MaxLen(files) <= |d| {
      NothingBelowDeep(files, d);
    } else {
      if subs == [] {
        assert Lines(SubdirRows(files, d, prefix, subs, fs == [], 0)) == [];
      }
      RowsSplitShallow(files, d, prefix, lines, mid, out);
    }
  }

  /** `RowsSplit` for a directory with entries below it. */
  lemma RowsSplitShallow(files: seq<Path>, d: Path, prefix: string, lines: seq<string>, mid: seq<string>, out: seq<string>)
    requires |d| < MaxLen(files)
    requires var subs := SortedSubdirs(files, d);
      mid == lines + Lines(SubdirRows(files, d, prefix, subs, SortedDirect(files, d) == [], |subs|))
    requires var fs := SortedDirect(files, d);
      out == mid + Lines(FileRows(prefix, fs, |fs|))
    ensures out == lines + Lines(Rows(files, d, prefix))
  {
    var subs := SortedSubdirs(files, d);
    var fs := SortedDirect(files, d);
    RowsLines(files, d, prefix);
    Assoc(lines, Lines(SubdirRows(files, d, prefix, subs, fs == [], |subs|)), Lines(FileRows(prefix, fs, |fs|)));
  }

  /** The lines of a directory: those of its subdirectories, then those of its files. */
  lemma RowsLines(files: seq<Path>, d: Path, prefix: string)
    requires |d| < MaxLen(files)
    ensures var subs := SortedSubdirs(files, d);
      var fs := SortedDirect(files, d);
      Lines(Rows(files, d, prefix))
      == Lines(SubdirRows(files, d, prefix, subs, fs == [], |subs|)) + Lines(FileRows(prefix, fs, |fs|))
  {
    var subs := SortedSubdirs(files, d);
    var fs := SortedDirect(files, d);
    LinesAppend(SubdirRows(files, d, prefix, subs, fs == [], |subs|), FileRows(prefix, fs, |fs|));
  }

  /** The second loop of `render`: one line per file of the directory. */
  method RenderFiles(prefix: string, fs: seq<Path>, lines: seq<string>) returns (out: seq<string>)
    ensures out == lines + Lines(FileRows(prefix, fs, |fs|))
  {
    out := lines;
    var j := 0;
    while j < |fs|
      invariant 0 <= j <= |fs|
      invariant out == lines + Lines(FileRows(prefix, fs, j))
    {
      var isLast := j == |fs| - 1;
      FileRowsStep(prefix, fs, j, lines, out);
      out := out + [Line(Row(prefix, isLast, fs[j], false))];
      j := j + 1;
    }
  }

  /** `make_tree_map(root, visible_files)` */
  method MakeTreeMap(rootName: string, files: seq<Path>) returns (text: string)
    ensures text == Join(TreeLines(rootName, files), "\n")
  {
    var lines := [rootName + "/"];
    lines := Render(files, [], "", lines);
    text := Join(lines, "\n");
  }

  // ---------------------------------------------------------------------------
  // Properties of the drawing
  // ---------------------------------------------------------------------------

  /** The paths drawn as files. */
  ghost function FilesShown(rows: seq<Row>): set<Path> {
    set i | 0 <= i < |rows| && !rows[i].isDir :: rows[i].path
  }

  lemma FilesShownAppend(a: seq<Row>, b: seq<Row>)
    ensures FilesShown(a + b) == FilesShown(a) + FilesShown(b)
  {
    var ab := a + b;
    forall p | p in FilesShown(a + b) ensures p in FilesShown(a) + FilesShown(b) {
      var i :| 0 <= i < |ab| && !ab[i].isDir && ab[i].path == p;
      if i >= |a| { assert b[i - |a|] == ab[i]; }
    }
    forall p | p in FilesShown(b) ensures p in FilesShown(a + b) {
      var i :| 0 <= i < |b| && !b[i].isDir && b[i].path == p;
      assert ab[i + |a|] == b[i];
    }
    forall p | p in FilesShown(a) ensures p in FilesShown(a + b) {
      var i :| 0 <= i < |a| && !a[i].isDir && a[i].path == p;
      assert ab[i] == a[i];
    }
  }

  lemma FileRowsShown(prefix: string, fs: seq<Path>)
    ensures FilesShown(FileRows(prefix, fs, |fs|)) == set f | f in fs
  {
    var rows := FileRows(prefix, fs, |fs|);
    forall f | f in fs ensures f in FilesShown(rows) {
      var i :| 0 <= i < |fs| && fs[i] == f;
      assert rows[i].path == f && !rows[i].isDir;
    }
  }

  /** `f` lies inside the subdirectory `x` of `d`. */
  lemma BelowChild(f: Path, d: Path, x: string)
    ensures Below(f, d + [x]) <==> Below(f, d) && |f| > |d| + 1 && f[|d|] == x
  {
    if Below(f, d) && |f| > |d| + 1 && f[|d|] == x {
      assert f[..|d| + 1] == f[..|d|] + [f[|d|]];
    }
    if Below(f, d + [x]) {
      assert f[..|d|] == f[..|d| + 1][..|d|];
    }
  }

  /** The files of `files` inside the subdirectories `names` of `d`. */
  ghost function InsideSome(files: seq<Path>, d: Path, names: seq<string>): set<Path> {
    set f | f in files && Below(f, d) && |f| > |d| + 1 && f[|d|] in names
  }

  lemma InsideSomeStep(files: seq<Path>, d: Path, names: seq<string>, x: string)
    ensures InsideSome(files, d, names + [x]) == InsideSome(files, d, names) + set f | f in files && Below(f, d + [x])
  {
    forall f | f in files ensures Below(f, d + [x]) <==> Below(f, d) && |f| > |d| + 1 && f[|d|] == x {
      BelowChild(f, d, x);
    }
  }

  /** The files drawn below the first `n` subdirectories are the files inside them. */
  lemma {:induction false} SubdirRowsShowFiles(files: seq<Path>, d: Path, prefix: string, subs: seq<string>,
                                               noFiles: bool, n: nat)
    requires |d| < MaxLen(files) && n <= |subs|
    ensures FilesShown(SubdirRows(files, d, prefix, subs, noFiles, n)) == InsideSome(files, d, subs[..n])
    decreases MaxLen(files) - |d|, 0, n
  {
    if n > 0 {
      var x := subs[n - 1];
      var last := n == |subs| && noFiles;
      var prev := SubdirRows(files, d, prefix, subs, noFiles, n - 1);
      var row := Row(prefix, last, d + [x], true);
      var below := Rows(files, d + [x], ChildIndent(prefix, last));
      assert SubdirRows(files, d, prefix, subs, noFiles, n) == prev + [row] + below;
      SubdirRowsShowFiles(files, d, prefix, subs, noFiles, n - 1);
      RowsShowFiles(files, d + [x], ChildIndent(prefix, last));
      assert subs[..n] == subs[..n - 1] + [x];
      ShownStep(files, d, subs[..n - 1], x, prev, row, below);
    }
  }

  /** One more subdirectory: its own row shows no file, the rows below it its files. */
  lemma ShownStep(files: seq<Path>, d: Path, names: seq<string>, x: string, prev: seq<Row>, row: Row, below: seq<Row>)
    requires FilesShown(prev) == InsideSome(files, d, names) && row.isDir
    requires FilesShown(below) == set f | f in files && Below(f, d + [x])
    ensures FilesShown(prev + [row] + below) == InsideSome(files, d, names + [x])
  {
    FilesShownAppend(prev, [row]);
    FilesShownAppend(prev + [row], below);
    assert FilesShown([row]) == {};
    InsideSomeStep(files, d, names, x);
  }

  /** Every visible file inside `d`, and nothing else, is drawn as a file below `d`. */
  lemma {:induction false} RowsShowFiles(files: seq<Path>, d: Path, prefix: string)
    ensures FilesShown(Rows(files, d, prefix)) == set f | f in files && Below(f, d)
    decreases MaxLen(files) - |d|, 1, 0
  {
    MaxLenBound(files);
    if MaxLen(files) > |d| {
      var subs := SortedSubdirs(files, d);
      var fs := SortedDirect(files, d);
      SubdirRowsShowFiles(files, d, prefix, subs, fs == [], |subs|);
      assert subs[..|subs|] == subs;
      FileRowsShown(prefix, fs);
      FilesShownAppend(SubdirRows(files, d, prefix, subs, fs == [], |subs|), FileRows(prefix, fs, |fs|));
      SortedSubdirsMembers(files, d);
      SortedDirectMembers(files, d);
      InsideSplit(files, d, subs, fs);
    }
  }

  /** The files inside `d` are those inside its subdirectories and those directly in it. */
  lemma InsideSplit(files: seq<Path>, d: Path, subs: seq<string>, fs: seq<Path>)
    requires forall x :: x in subs <==> IsSubdirName(files, d, x)
    requires forall f :: f in fs <==> f in files && |f| == |d| + 1 && Below(f, d)
    ensures InsideSome(files, d, subs) + (set f | f in fs) == set f | f in files && Below(f, d)
  {
    forall f | f in files && Below(f, d) && |f| > |d| + 1 ensures f[|d|] in subs {
      assert IsSubdirName(files, d, f[|d|]);
    }
  }

  /** The map shows every visible file exactly where it lies, and no other file. */
  lemma TreeShowsAllFiles(files: seq<Path>)
    ensures FilesShown(Rows(files, [], "")) == set f | f in files && f != []
  {
    RowsShowFiles(files, [], "");
    assert forall f: Path :: Below(f, []) <==> f != [];
  }

  /** The paths drawn as files, in drawing order. */
  function FilePaths(rows: seq<Row>): seq<Path> {
    if rows == [] then [] else (if rows[0].isDir then [] else [rows[0].path]) + FilePaths(rows[1..])
  }

  lemma {:induction false} FilePathsAppend(a: seq<Row>, b: seq<Row>)
    ensures FilePaths(a + b) == FilePaths(a) + FilePaths(b)
  {
    if a != [] {
      assert (a + b)[1..] == a[1..] + b;
      FilePathsAppend(a[1..], b);
    } else {
      assert a + b == b;
    }
  }

  lemma {:induction false} FileRowsPaths(prefix: string, fs: seq<Path>, n: nat)
    requires n <= |fs|
    ensures FilePaths(FileRows(prefix, fs, n)) == fs[..n]
  {
    if n > 0 {
      var row := Row(prefix, n == |fs|, fs[n - 1], false);
      FileRowsPaths(prefix, fs, n - 1);
      FilePathsAppend(FileRows(prefix, fs, n - 1), [row]);
      assert FilePaths([row]) == [fs[n - 1]];
      assert fs[..n] == fs[..n - 1] + [fs[n - 1]];
    }
  }

  /** A directory's file list holds each of its direct files as often as `files` does. */
  lemma {:induction false} DirectCount(files: seq<Path>, d: Path, f: Path)
    ensures multiset(Direct(files, d))[f] == if |f| == |d| + 1 && Below(f, d) then multiset(files)[f] else 0
  {
    if files != [] {
      DirectCount(files[1..], d, f);
      assert files == [files[0]] + files[1..];
    }
  }

  /** No name occurs twice in `subs`. */
  ghost predicate Once(subs: seq<string>) {
    forall x :: multiset(subs)[x] <= 1
  }

  /** A name occurring at most once in `subs` is not among the names before it. */
  lemma OnceNotBefore(subs: seq<string>, n: nat)
    requires 0 < n <= |subs| && Once(subs)
    ensures subs[n - 1] !in subs[..n - 1]
  {
    var x := subs[n - 1];
    assert subs == subs[..n - 1] + [x] + subs[n..];
    assert multiset(subs) == multiset(subs[..n - 1]) + multiset([x]) + multiset(subs[n..]);
    assert multiset(subs)[x] <= 1;
    assert multiset(subs[..n - 1])[x] == 0;
  }

  /** How often `f` is drawn below the subdirectories `names` of `d`. */
  ghost function InsideCount(files: seq<Path>, d: Path, names: seq<string>, f: Path): nat {
    if Below(f, d) && |f| > |d| + 1 && f[|d|] in names then multiset(files)[f] else 0
  }

  /** One more subdirectory, not drawn before: its row shows no file, the rows below it its files. */
  lemma CountStep(files: seq<Path>, d: Path, names: seq<string>, x: string,
                  prev: seq<Row>, row: Row, below: seq<Row>, f: Path)
    requires x !in names && row.isDir
    requires multiset(FilePaths(prev))[f] == InsideCount(files, d, names, f)
    requires multiset(FilePaths(below))[f] == if Below(f, d + [x]) then multiset(files)[f] else 0
    ensures multiset(FilePaths(prev + [row] + below))[f] == InsideCount(files, d, names + [x], f)
  {
    FilePathsAppend(prev, [row]);
    FilePathsAppend(prev + [row], below);
    assert FilePaths([row]) == [];
    BelowChild(f, d, x);
  }

  /**
   * Below the first `n` of a list of distinct subdirectories, each file
   * inside one of them is drawn as often as it occurs in `files`.
   */
  lemma {:induction false} SubdirRowsCount(files: seq<Path>, d: Path, prefix: string, subs: seq<string>,
                                           noFiles: bool, n: nat, f: Path)
    requires |d| < MaxLen(files) && n <= |subs| && Once(subs)
    ensures multiset(FilePaths(SubdirRows(files, d, prefix, subs, noFiles, n)))[f]
            == InsideCount(files, d, subs[..n], f)
    decreases MaxLen(files) - |d|, 0, n
  {
    if n > 0 {
      var x := subs[n - 1];
      var last := n == |subs| && noFiles;
      var prev := SubdirRows(files, d, prefix, subs, noFiles, n - 1);
      var row := Row(prefix, last, d + [x], true);
      var below := Rows(files, d + [x], ChildIndent(prefix, last));
      assert SubdirRows(files, d, prefix, subs, noFiles, n) == prev + [row] + below;
      SubdirRowsCount(files, d, prefix, subs, noFiles, n - 1, f);
      RowsCount(files, d + [x], ChildIndent(prefix, last), f);
      OnceNotBefore(subs, n);
      assert subs[..n] == subs[..n - 1] + [x];
      CountStep(files, d, subs[..n - 1], x, prev, row, below, f);
    }
  }

  /**
   * `render(d, prefix)` draws each file inside `d` exactly as often as it
   * occurs in `files`, and no other file.
   */
  lemma {:induction false} RowsCount(files: seq<Path>, d: Path, prefix: string, f: Path)
    ensures multiset(FilePaths(Rows(files, d, prefix)))[f] == if Below(f, d) then multiset(files)[f] else 0
    decreases MaxLen(files) - |d|, 1, 0
  {
    MaxLenBound(files);
    if MaxLen(files) > |d| {
      var subs := SortedSubdirs(files, d);
      var fs := SortedDirect(files, d);
      SortedSubdirsMembers(files, d);
      SubdirRowsCount(files, d, prefix, subs, fs == [], |subs|, f);
      assert subs[..|subs|] == subs;
      CountSplit(files, d, prefix, subs, fs, f);
    }
  }

  /** The rows of a directory with entries below it: those of its subdirectories, then of its files. */
  lemma CountSplit(files: seq<Path>, d: Path, prefix: string, subs: seq<string>, fs: seq<Path>, f: Path)
    requires |d| < MaxLen(files)
    requires subs == SortedSubdirs(files, d) && fs == SortedDirect(files, d)
    requires multiset(FilePaths(SubdirRows(files, d, prefix, subs, fs == [], |subs|)))[f]
             == InsideCount(files, d, subs, f)
    ensures multiset(FilePaths(Rows(files, d, prefix)))[f] == if Below(f, d) then multiset(files)[f] else 0
  {
    SortedSubdirsMembers(files, d);
    SortedDirectMembers(files, d);
    FileRowsPaths(prefix, fs, |fs|);
    assert fs[..|fs|] == fs;
    DirectCount(files, d, f);
    FilePathsAppend(SubdirRows(files, d, prefix, subs, fs == [], |subs|), FileRows(prefix, fs, |fs|));
    if f in files && Below(f, d) && |f| > |d| + 1 {
      assert IsSubdirName(files, d, f[|d|]);
    }
  }

  /**
   * For a walk that yields no path twice, the map draws each visible file
   * exactly once, and nothing that is not a visible file.
   */
  lemma TreeDrawsEachFileOnce(files: seq<Path>)
    requires forall i, j :: 0 <= i < j < |files| ==> files[i] != files[j]
    ensures forall f :: f in files && f != [] ==> multiset(FilePaths(Rows(files, [], "")))[f] == 1
    ensures forall f :: f !in files ==> multiset(FilePaths(Rows(files, [], "")))[f] == 0
  {
    DistinctOnce(files);
    forall f ensures multiset(FilePaths(Rows(files, [], "")))[f] == if f != [] then multiset(files)[f] else 0 {
      RowsCount(files, [], "", f);
    }
  }

  lemma {:induction false} DistinctOnce<T>(s: seq<T>)
    requires forall i, j :: 0 <= i < j < |s| ==> s[i] != s[j]
    ensures forall x :: x in s ==> multiset(s)[x] == 1
  {
    if s != [] {
      DistinctOnce(s[1..]);
      assert s == [s[0]] + s[1..];
      assert s[0] !in s[1..];
    }
  }

  /** Some visible file lies inside `p`. */
  ghost predicate HoldsFile(files: seq<Path>, p: Path) {
    exists f :: f in files && Below(f, p)
  }

  /**
   * A row drawn below `d` with indentation `prefix`: it lies inside `d`, it is
   * indented four more characters per level, a file row is a visible file
   * and a directory row holds one.
   */
  ghost predicate Placed(r: Row, files: seq<Path>, d: Path, prefix: string) {
    && Below(r.path, d)
    && |r.prefix| == |prefix| + 4 * (|r.path| - |d| - 1)
    && (r.isDir ==> HoldsFile(files, r.path))
    && (!r.isDir ==> r.path in files)
  }

  lemma PlacedInChild(r: Row, files: seq<Path>, d: Path, x: string, prefix: string, last: bool)
    requires Placed(r, files, d + [x], ChildIndent(prefix, last))
    ensures Placed(r, files, d, prefix)
  {
    BelowChild(r.path, d, x);
  }

  lemma {:induction false} SubdirRowsPlaced(files: seq<Path>, d: Path, prefix: string, subs: seq<string>,
                                            noFiles: bool, n: nat)
    requires |d| < MaxLen(files) && n <= |subs|
    requires forall x :: x in subs ==> IsSubdirName(files, d, x)
    ensures forall r :: r in SubdirRows(files, d, prefix, subs, noFiles, n) ==> Placed(r, files, d, prefix)
    decreases MaxLen(files) - |d|, 0, n
  {
    if n > 0 {
      var x := subs[n - 1];
      var last := n == |subs| && noFiles;
      var prev := SubdirRows(files, d, prefix, subs, noFiles, n - 1);
      var row := Row(prefix, last, d + [x], true);
      var below := Rows(files, d + [x], ChildIndent(prefix, last));
      assert SubdirRows(files, d, prefix, subs, noFiles, n) == prev + [row] + below;
      SubdirRowsPlaced(files, d, prefix, subs, noFiles, n - 1);
      RowsPlaced(files, d + [x], ChildIndent(prefix, last));
      forall r | r in below ensures Placed(r, files, d, prefix) {
        PlacedInChild(r, files, d, x, prefix, last);
      }
      assert IsSubdirName(files, d, x);
      var f :| f in files && |f| > |d| + 1 && Below(f, d) && f[|d|] == x;
      BelowChild(f, d, x);
      assert (d + [x])[..|d|] == d;
      assert Placed(row, files, d, prefix);
    }
  }

  /** Every row below `d` is placed: see `Placed`. */
  lemma {:induction false} RowsPlaced(files: seq<Path>, d: Path, prefix: string)
    ensures forall r :: r in Rows(files, d, prefix) ==> Placed(r, files, d, prefix)
    decreases MaxLen(files) - |d|, 1, 0
  {
    if MaxLen(files) > |d| {
      var subs := SortedSubdirs(files, d);
      var fs := SortedDirect(files, d);
      SortedSubdirsMembers(files, d);
      SortedDirectMembers(files, d);
      SubdirRowsPlaced(files, d, prefix, subs, fs == [], |subs|);
      var rows := FileRows(prefix, fs, |fs|);
      forall r | r in rows ensures Placed(r, files, d, prefix) {
        var i :| 0 <= i < |rows| && rows[i] == r;
        assert fs[i] in fs;
      }
    }
  }
}
