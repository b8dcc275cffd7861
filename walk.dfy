/**
 * The project walk (`iter_files`): a top-down walk of the directory tree
 * that prunes ignored directories before descending into them, and yields
 * the files of each directory, sorted by name, that are not ignored
 * themselves.  The file system is an in-memory tree; paths are
 * root-relative component sequences.
 */
module Walk {
  import opened PyStr
  import opened Order
  import opened Ignore

  /** The ignore decision for the entry at a path (directory or not). */
  type Ignorer = (seq<string>, bool) -> bool

  /** `should_ignore` with the rules of one run. */
  function ByRules(rules: seq<string>): Ignorer {
    (p: seq<string>, isDir: bool) => p != [] && ShouldIgnore(p, isDir, rules)
  }

  /**
   * A directory entry.  A file carries its size and its bytes (`None` when
   * reading it fails).
   */
  datatype Node =
    | File(name: string, size: nat, data: Option<bytes>)
    | Dir(name: string, children: seq<Node>)

  function NameOf(n: Node): string { n.name }

  /** The `files` list of one `os.walk` step. */
  function FilesOf(cs: seq<Node>): (r: seq<Node>)
    ensures forall x :: x in r <==> x in cs && x.File?
  {
    if cs == [] then []
    else (if cs[0].File? then [cs[0]] else []) + FilesOf(cs[1..])
  }

  /** The `dirs` list of one `os.walk` step. */
  function SubdirsOf(cs: seq<Node>): (r: seq<Node>)
    ensures forall x :: x in r <==> x in cs && x.Dir?
  {
    if cs == [] then []
    else (if cs[0].Dir? then [cs[0]] else []) + SubdirsOf(cs[1..])
  }

  /** The directories the `dirs[:]` filter keeps. */
  function KeepDirs(ds: seq<Node>, path: seq<string>, ig: Ignorer): (r: seq<Node>)
    ensures forall x :: x in r <==> x in ds && !ig(path + [x.name], true)
  {
    if ds == [] then []
    else (if ig(path + [ds[0].name], true) then [] else [ds[0]]) + KeepDirs(ds[1..], path, ig)
  }

  /** `dirs[:] = sorted(kept)`: the subdirectories the walk descends into, in order. */
  function DirsToVisit(node: Node, path: seq<string>, ig: Ignorer): (r: seq<Node>)
    requires node.Dir?
    ensures forall d :: d in r <==> d in node.children && d.Dir? && !ig(path + [d.name], true)
  {
    var r := SortBy(KeepDirs(SubdirsOf(node.children), path, ig), NameOf, StrOrder());
    assert forall d :: d in r <==> d in multiset(r);
    r
  }

  /** The paths of the files among `fs` that are not ignored, in order. */
  function KeptFilePaths(fs: seq<Node>, path: seq<string>, ig: Ignorer): seq<seq<string>>
  {
    if fs == [] then []
    else
      var f := fs[|fs| - 1];
      KeptFilePaths(fs[..|fs| - 1], path, ig)
        + (if ig(path + [f.name], false) then [] else [path + [f.name]])
  }

  /** `sorted(files)`, the order in which one directory's files are considered. */
  function SortedFiles(node: Node): (r: seq<Node>)
    requires node.Dir?
    ensures forall f :: f in r <==> f in node.children && f.File?
  {
    var r := SortBy(FilesOf(node.children), NameOf, StrOrder());
    assert forall d :: d in r <==> d in multiset(r);
    r
  }

  /** Everything the walk yields for the directory `node` found at `path`. */
  function WalkSpec(node: Node, path: seq<string>, ig: Ignorer): seq<seq<string>>
    requires node.Dir?
    decreases node, 1, 0
  {
    KeptFilePaths(SortedFiles(node), path, ig) + WalkDirs(node, DirsToVisit(node, path, ig), path, ig)
  }

  /** The walks of the subdirectories `ds` of `parent`, one after the other. */
  function WalkDirs(parent: Node, ds: seq<Node>, path: seq<string>, ig: Ignorer): seq<seq<string>>
    requires parent.Dir?
    requires forall d :: d in ds ==> d in parent.children && d.Dir?
    decreases parent, 0, |ds|
  {
    if ds == [] then []
    else
      var d := ds[|ds| - 1];
      WalkDirs(parent, ds[..|ds| - 1], path, ig) + WalkSpec(d, path + [d.name], ig)
  }

  /** The `for fname in sorted(files)` loop of one directory. */
  method YieldFiles(files: seq<Node>, path: seq<string>, ig: Ignorer) returns (out: seq<seq<string>>)
    ensures out == KeptFilePaths(files, path, ig)
  {
    out := [];
    var i := 0;
    while i < |files|
      invariant 0 <= i <= |files|
      invariant out == KeptFilePaths(files[..i], path, ig)
    {
      assert files[..i + 1][..i] == files[..i];
      var p := path + [files[i].name];
      if !ig(p, false) {
        out := out + [p];
      }
      i := i + 1;
    }
    assert files[..i] == files;
  }

  /**
   * `iter_files` from the directory `node` at `path`: the files of the
   * directory first, then the walk of each kept subdirectory in name order.
   */
  method IterFiles(node: Node, path: seq<string>, ig: Ignorer) returns (out: seq<seq<string>>)
    requires node.Dir?
    ensures out == WalkSpec(node, path, ig)
    decreases node, 1
  {
    var own := YieldFiles(SortedFiles(node), path, ig);
    var sub := WalkSubdirs(node, DirsToVisit(node, path, ig), path, ig);
    out := own + sub;
  }

  /** The `dirs[:]` loop of the walk: each kept subdirectory walked in turn. */
  method WalkSubdirs(node: Node, dirs: seq<Node>, path: seq<string>, ig: Ignorer) returns (out: seq<seq<string>>)
    requires node.Dir?
    requires forall d :: d in dirs ==> d in node.children && d.Dir?
    ensures out == WalkDirs(node, dirs, path, ig)
    decreases node, 0
  {
    out := [];
    var j := 0;
    while j < |dirs|
      invariant 0 <= j <= |dirs|
      invariant out == WalkDirs(node, dirs[..j], path, ig)
    {
      var d := dirs[j];
      assert d in node.children;
      var sub := IterFiles(d, path + [d.name], ig);
      WalkDirsSnoc(node, dirs, j, path, ig);
      out := out + sub;
      j := j + 1;
    }
    assert dirs[..j] == dirs;
  }

  /** One more subdirectory walked after the earlier ones. */
  lemma WalkDirsSnoc(node: Node, dirs: seq<Node>, j: nat, path: seq<string>, ig: Ignorer)
    requires node.Dir? && j < |dirs|
    requires forall d :: d in dirs ==> d in node.children && d.Dir?
    ensures WalkDirs(node, dirs[..j + 1], path, ig)
         == WalkDirs(node, dirs[..j], path, ig) + WalkSpec(dirs[j], path + [dirs[j].name], ig)
  {
    assert dirs[..j + 1][..j] == dirs[..j];
  }

  // ---------------------------------------------------------------------------
  // Properties
  // ---------------------------------------------------------------------------

  /** The directory `node` holds a file at the relative path `r`. */
  ghost predicate HasFile(node: Node, r: seq<string>)
    decreases node
  {
    node.Dir? && r != [] &&
    exists c :: c in node.children && c.name == r[0] &&
      (if |r| == 1 then c.File? else c.Dir? && HasFile(c, r[1..]))
  }

  /** No directory strictly between `path` and the file `p` is ignored. */
  ghost predicate AncestorsKept(p: seq<string>, from: nat, ig: Ignorer) {
    forall k :: from < k < |p| ==> !ig(p[..k], true)
  }

  lemma {:induction false} KeptFilePathsMember(fs: seq<Node>, path: seq<string>, ig: Ignorer, p: seq<string>)
    ensures p in KeptFilePaths(fs, path, ig)
        <==> exists f :: f in fs && p == path + [f.name] && !ig(p, false)
  {
    if fs != [] {
      var f := fs[|fs| - 1];
      var init := fs[..|fs| - 1];
      KeptFilePathsMember(init, path, ig, p);
      assert fs == init + [f];
      if exists g :: g in fs && p == path + [g.name] && !ig(p, false) {
        var g :| g in fs && p == path + [g.name] && !ig(p, false);
        if g !in init { assert g == f; }
      }
    }
  }

  lemma {:induction false} WalkDirsMember(parent: Node, ds: seq<Node>, path: seq<string>, ig: Ignorer, p: seq<string>)
    requires parent.Dir?
    requires forall d :: d in ds ==> d in parent.children && d.Dir?
    ensures p in WalkDirs(parent, ds, path, ig)
        <==> exists d :: d in ds && p in WalkSpec(d, path + [d.name], ig)
  {
    if ds != [] {
      var d := ds[|ds| - 1];
      var init := ds[..|ds| - 1];
      assert ds == init + [d];
      WalkDirsMember(parent, init, path, ig, p);
      if exists e :: e in ds && p in WalkSpec(e, path + [e.name], ig) {
        var e :| e in ds && p in WalkSpec(e, path + [e.name], ig);
        if e !in init { assert e == d; }
      }
    }
  }

  /** A path yielded by the subdirectory walks goes through a kept subdirectory. */
  lemma SubdirSound(node: Node, path: seq<string>, ig: Ignorer, d: Node, p: seq<string>)
    requires node.Dir? && d in node.children && d.Dir?
    requires !ig(path + [d.name], true)
    requires |p| > |path| + 1 && p[..|path| + 1] == path + [d.name]
    requires HasFile(d, p[|path| + 1..])
    requires AncestorsKept(p, |path| + 1, ig)
    ensures p[..|path|] == path
    ensures HasFile(node, p[|path|..])
    ensures AncestorsKept(p, |path|, ig)
  {
    var q := path + [d.name];
    assert p[..|path|] == q[..|path|];
    var r := p[|path|..];
    assert r[0] == d.name;
    assert r[1..] == p[|q|..];
    assert HasFile(node, r);
    forall k | |path| < k < |p|
      ensures !ig(p[..k], true)
    {
      if k == |q| {
        assert p[..k] == q;
      }
    }
  }

  /** A path yielded from the directory's own files names one of them. */
  lemma FileSound(node: Node, path: seq<string>, ig: Ignorer, p: seq<string>)
    requires node.Dir?
    requires p in KeptFilePaths(SortedFiles(node), path, ig)
    ensures |p| > |path| && p[..|path|] == path
    ensures HasFile(node, p[|path|..])
    ensures !ig(p, false)
    ensures AncestorsKept(p, |path|, ig)
  {
    KeptFilePathsMember(SortedFiles(node), path, ig, p);
    var f :| f in SortedFiles(node) && p == path + [f.name] && !ig(p, false);
    assert p[|path|..] == [f.name];
    assert p[..|path|] == path;
    assert f in node.children && f.File?;
  }

  /**
   * Soundness of the walk: every yielded path names a file of the tree,
   * the file is not ignored, and no directory above it (below `path`) was
   * ignored — nothing under a pruned directory is ever yielded.
   */
  lemma {:induction false} WalkSound(node: Node, path: seq<string>, ig: Ignorer, p: seq<string>)
    requires node.Dir?
    requires p in WalkSpec(node, path, ig)
    ensures |p| > |path| && p[..|path|] == path
    ensures HasFile(node, p[|path|..])
    ensures !ig(p, false)
    ensures AncestorsKept(p, |path|, ig)
    decreases node
  {
    var files := SortedFiles(node);
    var dirs := DirsToVisit(node, path, ig);
    if p in KeptFilePaths(files, path, ig) {
      FileSound(node, path, ig, p);
    } else {
      WalkDirsMember(node, dirs, path, ig, p);
      var d :| d in dirs && p in WalkSpec(d, path + [d.name], ig);
      WalkSound(d, path + [d.name], ig, p);
      SubdirSound(node, path, ig, d, p);
    }
  }

  /**
   * Completeness of the walk: a file of the tree that is not ignored and
   * lies under no ignored directory is yielded.
   */
  lemma {:induction false} WalkComplete(node: Node, path: seq<string>, r: seq<string>, ig: Ignorer)
    requires HasFile(node, r)
    requires !ig(path + r, false)
    requires AncestorsKept(path + r, |path|, ig)
    ensures path + r in WalkSpec(node, path, ig)
    decreases node
  {
    var p := path + r;
    var c :| c in node.children && c.name == r[0] &&
      (if |r| == 1 then c.File? else c.Dir? && HasFile(c, r[1..]));
    if |r| == 1 {
      assert p == path + [c.name];
      KeptFilePathsMember(SortedFiles(node), path, ig, p);
    } else {
      var q := path + [c.name];
      assert p[..|q|] == q;
      assert q + r[1..] == p;
      forall k | |q| < k < |q + r[1..]|
        ensures !ig((q + r[1..])[..k], true)
      {
      }
      WalkComplete(c, q, r[1..], ig);
      var dirs := DirsToVisit(node, path, ig);
      assert c in dirs;
      WalkDirsMember(node, dirs, path, ig, p);
    }
  }

  /**
   * `iter_files(root, patterns)`: the files of the tree under the rules, as
   * root-relative paths.
   */
  method IterFilesFromRoot(root: Node, rules: seq<string>) returns (out: seq<seq<string>>)
    requires root.Dir?
    ensures out == WalkSpec(root, [], ByRules(rules))
  {
    out := IterFiles(root, [], ByRules(rules));
  }

  /**
   * A path is yielded exactly when it names a file of the tree that is not
   * ignored and none of whose directories is ignored.
   */
  lemma WalkExactly(root: Node, ig: Ignorer, p: seq<string>)
    requires root.Dir?
    ensures p in WalkSpec(root, [], ig)
        <==> HasFile(root, p) && !ig(p, false) && forall k :: 0 < k < |p| ==> !ig(p[..k], true)
  {
    if p in WalkSpec(root, [], ig) {
      WalkSound(root, [], ig, p);
      assert p[0..] == p;
    }
    if HasFile(root, p) && !ig(p, false) && forall k :: 0 < k < |p| ==> !ig(p[..k], true) {
      assert [] + p == p;
      WalkComplete(root, [], p, ig);
    }
  }

  /** The same under the rule list of the bundler. */
  lemma IterFilesExactly(root: Node, rules: seq<string>, p: seq<string>)
    requires root.Dir?
    ensures p in WalkSpec(root, [], ByRules(rules))
        <==> HasFile(root, p) && !ShouldIgnore(p, false, rules)
             && forall k :: 0 < k < |p| ==> !ShouldIgnore(p[..k], true, rules)
  {
    WalkExactly(root, ByRules(rules), p);
    assert forall k :: 0 < k < |p| ==> p[..k] != [];
    if HasFile(root, p) {
      assert p != [];
    }
  }

  /**
   * With a wildcard-free directory rule `d/` in force, no yielded path passes
   * through a directory named `d`, at any depth.
   */
  lemma LiteralDirRulePrunes(root: Node, rules: seq<string>, d: string, p: seq<string>)
    requires root.Dir?
    requires d + "/" in rules && IsLiteralDir(d)
    requires p in WalkSpec(root, [], ByRules(rules))
    ensures forall k :: 0 <= k < |p| - 1 ==> p[k] != d
  {
    IterFilesExactly(root, rules, p);
    forall k | 0 <= k < |p| - 1
      ensures p[k] != d
    {
      var a := p[..k + 1];
      assert !ShouldIgnore(a, true, rules);
      assert a[|a| - 1] == p[k];
      if p[k] == d {
        var i :| 0 <= i < |rules| && rules[i] == d + "/";
        LiteralDirRule(d, d, NormForMatch(a, true));
        AnyRuleIgnoresIff(rules, d, NormForMatch(a, true));
        assert false;
      }
    }
  }

  /** A directory name usable as a wildcard-free rule. */
  predicate IsLiteralDir(d: string) {
    Glob.IsLiteral(d) && '\\' !in d
  }
}
