/**
 * Ignore rules of the project bundler (`norm_for_match`, `should_ignore`,
 * `DEFAULT_IGNORE`).  An entry is given by its root-relative path
 * components and whether it is a directory.
 */
module Ignore {
  import opened PyStr
  import opened Glob

  /** The built-in rules; the project's `.gitignore` lines are appended after them. */
  const DEFAULT_IGNORE: seq<string> := [
    ".git/", ".gitignore", ".gitattributes",
    "poetry.lock", "pnpm-lock.yaml", "package-lock.json", "yarn.lock",
    "__pycache__/", "*.pyc", "*.pyo", "*.pyd", "*.egg", "*.egg-info/", "pip-wheel-metadata/",
    "venv/", ".venv/", "env/", ".tox/",
    "bin/", "obj/", "*.csproj.user", "*.sln.dotsettings",
    "node_modules/", ".pnpm-store/",
    ".env", ".env.*",
    "nbproject/", "*.sublime-workspace", ".vscode/", ".idea/",
    "vendor/",
    "build/", "dist/", "target/", "out/",
    "*.log", "*.db", "*.sqlite", "*.sqlite3", "*.db-journal",
    ".DS_Store", "Thumbs.db"
  ]

  /**
   * The rules of one bundling run: the defaults, then the project's own
   * rules, then the output file's name and the tool's own file name.
   */
  function RunRules(gitignore: seq<string>, outputName: string, toolName: string): (r: seq<string>)
    ensures |r| == |DEFAULT_IGNORE| + |gitignore| + 2
    ensures r[..|DEFAULT_IGNORE|] == DEFAULT_IGNORE
    ensures r[|DEFAULT_IGNORE|..|DEFAULT_IGNORE| + |gitignore|] == gitignore
    ensures outputName in r && toolName in r
  {
    DEFAULT_IGNORE + gitignore + [outputName, toolName]
  }

  /** `s.replace("\\", "/")` */
  function Slashes(s: string): (r: string)
    ensures |r| == |s|
    ensures forall i :: 0 <= i < |s| ==> r[i] == (if s[i] == '\\' then '/' else s[i])
  {
    seq(|s|, i requires 0 <= i < |s| => if s[i] == '\\' then '/' else s[i])
  }

  /** `norm_for_match`: the forward-slash root-relative path, a directory's ending in '/'. */
  function NormForMatch(rel: seq<string>, isDir: bool): (r: string)
    ensures isDir ==> EndsWith(r, "/")
    ensures !isDir ==> r == Slashes(Join(rel, "/"))
  {
    var s := Slashes(Join(rel, "/"));
    if isDir && !EndsWith(s, "/") then s + "/" else s
  }

  /** The test one rule applies to an entry with final name `name` and normalised path `rel`. */
  predicate RuleIgnores(rule: string, name: string, rel: string) {
    var pat := Slashes(rule);
    if EndsWith(pat, "/") then Fnmatch(name + "/", pat) || Fnmatch(rel, pat) || StartsWith(rel, pat)
    else Fnmatch(name, pat) || Fnmatch(rel, pat)
  }

  /** The loop of `should_ignore`: the first rule that fires decides. */
  predicate AnyRuleIgnores(rules: seq<string>, name: string, rel: string) {
    if rules == [] then false
    else if RuleIgnores(rules[0], name, rel) then true
    else AnyRuleIgnores(rules[1..], name, rel)
  }

  /** `should_ignore(path, root, patterns)` for the entry at `rel`. */
  predicate ShouldIgnore(rel: seq<string>, isDir: bool, rules: seq<string>)
    requires rel != []
  {
    AnyRuleIgnores(rules, rel[|rel| - 1], NormForMatch(rel, isDir))
  }

  // ---------------------------------------------------------------------------
  // Properties
  // ---------------------------------------------------------------------------

  /** An entry is ignored exactly when some rule ignores it; rule order does not matter. */
  lemma {:induction false} AnyRuleIgnoresIff(rules: seq<string>, name: string, rel: string)
    ensures AnyRuleIgnores(rules, name, rel) <==> exists i :: 0 <= i < |rules| && RuleIgnores(rules[i], name, rel)
  {
    if rules != [] {
      AnyRuleIgnoresIff(rules[1..], name, rel);
      if exists i :: 0 <= i < |rules| && RuleIgnores(rules[i], name, rel) {
        var i :| 0 <= i < |rules| && RuleIgnores(rules[i], name, rel);
        if i > 0 { assert rules[1..][i - 1] == rules[i]; }
      }
      if exists i :: 0 <= i < |rules[1..]| && RuleIgnores(rules[1..][i], name, rel) {
        var i :| 0 <= i < |rules[1..]| && RuleIgnores(rules[1..][i], name, rel);
        assert rules[i + 1] == rules[1..][i];
      }
    }
  }

  /** Adding rules never un-ignores an entry: the defaults are only supplemented. */
  lemma MoreRulesIgnoreMore(rules: seq<string>, extra: seq<string>, name: string, rel: string)
    requires AnyRuleIgnores(rules, name, rel)
    ensures AnyRuleIgnores(rules + extra, name, rel)
  {
    AnyRuleIgnoresIff(rules, name, rel);
    AnyRuleIgnoresIff(rules + extra, name, rel);
    var i :| 0 <= i < |rules| && RuleIgnores(rules[i], name, rel);
    assert (rules + extra)[i] == rules[i];
  }

  lemma SlashesIdentity(s: string)
    requires '\\' !in s
    ensures Slashes(s) == s
  {
  }

  /**
   * A directory rule `d/` with no wildcard fires exactly when the entry is
   * named `d` (whether or not it is a directory) or its path starts with `d/`.
   */
  lemma LiteralDirRule(d: string, name: string, rel: string)
    requires IsLiteral(d) && '\\' !in d
    ensures RuleIgnores(d + "/", name, rel) <==> name == d || StartsWith(rel, d + "/")
  {
    var pat := d + "/";
    SlashesIdentity(pat);
    assert IsLiteral(pat);
    LiteralMatchesItself(name + "/", pat);
    LiteralMatchesItself(rel, pat);
    if name + "/" == pat {
      assert name == (name + "/")[..|name|];
    }
    if rel == pat { assert StartsWith(rel, pat); }
  }

  /** A rule without '/' and without wildcard fires exactly on that name or that whole path. */
  lemma LiteralFileRule(f: string, name: string, rel: string)
    requires IsLiteral(f) && '\\' !in f && !EndsWith(f, "/")
    ensures RuleIgnores(f, name, rel) <==> name == f || rel == f
  {
    SlashesIdentity(f);
    LiteralMatchesItself(name, f);
    LiteralMatchesItself(rel, f);
  }

  /** A literal directory rule `d/` ignores every entry named `d`, wherever it lies. */
  lemma NamedDirRuleFires(rel: seq<string>, isDir: bool, d: string)
    requires rel != [] && rel[|rel| - 1] == d && IsLiteral(d) && '\\' !in d
    ensures ShouldIgnore(rel, isDir, [d + "/"])
  {
    LiteralDirRule(d, d, NormForMatch(rel, isDir));
  }

  /** `build/` prunes the directory `build/`. */
  lemma BuildDirIgnored()
    ensures ShouldIgnore(["build"], true, ["build/"])
  {
    assert IsLiteral("build") && "build" + "/" == "build/";
    NamedDirRuleFires(["build"], true, "build");
  }

  /** `build/` prunes a nested directory `a/build/` too. */
  lemma NestedBuildDirIgnored()
    ensures ShouldIgnore(["a", "build"], true, ["build/"])
  {
    assert IsLiteral("build") && "build" + "/" == "build/";
    NamedDirRuleFires(["a", "build"], true, "build");
  }

  /** `build/` does not prune `buildup/`. */
  lemma BuildupNotIgnored()
    ensures !ShouldIgnore(["buildup"], true, ["build/"])
  {
    var rules := ["build/"];
    assert IsLiteral("build");
    assert Join(["buildup"], "/") == "buildup";
    assert Slashes("buildup") == "buildup";
    assert ["buildup"][0] == "buildup";
    LiteralDirRule("build", "buildup", NormForMatch(["buildup"], true));
    assert "build" + "/" == "build/";
    assert NormForMatch(["buildup"], true) == "buildup/";
    assert !StartsWith("buildup/", "build/") by {
      assert "buildup/"[..6] != "build/" by { assert "buildup/"[5] != "build/"[5]; }
    }
    assert rules[1..] == [];
  }

  /**
   * The rule's own test does not fire on `a/build/y.txt`: such files are kept
   * out only because the directory `a/build/` is pruned first.
   */
  lemma NestedFileNotMatchedByRule()
    ensures !ShouldIgnore(["a", "build", "y.txt"], false, ["build/"])
  {
    assert IsLiteral("build");
    var j1 := Join(["a", "build", "y.txt"], "/");
    assert j1 == "a/build/y.txt" by {
      assert Join(["y.txt"], "/") == "y.txt";
      assert ["a", "build", "y.txt"][1..] == ["build", "y.txt"];
      assert ["build", "y.txt"][1..] == ["y.txt"];
    }
    assert '\\' !in j1;
    SlashesIdentity(j1);
    LiteralDirRule("build", "y.txt", j1);
    assert "build" + "/" == "build/";
    assert !StartsWith(j1, "build/") by { assert j1[0] != 'b'; }
    assert ["build/"][1..] == [];
  }

  /** A file directly inside `build/` is ignored by the rule's own test. */
  lemma FileInBuildIgnored()
    ensures ShouldIgnore(["build", "x.txt"], false, ["build/"])
  {
    assert IsLiteral("build");
    var j2 := Join(["build", "x.txt"], "/");
    assert j2 == "build/x.txt" by {
      assert ["build", "x.txt"][1..] == ["x.txt"];
    }
    assert '\\' !in j2;
    SlashesIdentity(j2);
    LiteralDirRule("build", "x.txt", j2);
    assert "build" + "/" == "build/";
    assert StartsWith(j2, "build/") by { assert j2[..6] == "build/"; }
  }

  /** A directory rule also fires on a regular file of the same name. */
  lemma DirRuleMatchesFileOfSameName()
    ensures ShouldIgnore(["build"], false, ["build/"])
  {
    assert IsLiteral("build");
    assert ["build"][0] == "build";
    LiteralDirRule("build", "build", NormForMatch(["build"], false));
    assert "build" + "/" == "build/";
  }

  /** A `*.ext` rule fires on every name ending in `.ext`, at any depth. */
  lemma SuffixRule(lit: string, name: string, rel: string)
    requires IsLiteral(lit) && '\\' !in lit && !EndsWith(lit, "/")
    requires EndsWith(name, lit)
    ensures RuleIgnores("*" + lit, name, rel)
  {
    SlashesIdentity("*" + lit);
    var q := "*" + lit;
    if lit != [] {
      assert q[|q| - 1..] == lit[|lit| - 1..];
    }
    StarSuffix(name, lit);
  }

  /** A file whose name ends in `lit` is ignored by any rule list holding `*lit`. */
  lemma SuffixRuleFires(rel: seq<string>, rules: seq<string>, i: nat, lit: string)
    requires rel != [] && i < |rules| && rules[i] == "*" + lit
    requires IsLiteral(lit) && '\\' !in lit && !EndsWith(lit, "/")
    requires EndsWith(rel[|rel| - 1], lit)
    ensures ShouldIgnore(rel, false, rules)
  {
    var name := rel[|rel| - 1];
    var r := NormForMatch(rel, false);
    SuffixRule(lit, name, r);
    AnyRuleIgnoresIff(rules, name, r);
  }

  /** The defaults ignore compiled Python files and log files wherever they are. */
  lemma DefaultsIgnorePycAndLog(rel: seq<string>)
    requires rel != []
    requires EndsWith(rel[|rel| - 1], ".pyc") || EndsWith(rel[|rel| - 1], ".log")
    ensures ShouldIgnore(rel, false, DEFAULT_IGNORE)
  {
    assert IsLiteral(".pyc") && IsLiteral(".log");
    assert !EndsWith(".pyc", "/") && !EndsWith(".log", "/");
    assert DEFAULT_IGNORE[8] == "*" + ".pyc";
    assert DEFAULT_IGNORE[35] == "*" + ".log";
    if EndsWith(rel[|rel| - 1], ".pyc") {
      SuffixRuleFires(rel, DEFAULT_IGNORE, 8, ".pyc");
    } else {
      SuffixRuleFires(rel, DEFAULT_IGNORE, 35, ".log");
    }
  }
}
