/**
 * Per-file classification of the project bundler: the language label looked
 * up by lower-cased suffix (`detect_language`) and the binary test
 * (`is_probably_binary`) on the suffix and the first 4096 bytes.
 */
module Classify {
  import opened PyStr

  const PLAIN_TEXT: string := "Plain Text"

  /** Suffixes of code files and their labels. */
  const CODE_HINTS: map<string, string> := map[
    ".py" := "Python", ".pyi" := "Python Stub", ".ipynb" := "Jupyter Notebook",
    ".js" := "JavaScript", ".jsx" := "JavaScript (React)", ".mjs" := "JavaScript Module",
    ".ts" := "TypeScript", ".tsx" := "TypeScript (React)",
    ".c" := "C", ".h" := "C Header", ".cpp" := "C++", ".hpp" := "C++ Header", ".cc" := "C++",
    ".rs" := "Rust", ".go" := "Go", ".java" := "Java", ".kt" := "Kotlin", ".kts" := "Kotlin Script", ".scala" := "Scala",
    ".rb" := "Ruby", ".php" := "PHP", ".swift" := "Swift", ".cs" := "C#",
    ".m" := "Objective-C", ".mm" := "Objective-C++",
    ".sh" := "Shell", ".bash" := "Shell", ".zsh" := "Shell", ".fish" := "Shell", ".ps1" := "PowerShell"
  ]

  /** Web, markup and configuration files (one key is a whole file name). */
  const MARKUP_HINTS: map<string, string> := map[
    ".html" := "HTML", ".htm" := "HTML", ".css" := "CSS", ".scss" := "SCSS",
    ".json" := "JSON", ".jsonc" := "JSON with Comments",
    ".yml" := "YAML", ".yaml" := "YAML", ".toml" := "TOML", ".ini" := "INI",
    ".md" := "Markdown", ".rst" := "reStructuredText", ".sql" := "SQL",
    ".xml" := "XML", ".xsl" := "XSLT", ".xslt" := "XSLT", ".svg" := "SVG",
    ".dockerfile" := "Dockerfile", "Dockerfile" := "Dockerfile", ".env" := "Env"
  ]

  /** Data, document and template files. */
  const DATA_HINTS: map<string, string> := map[
    ".csv" := "CSV", ".tsv" := "TSV", ".txt" := "Text", ".log" := "Log",
    ".tex" := "LaTeX", ".cls" := "LaTeX", ".sty" := "LaTeX",
    ".jinja" := "Jinja", ".jinja2" := "Jinja", ".tmpl" := "Template"
  ]

  /**
   * `TEXT_EXT_HINT.get(key)`: the table is the three groups together, and no
   * key is in two groups.
   */
  function Hint(key: string): (r: Option<string>)
    ensures r.Some? <==> key in CODE_HINTS || key in MARKUP_HINTS || key in DATA_HINTS
  {
    if key in CODE_HINTS then Some(CODE_HINTS[key])
    else if key in MARKUP_HINTS then Some(MARKUP_HINTS[key])
    else if key in DATA_HINTS then Some(DATA_HINTS[key])
    else None
  }

  /** Suffixes whose files are taken as binary without looking at them. */
  const BINARY_EXT_LIKELY: set<string> := {
    ".png", ".jpg", ".jpeg", ".webp", ".gif", ".bmp", ".ico",
    ".pdf", ".zip", ".gz", ".tar", ".tgz", ".bz2", ".xz", ".7z",
    ".so", ".dll", ".dylib", ".exe", ".bin", ".class", ".o", ".a",
    ".ttf", ".otf", ".woff", ".woff2",
    ".mp3", ".wav", ".flac", ".ogg", ".mp4", ".mov", ".mkv", ".avi"
  }

  /** Bytes the binary test reads from the start of a file. */
  const SNIFF_BYTES: nat := 4096

  /** `path.suffix.lower()` for the file named `name`. */
  function LowerSuffix(name: string): (r: string)
    ensures r == [] || (r[0] == '.' && |r| >= 2)
  {
    Lower(PathSuffix(name))
  }

  /** `detect_language` as the code has it: the label of the lower-cased suffix. */
  function DetectLanguageAsWritten(name: string): (r: string)
    ensures Hint(LowerSuffix(name)).Some? ==> r == Hint(LowerSuffix(name)).value
    ensures Hint(LowerSuffix(name)).None? ==> r == PLAIN_TEXT
  {
    match Hint(LowerSuffix(name))
    case Some(lang) => lang
    case None => PLAIN_TEXT
  }

  /** The lookup key is empty or starts with '.', so it is never "Dockerfile". */
  lemma SuffixNeverDockerfile(name: string)
    ensures LowerSuffix(name) != "Dockerfile"
  {
    var ext := LowerSuffix(name);
    if ext != [] { assert ext[0] != "Dockerfile"[0]; }
  }

  /** So the table's "Dockerfile" entry is never used: a file named `Dockerfile` is plain text. */
  lemma DockerfileIsPlainTextAsWritten()
    ensures DetectLanguageAsWritten("Dockerfile") == PLAIN_TEXT
  {
    NoDotNoSuffix("Dockerfile");
    assert Hint([]).None? by {
      assert [] !in CODE_HINTS;
      assert [] !in MARKUP_HINTS;
      assert [] !in DATA_HINTS;
    }
  }

  lemma NoDotNoSuffix(name: string)
    requires '.' !in name
    ensures LowerSuffix(name) == []
  {
  }

  /** The label of a file: the suffix lookup, with `Dockerfile` recognised by its name. */
  function DetectLanguage(name: string): (r: string)
    ensures name == "Dockerfile" ==> r == "Dockerfile"
    ensures name != "Dockerfile" ==> r == DetectLanguageAsWritten(name)
  {
    if name == "Dockerfile" then MARKUP_HINTS[name] else DetectLanguageAsWritten(name)
  }

  lemma {:induction false} LowerUpperLower(s: string)
    requires Lower(s) == s
    ensures Lower(Upper(s)) == s
  {
    assert forall i :: 0 <= i < |s| ==> LowerChar(s[i]) == s[i];
  }

  /**
   * A name `stem + ext`, with a non-empty stem and a table suffix of one dot,
   * gets that suffix's label, whatever the case the suffix is written in.
   */
  lemma LanguageBySuffix(stem: string, ext: string, upper: bool)
    requires stem != []
    requires Hint(ext).Some? && |ext| >= 2 && ext[0] == '.' && '.' !in ext[1..]
    requires Lower(ext) == ext
    ensures DetectLanguage(stem + (if upper then Upper(ext) else ext)) == Hint(ext).value
  {
    var e := if upper then Upper(ext) else ext;
    if upper {
      LowerUpperLower(ext);
      UpperKeepsDots(ext);
    }
    SuffixOf(stem, e);
    DottedNameNotDockerfile(stem + e, |stem|);
  }

  lemma DottedNameNotDockerfile(name: string, i: nat)
    requires i < |name| && name[i] == '.'
    ensures name != "Dockerfile"
  {
    assert '.' in name;
    assert '.' !in "Dockerfile";
  }

  /** Upper-casing changes no character into or out of a '.'. */
  lemma UpperKeepsDots(ext: string)
    requires |ext| >= 2 && ext[0] == '.' && '.' !in ext[1..]
    ensures |Upper(ext)| >= 2 && Upper(ext)[0] == '.' && '.' !in Upper(ext)[1..]
  {
    var u := Upper(ext);
    forall k | 1 <= k < |u| ensures u[k] != '.' {
      assert ext[1..][k - 1] == ext[k];
    }
  }

  /** The suffix of `stem + e` is `e`, when `e` is a dot and a dot-free rest. */
  lemma SuffixOf(stem: string, e: string)
    requires stem != [] && |e| >= 2 && e[0] == '.' && '.' !in e[1..]
    ensures PathSuffix(stem + e) == e
  {
    var name := stem + e;
    assert name[|stem|] == '.';
    forall k | |stem| < k < |name| ensures name[k] != '.' {
      assert name[k] == e[k - |stem|];
      assert e[1..][k - |stem| - 1] == e[k - |stem|];
    }
    assert LastIndexOf(name, '.') == |stem|;
    assert name[|stem|..] == e;
  }

  /** `is_probably_binary`; `data` is the file's bytes, `None` when reading fails. */
  function IsProbablyBinary(name: string, data: Option<bytes>): (r: bool)
    ensures LowerSuffix(name) in BINARY_EXT_LIKELY ==> r
    ensures data.None? ==> r
  {
    if LowerSuffix(name) in BINARY_EXT_LIKELY then true
    else
      match data
      case None => true
      case Some(b) => 0 in SliceTo(b, SNIFF_BYTES)
  }

  /**
   * A file is binary exactly when its suffix is a binary one, it cannot be
   * read, or one of its first 4096 bytes is NUL.
   */
  lemma BinaryIff(name: string, data: Option<bytes>)
    ensures IsProbablyBinary(name, data)
        <==> LowerSuffix(name) in BINARY_EXT_LIKELY || data.None?
             || exists i :: 0 <= i < Min(SNIFF_BYTES, |data.value|) && data.value[i] == 0
  {
    if data.Some? {
      var b := data.value;
      var chunk := SliceTo(b, SNIFF_BYTES);
      assert |chunk| == Min(SNIFF_BYTES, |b|);
      if 0 in chunk {
        var i :| 0 <= i < |chunk| && chunk[i] == 0;
        assert b[i] == 0;
      }
      if exists i :: 0 <= i < Min(SNIFF_BYTES, |b|) && b[i] == 0 {
        var i :| 0 <= i < Min(SNIFF_BYTES, |b|) && b[i] == 0;
        assert chunk[i] == 0;
      }
    }
  }

  /** A NUL byte past the first 4096 does not make a file binary. */
  lemma LateNulIgnored(name: string, head: bytes, tail: bytes)
    requires |head| == SNIFF_BYTES && 0 !in head
    requires LowerSuffix(name) !in BINARY_EXT_LIKELY
    ensures !IsProbablyBinary(name, Some(head + tail))
  {
    assert SliceTo(head + tail, SNIFF_BYTES) == head;
  }
}
