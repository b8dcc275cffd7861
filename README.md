# Code & Knowledge Prep, modelled in Dafny

This project models the decision logic of `Code_Knowledge_Prep.py`. That file is a desktop tool with two halves.

**The project bundler** walks a source tree and writes one text bundle. The walk skips ignored files and directories (`DEFAULT_IGNORE`, `.gitignore` lines, the output file and the tool itself). The bundle holds:

- a project map drawn as a tree;
- a file index with stable IDs (`F0001`, …);
- one delimited section per file, within a per-file and a total byte budget.

**The document processor** keeps a queue of document paths. It extracts and normalises the text of each document, with code blocks kept verbatim. Each document gets a content hash and a short base-36 `DocID`. The documents are written in batches into knowledge files that start with a table of contents. A reference sheet indexes the `DocID`s found in such files.

The modules follow the program's structure:

| module | what it models |
|---|---|
| `PyStr` | Python string and slice primitives: slicing with negative bounds, `find`, `strip`, `basename`, `splitext`, `zfill`, decimal formatting |
| `Order` | string ordering, and the stable sort with key that `sorted`/`list.sort` perform |
| `Glob` | `fnmatch` on POSIX: `*`, `?`, `[...]`, `[!...]`, unclosed `[` |
| `Ignore` | `norm_for_match` and `should_ignore`, plus the bundler's rule list |
| `Walk` | `iter_files`, as a top-down walk of an in-memory directory tree |
| `Classify` | `detect_language` and `is_probably_binary` |
| `TreeMap` | `make_tree_map` and its `render` |
| `Bundle` | the bundler worker: sort modes, file IDs, the metadata pass, the section writer and its byte budget |
| `Normalize` | `sanitize_text`, `_normalize_prose`, `normalize_text_code_safe` and `_normalize_title_from_path` |
| `DocId` | `_stable_sample`, `_int_to_base_n`, `generate_short_id`, `stable_hash`, and the DocID prefix clean-up |
| `Extract` | the extractor table, the four extractors' error paths, and `process_single_file` |
| `Knowledge` | the document worker: basename sort, chunking, collection in completion order, the `_order` sort, soft wrap, knowledge-file text |
| `Reference` | the TOC-line regular expression, the reference scan with `setdefault`, and the reference sheet |
| `DocQueue` | the document queue as a class: add, import, duplicate check, clear |

Functions that live outside this file become function-typed parameters. These are NFKC normalisation, SHA-1 and SHA-256, `str.title`, `isalnum`, UTF-8 decoding, HTML-to-text, the PDF/EPUB/MOBI readers and `os.path.exists`. Thread completion order is a parameter too. Every property below therefore holds for every behaviour of those functions, unless its row says otherwise.

## Model

| member | source | states |
|---|---|---|
| PyStr.SliceIndex | Code_Knowledge_Prep.py:866 | a Python slice bound is clamped into `[0, len]` and counts from the end when negative |
| PyStr.SliceTo | Code_Knowledge_Prep.py:866 | `s[:n]` is a prefix of `s`, of length `min(n, len)` for `n >= 0` and `max(0, len + n)` for negative `n` |
| PyStr.SliceFrom | Code_Knowledge_Prep.py:344 | `s[-k:]` / `s[n:]` is a suffix of `s` of the length Python gives for either sign |
| PyStr.Slice | Code_Knowledge_Prep.py:343 | `s[a:b]` is at most as long as `s` and is the ordinary slice when the bounds are in range |
| PyStr.FindFrom | Code_Knowledge_Prep.py:306 | the found position is the leftmost occurrence at or after `from`; `None` means there is none |
| PyStr.LastIndexOf | Code_Knowledge_Prep.py:334 | the result is the last position holding the character, or -1 when there is none |
| PyStr.CountAppend | Code_Knowledge_Prep.py:873 | `str.count` of a character is additive over concatenation |
| PyStr.LStrip | Code_Knowledge_Prep.py:302 | removes exactly the leading whitespace, and the result does not start with whitespace |
| PyStr.RStrip | Code_Knowledge_Prep.py:302 | removes exactly the trailing whitespace, and the result does not end with whitespace |
| PyStr.Strip | Code_Knowledge_Prep.py:302 | the result is a substring with no whitespace at either end; it is empty exactly when the input is all whitespace |
| PyStr.Lower | Code_Knowledge_Prep.py:157 | lower-casing maps each character and keeps the length |
| PyStr.Upper | Code_Knowledge_Prep.py:1089 | upper-casing maps each character and keeps the length |
| PyStr.Basename | Code_Knowledge_Prep.py:334 | `os.path.basename` is a slash-free suffix of the path |
| PyStr.SplitExtExt | Code_Knowledge_Prep.py:437 | the extension of `os.path.splitext` is empty or starts with '.' and is a suffix of the path |
| PyStr.SplitExtRoot | Code_Knowledge_Prep.py:334 | root and extension of `os.path.splitext` concatenate back to the path |
| PyStr.PathSuffix | Code_Knowledge_Prep.py:157 | `Path.suffix` is empty or a '.' followed by at least one character, and is a suffix of the name |
| PyStr.NatToDecimal | Code_Knowledge_Prep.py:848 | decimal formatting yields digits only, with no leading zero for a positive number |
| PyStr.IntToDecimal | Code_Knowledge_Prep.py:868 | formatting an `int` gives a leading '-' exactly for negative numbers |
| PyStr.DecimalRoundTrip | Code_Knowledge_Prep.py:848 | reading back a formatted number gives the number |
| PyStr.LeadingZerosValue | Code_Knowledge_Prep.py:848 | zero-padding does not change a decimal value |
| PyStr.DecimalLength | Code_Knowledge_Prep.py:846 | the decimal length of `n` is at most `k + 1` exactly when `n < 10^(k+1)` |
| PyStr.DecimalLengthMonotone | Code_Knowledge_Prep.py:846 | a larger number never has a shorter decimal form |
| PyStr.LeftPad | Code_Knowledge_Prep.py:367 | `zfill` gives length `max(len, width)`, keeps the text as suffix and pads with the fill character only |
| PyStr.ConcatAppend | Code_Knowledge_Prep.py:323 | `''.join` is additive over concatenation of the piece lists |
| Order.StrLtTransitive | Code_Knowledge_Prep.py:840 | Python's string `<` is transitive |
| Order.StrLtTotal | Code_Knowledge_Prep.py:840 | any two distinct strings are ordered one way or the other |
| Order.StrLtAsymmetric | Code_Knowledge_Prep.py:840 | string `<` never holds both ways |
| Order.StrLeAntisymmetric | Code_Knowledge_Prep.py:840 | `a <= b` and `b <= a` only for equal strings |
| Order.StrOrderTotal | Code_Knowledge_Prep.py:840 | the string order used by the path sort is a total preorder |
| Order.IntStrOrderTotal | Code_Knowledge_Prep.py:836 | the `(size, str(p))` tuple order of the size sort is a total preorder |
| Order.StrStrOrderTotal | Code_Knowledge_Prep.py:838 | the `(suffix, str(p))` tuple order of the extension sort is a total preorder |
| Order.IntOrderTotal | Code_Knowledge_Prep.py:1140 | the `_order` integer order is a total preorder |
| Order.SortBy | Code_Knowledge_Prep.py:834-840 | a sort with key returns a permutation of its input |
| Order.InsertBySorted | Code_Knowledge_Prep.py:834-840 | inserting into a sorted list keeps it sorted by the key |
| Order.SortBySorted | Code_Knowledge_Prep.py:834-840 | the result of the sort is sorted by the key |
| Order.SortByStable | Code_Knowledge_Prep.py:834-840 | the sort is stable: elements with equal keys keep their input order |
| Order.SortedUnique | Code_Knowledge_Prep.py:834-840 | two sorted permutations of a list with distinct keys are equal, so the sorted result does not depend on input order |
| Glob.TranslateLiteral | Code_Knowledge_Prep.py:148-153 | a pattern without `*?[` translates to literal characters only |
| Glob.MatchLits | Code_Knowledge_Prep.py:148-153 | a literal pattern matches exactly the string it spells |
| Glob.LiteralMatchesItself | Code_Knowledge_Prep.py:148-153 | `fnmatch(s, p)` for a literal `p` holds exactly when `s == p` |
| Glob.StarLitsMatch | Code_Knowledge_Prep.py:148-153 | `*` followed by literals matches exactly the strings ending in those literals |
| Glob.StarSuffix | Code_Knowledge_Prep.py:148-153 | `fnmatch(s, "*" + lit)` holds exactly when `s` ends with `lit` |
| Glob.StarMatchesAll | Code_Knowledge_Prep.py:148-153 | `*` matches every string |
| Glob.DigitClassExample | Code_Knowledge_Prep.py:148-153 | `[0-9].txt` matches `7.txt` |
| Glob.NegatedClassExample | Code_Knowledge_Prep.py:148-153 | `[!0-9].txt` matches `b.txt` |
| Glob.DigitClassRejectsLetter | Code_Knowledge_Prep.py:148-153 | `[0-9].txt` does not match `b.txt` |
| Glob.UnclosedBracketExample | Code_Knowledge_Prep.py:148-153 | an unclosed `[` is an ordinary character, so `a[b` matches itself |
| Ignore.RunRules | Code_Knowledge_Prep.py:823-828 | the bundler's rules are `DEFAULT_IGNORE`, then the `.gitignore` lines, then the output file name and the tool's own name |
| Ignore.Slashes | Code_Knowledge_Prep.py:138 | backslashes become slashes and nothing else changes |
| Ignore.NormForMatch | Code_Knowledge_Prep.py:131-140 | a directory's match path ends with '/'; a file's is its slash-joined relative path |
| Ignore.AnyRuleIgnoresIff | Code_Knowledge_Prep.py:146-154 | the rule loop ignores a path exactly when some single rule ignores it |
| Ignore.MoreRulesIgnoreMore | Code_Knowledge_Prep.py:146-154 | adding rules never un-ignores a path |
| Ignore.LiteralDirRule | Code_Knowledge_Prep.py:148-150 | a literal `d/` rule fires exactly when the name is `d` or the relative path starts with `d/` |
| Ignore.LiteralFileRule | Code_Knowledge_Prep.py:151-153 | a literal file rule fires exactly when the name or the relative path equals it |
| Ignore.NamedDirRuleFires | Code_Knowledge_Prep.py:148-150 | a `d/` rule ignores every entry named `d`, at any depth |
| Ignore.BuildDirIgnored | Code_Knowledge_Prep.py:148-150 | `build/` ignores the top-level `build` directory |
| Ignore.NestedBuildDirIgnored | Code_Knowledge_Prep.py:148-150 | `build/` ignores `a/build` as well |
| Ignore.BuildupNotIgnored | Code_Knowledge_Prep.py:148-150 | `build/` does not ignore a directory named `buildup` |
| Ignore.NestedFileNotMatchedByRule | Code_Knowledge_Prep.py:148-150 | `build/` does not itself match the file `a/build/y.txt`; the walk excludes it by pruning |
| Ignore.FileInBuildIgnored | Code_Knowledge_Prep.py:148-150 | `build/` matches the file `build/x.txt` by the `startswith` test |
| Ignore.DirRuleMatchesFileOfSameName | Code_Knowledge_Prep.py:148-150 | `build/` also ignores a plain file named `build`, since `name + "/"` is matched against the rule |
| Ignore.SuffixRule | Code_Knowledge_Prep.py:151-153 | a `*.ext` rule fires for every name ending in `.ext` |
| Ignore.SuffixRuleFires | Code_Knowledge_Prep.py:151-153 | a file whose name ends in `.ext` is ignored by any rule list holding `*.ext` |
| Ignore.DefaultsIgnorePycAndLog | Code_Knowledge_Prep.py:57-82 | the default rules ignore every `.pyc` and `.log` file |
| Walk.FilesOf | Code_Knowledge_Prep.py:173 | a walk step's `files` are exactly the file children |
| Walk.SubdirsOf | Code_Knowledge_Prep.py:173 | a walk step's `dirs` are exactly the directory children |
| Walk.KeepDirs | Code_Knowledge_Prep.py:175 | the `dirs[:]` filter keeps exactly the subdirectories that are not ignored |
| Walk.DirsToVisit | Code_Knowledge_Prep.py:175 | the walk descends exactly into the non-ignored subdirectories |
| Walk.SortedFiles | Code_Knowledge_Prep.py:176 | `sorted(files)` holds exactly the file children |
| Walk.YieldFiles | Code_Knowledge_Prep.py:176-180 | the file loop yields the non-ignored files of one directory, in sorted order |
| Walk.IterFiles | Code_Knowledge_Prep.py:172-180 | the walk yields its directory's files, then walks each kept subdirectory in sorted order |
| Walk.WalkSubdirs | Code_Knowledge_Prep.py:172-180 | walking a list of subdirectories yields their walks one after the other |
| Walk.KeptFilePathsMember | Code_Knowledge_Prep.py:176-180 | a path is yielded for a directory exactly when it names one of its files and is not ignored |
| Walk.WalkSound | Code_Knowledge_Prep.py:172-180 | every yielded path is a file of the tree, is not ignored, and has no ignored ancestor directory |
| Walk.WalkComplete | Code_Knowledge_Prep.py:172-180 | every file that is not ignored and has no ignored ancestor is yielded |
| Walk.WalkExactly | Code_Knowledge_Prep.py:172-180 | the walk yields exactly the files that are not ignored and have no ignored ancestor directory |
| Walk.IterFilesFromRoot | Code_Knowledge_Prep.py:830 | the bundler's walk from the project root with its rule list |
| Walk.IterFilesExactly | Code_Knowledge_Prep.py:830 | with `should_ignore` as the test, the yielded files are exactly those that pass it and whose ancestors pass it |
| Walk.LiteralDirRulePrunes | Code_Knowledge_Prep.py:175 | with a literal `d/` rule, no yielded path passes through a directory named `d` |
| Classify.Hint | Code_Knowledge_Prep.py:84-107 | a key has a language hint exactly when it is one of the table's keys |
| Classify.LowerSuffix | Code_Knowledge_Prep.py:157 | the lower-cased suffix is empty or a '.' with at least one more character |
| Classify.DetectLanguageAsWritten | Code_Knowledge_Prep.py:156-157 | the language is the hint of the lower-cased suffix, or "Plain Text" |
| Classify.SuffixNeverDockerfile | Code_Knowledge_Prep.py:104 | a suffix never equals the key "Dockerfile" |
| Classify.DockerfileIsPlainTextAsWritten | Code_Knowledge_Prep.py:104 | as written, a file named `Dockerfile` is classified "Plain Text" |
| Classify.DetectLanguage | Code_Knowledge_Prep.py:104 | the corrected detector names `Dockerfile` "Dockerfile" and otherwise agrees with the source |
| Classify.LanguageBySuffix | Code_Knowledge_Prep.py:156-157 | a file `stem.ext` gets the hint of `.ext`, in either letter case |
| Classify.IsProbablyBinary | Code_Knowledge_Prep.py:159-170 | a binary-listed suffix or an unreadable file is binary |
| Classify.BinaryIff | Code_Knowledge_Prep.py:159-170 | binary exactly when the suffix is listed, the read fails, or a NUL byte lies in the first 4096 bytes |
| Classify.LateNulIgnored | Code_Knowledge_Prep.py:163-166 | a NUL byte after the first 4096 bytes does not make a file binary |
| TreeMap.DirectMembers | Code_Knowledge_Prep.py:197-200 | a directory's file list holds exactly the visible files directly inside it |
| TreeMap.SubdirNamesMembers | Code_Knowledge_Prep.py:184-191 | a directory's subdirectories are exactly those holding a visible file, each listed once |
| TreeMap.SortedSubdirsMembers | Code_Knowledge_Prep.py:207 | sorting keeps exactly those subdirectories, each once |
| TreeMap.SortedDirectMembers | Code_Knowledge_Prep.py:208 | sorting a directory's files keeps the same files |
| TreeMap.FileRows | Code_Knowledge_Prep.py:215-218 | one row per file, in order, and only the last one drawn with the last-entry branch |
| TreeMap.TreeLines | Code_Knowledge_Prep.py:194 | the map starts with the root's name and a '/' |
| TreeMap.Render | Code_Knowledge_Prep.py:206-218 | `render` appends exactly the rows of the directory's subtree to the shared line list |
| TreeMap.RenderSubdirs | Code_Knowledge_Prep.py:209-214 | the subdirectory loop appends each subdirectory's row followed by its subtree |
| TreeMap.RenderFiles | Code_Knowledge_Prep.py:215-218 | the file loop appends one row per file |
| TreeMap.MakeTreeMap | Code_Knowledge_Prep.py:182-221 | the returned text is the map's lines joined with newlines |
| TreeMap.RowsShowFiles | Code_Knowledge_Prep.py:206-218 | the file rows under a directory are exactly the visible files below it |
| TreeMap.TreeShowsAllFiles | Code_Knowledge_Prep.py:182-221 | the map draws every visible file and nothing else as a file |
| TreeMap.RowsCount | Code_Knowledge_Prep.py:196-219 | `render(d)` draws each file inside `d` exactly as many times as it occurs in the visible list, and no other file |
| TreeMap.TreeDrawsEachFileOnce | Code_Knowledge_Prep.py:182-221 | when the visible list has no repeated path, each visible file gets exactly one file row and no other path gets one |
| TreeMap.RowsPlaced | Code_Knowledge_Prep.py:206-218 | every row lies below its directory, is indented 4 characters per level, and names a visible file or a directory holding one |
| Bundle.SortModeOf | Code_Knowledge_Prep.py:833-840 | "size" selects the size sort, "ext" the extension sort, anything else the path sort |
| Bundle.SortFiles | Code_Knowledge_Prep.py:834-840 | sorting keeps the same files |
| Bundle.SortFilesOrdered | Code_Knowledge_Prep.py:834-840 | each mode orders the files by its key: `(size, path)`, `(lower suffix, path)` or path |
| Bundle.SortIgnoresWalkOrder | Code_Knowledge_Prep.py:834-840 | with distinct paths, the sorted order does not depend on the order the walk produced |
| Bundle.IdPrefix | Code_Knowledge_Prep.py:845 | the ID prefix is the configured one, or "F" when that is empty |
| Bundle.IdWidth | Code_Knowledge_Prep.py:846 | the ID width is at least 4 and at least the number of digits of the file count |
| Bundle.FileIdDigits | Code_Knowledge_Prep.py:848-849 | an ID is the prefix followed by the file's index as zero-padded digits of the common width |
| Bundle.FileIdsDistinct | Code_Knowledge_Prep.py:848-849 | IDs of one run have equal length, and distinct indices get distinct IDs |
| Bundle.TwoFileIds | Code_Knowledge_Prep.py:845-849 | with the default prefix, two files get `F0001` and `F0002` |
| Bundle.CountUnlines | Code_Knowledge_Prep.py:873 | text made of newline-free lines has one newline per line break |
| Bundle.UnlinesEnd | Code_Knowledge_Prep.py:873 | such text ends with its last line, or with a newline when the last line is empty |
| Bundle.LineCountOfLines | Code_Knowledge_Prep.py:873 | the line count is the number of newlines plus one for an unterminated last line |
| Bundle.MetaOf | Code_Knowledge_Prep.py:852-885 | a file's metadata carries its ID, path and size, and the binary verdict; its language is `detect_language`'s, so a file named `Dockerfile` is "Plain Text" |
| Bundle.MetaNote | Code_Knowledge_Prep.py:855-882 | binary files are noted "binary: skipped" with 0 lines and language "Binary", text files get the language of the lower-cased suffix as written; for text, the truncation note appears exactly when the file is longer than the per-file limit, and lines are counted on the truncated preview |
| Bundle.Measure | Code_Knowledge_Prep.py:852-887 | the metadata pass yields one record per file, the `i`-th built from the file with index `i`, starting at 1 |
| Bundle.VisibleTextFiles | Code_Knowledge_Prep.py:908 | the map's files are exactly the paths of the non-binary files |
| Bundle.WriteSections | Code_Knowledge_Prep.py:924-969 | the section loop writes each file's section in order and adds up the bytes written |
| Bundle.WrittenWithinBudget | Code_Knowledge_Prep.py:952-969 | the bytes written never exceed the total budget (nor go below 0) |
| Bundle.EmittedIff | Code_Knowledge_Prep.py:937-969 | a file's content is written exactly when it is text, readable and fits the remaining budget; the written bytes are its truncated content, and skipped files add nothing |
| Bundle.SkipDoesNotLatch | Code_Knowledge_Prep.py:952-957 | a file skipped for the budget does not stop a later, smaller file from being written |
| Bundle.SectionContent | Code_Knowledge_Prep.py:924-966 | a written section contains the decoded content; a skipped one contains "[No content]" |
| Bundle.Contents | Code_Knowledge_Prep.py:946 | the bytes read back are those of each file, in order |
| Bundle.BundleFiles | Code_Knowledge_Prep.py:816-969 | the bundler sorts, measures, maps the text files and writes the sections, and stays within the total budget |
| Normalize.SanitizedIsClean | Code_Knowledge_Prep.py:40-47 | sanitised text has no `\r` and no stripped control character |
| Normalize.SanitizeKeepsCleanText | Code_Knowledge_Prep.py:40-47 | text that is already clean after NFKC passes through unchanged |
| Normalize.SanitizeKeepsTabs | Code_Knowledge_Prep.py:45-46 | sanitising keeps every tab |
| Normalize.SanitizeNewlines | Code_Knowledge_Prep.py:43 | the sanitised text has one `\n` per line break of the input (`\r\n`, `\r` or `\n`) |
| Normalize.CollapseSpaces | Code_Knowledge_Prep.py:300 | collapsing spaces keeps the first character |
| Normalize.LimitNewlines | Code_Knowledge_Prep.py:301 | limiting newlines keeps the first two characters |
| Normalize.TrimLineEndsShape | Code_Knowledge_Prep.py:299 | after trimming, no space or tab stands before a newline |
| Normalize.TrimLineEndsIdentity | Code_Knowledge_Prep.py:299 | trimming changes nothing when no blank stands before a newline |
| Normalize.CollapseSpacesShape | Code_Knowledge_Prep.py:300 | after collapsing, no two spaces are adjacent, and line ends stay trimmed |
| Normalize.CollapseSpacesIdentity | Code_Knowledge_Prep.py:300 | collapsing changes nothing without a double space |
| Normalize.LimitNewlinesNoTriple | Code_Knowledge_Prep.py:301 | after limiting, no three newlines are adjacent |
| Normalize.LimitNewlinesNoBlank | Code_Knowledge_Prep.py:301 | limiting newlines keeps line ends trimmed |
| Normalize.LimitNewlinesNoDouble | Code_Knowledge_Prep.py:301 | limiting newlines introduces no double space |
| Normalize.LimitNewlinesIdentity | Code_Knowledge_Prep.py:301 | limiting changes nothing without three adjacent newlines |
| Normalize.NormalizeProseShape | Code_Knowledge_Prep.py:297-302 | normalised prose has trimmed line ends, no double space, no triple newline, and no whitespace at either end |
| Normalize.NormalizeProseIdempotent | Code_Knowledge_Prep.py:297-302 | normalising prose twice gives the same as once |
| Normalize.NormalizeProseKeepsText | Code_Knowledge_Prep.py:297-302 | normalising prose removes or merges whitespace only: the non-whitespace characters stay, in order |
| Normalize.StripKeepsText | Code_Knowledge_Prep.py:302 | `strip` drops whitespace only |
| Normalize.SpanAt | Code_Knowledge_Prep.py:306 | a code span found at a position ends after it and within the text |
| Normalize.Matches | Code_Knowledge_Prep.py:306 | the match table gives, per position, the end of the code span the pattern matches there |
| Normalize.NextSpanLeftmost | Code_Knowledge_Prep.py:313 | the next span is the leftmost match at or after the position; none means no match remains |
| Normalize.PiecesCover | Code_Knowledge_Prep.py:311-322 | the prose gaps and code spans concatenate back to the sanitised text |
| Normalize.RenderPieces | Code_Knowledge_Prep.py:311-322 | the loop appends, per match, the normalised non-empty gap and the verbatim code, then the normalised non-empty tail |
| Normalize.NormalizeTextCodeSafe | Code_Knowledge_Prep.py:308-323 | the method returns the code-safe normalisation of the sanitised text |
| Normalize.SpanIsBlock | Code_Knowledge_Prep.py:306 | every matched span is a fenced block or a marker block closed by the first closing delimiter after its opening |
| Normalize.MatchesAreBlocks | Code_Knowledge_Prep.py:306 | every entry of the match table is such a block |
| Normalize.PiecesShape | Code_Knowledge_Prep.py:311-322 | every code piece is such a block and every prose piece is non-empty |
| Normalize.CodeSafeParts | Code_Knowledge_Prep.py:308-323 | the output is the concatenation of the pieces, code pieces verbatim and prose pieces in normal form |
| Normalize.CodeSafeKeepsText | Code_Knowledge_Prep.py:308-323 | code-safe normalisation keeps the non-whitespace characters of the sanitised text, in order |
| Normalize.NoCodeIsProse | Code_Knowledge_Prep.py:320-322 | without a code span the result is the normalised prose of the whole text |
| Normalize.CodeSafeNeverBlank | Code_Knowledge_Prep.py:308-323 | the result is all whitespace only when it is empty |
| Normalize.ReplaceOthers | Code_Knowledge_Prep.py:335 | after the substitution, every character is one the title pattern allows |
| Normalize.ReplaceOthersKeepsAllowed | Code_Knowledge_Prep.py:335 | a name made only of allowed characters is unchanged |
| Normalize.ReplaceOthersKeeps | Code_Knowledge_Prep.py:335 | the non-whitespace result is exactly the name's allowed non-whitespace characters |
| Normalize.TitleIgnoresDirectory | Code_Knowledge_Prep.py:333-336 | a title depends on the file name only, not on its directory |
| DocId.ShortTextIsItsSample | Code_Knowledge_Prep.py:339-341 | text no longer than `k` is its own sample |
| DocId.LongTextSample | Code_Knowledge_Prep.py:338-344 | a longer text's sample is its head, middle and tail of the given widths |
| DocId.DocumentSampleLength | Code_Knowledge_Prep.py:338-344 | a document longer than 2000 characters is sampled to 6000 characters |
| DocId.BaseRoundTrip | Code_Knowledge_Prep.py:350-357 | reading back a base-`n` rendering gives the number |
| DocId.ToBaseChars | Code_Knowledge_Prep.py:350-357 | a rendering uses alphabet characters only and has no leading zero |
| DocId.ToBaseLength | Code_Knowledge_Prep.py:350-357 | a number below `base^k` takes at most `k` digits |
| DocId.IntToBaseN | Code_Knowledge_Prep.py:350-357 | the digit loop with its final reversal computes the base-`n` rendering |
| DocId.ParseHex | Code_Knowledge_Prep.py:365 | hex parsing succeeds exactly on a non-empty string of hex digits |
| DocId.HexValueBound | Code_Knowledge_Prep.py:365 | `k` hex digits hold a value below `16^k` |
| DocId.AfterFirstDash | Code_Knowledge_Prep.py:362 | `split('-', 1)[1]` exists exactly when the text holds a dash |
| DocId.StableHashShape | Code_Knowledge_Prep.py:49-51 | a stable hash is `sha256-` followed by 64 lower-case hex digits |
| DocId.ShortIdOfStableHash | Code_Knowledge_Prep.py:359-367 | the short ID of a stable hash is the prefix, then 6 to 10 base-36 digits whose value is the hash's first 12 hex digits |
| DocId.StableHashHex | Code_Knowledge_Prep.py:362 | the 12 digits taken from a stable hash are the first 12 of its digest |
| DocId.Base36Id | Code_Knowledge_Prep.py:366-367 | a 48-bit value zero-filled to a length reads back to the value, within 10 digits |
| DocId.ZeroPad | Code_Knowledge_Prep.py:367 | `zfill` does not change a base-36 value |
| DocId.KeepAsciiAlnum | Code_Knowledge_Prep.py:1089 | the clean-up keeps ASCII letters and digits only |
| DocId.CleanPrefixChars | Code_Knowledge_Prep.py:1087-1092 | the DocID prefix is never empty and is made of digits and upper-case letters |
| DocId.CleanPrefixKeepsClean | Code_Knowledge_Prep.py:1087-1092 | an already clean prefix is kept as entered |
| Extract.DispatchTable | Code_Knowledge_Prep.py:439-461 | an extension has an extractor exactly when it is a key of the table; every key is a lower-case dotted suffix |
| Extract.ExtensionIgnoresCase | Code_Knowledge_Prep.py:435-437 | the extension is taken from the base name and does not depend on letter case |
| Extract.UpperCaseExtension | Code_Knowledge_Prep.py:437 | `books/Guide.PDF` is read as a PDF |
| Extract.HiddenFileUnsupported | Code_Knowledge_Prep.py:437 | a file named `.md` has no extension and is unsupported |
| Extract.LastSuffixOnly | Code_Knowledge_Prep.py:437 | only the last suffix counts: `archive.tar.gz` is unsupported |
| Extract.ExtractTxt | Code_Knowledge_Prep.py:374-387 | a text extraction failure carries a "Reason: " message |
| Extract.ExtractPdf | Code_Knowledge_Prep.py:389-398 | a PDF extraction failure carries a "Reason: " message |
| Extract.EpubParts | Code_Knowledge_Prep.py:403-410 | only non-blank EPUB documents are kept |
| Extract.ExtractEpub | Code_Knowledge_Prep.py:400-415 | an EPUB extraction failure carries a "Reason: " message |
| Extract.MobiParts | Code_Knowledge_Prep.py:422-426 | at most one part per unpacked MOBI file |
| Extract.ExtractMobi | Code_Knowledge_Prep.py:417-433 | a MOBI extraction failure carries a "Reason: " message |
| Extract.Extract | Code_Knowledge_Prep.py:465 | every extractor's failure carries a "Reason: " message |
| Extract.ExtractedNotBlank | Code_Knowledge_Prep.py:374-415 | a successful text, PDF or EPUB extraction is never blank |
| Extract.BlankMobi | Code_Knowledge_Prep.py:417-433 | a MOBI whose only part is empty extracts successfully to "", and the file is then reported "Extracted text is empty." |
| Extract.ProcessKind | Code_Knowledge_Prep.py:463-483 | the result is "Unsupported file type" exactly for an unsupported kind; any other error is the empty-text error or the extractor's error |
| Extract.FromExtracted | Code_Knowledge_Prep.py:465-483 | an error after extraction is the empty-text message or `ExtractionError: Reason: …` |
| Extract.MakeDocument | Code_Knowledge_Prep.py:470-481 | building the document record never yields an error entry: it gives a document, or the exception `int(hash_hex, 16)` raises outside the `try` |
| Extract.DocumentId | Code_Knowledge_Prep.py:470-481 | the record keeps the title and text, its full hash is the stable hash of the title plus the sample, and its short ID encodes that hash |
| Extract.ProcessedDocument | Code_Knowledge_Prep.py:435-483 | a file yields a document exactly when it is supported and its extraction succeeds with non-blank text; the document holds that text and the file's title |
| Extract.UnsupportedExactly | Code_Knowledge_Prep.py:461-462 | the result is "Unsupported file type" exactly when the extension has no extractor |
| Knowledge.QueueSorted | Code_Knowledge_Prep.py:1103 | the worker's queue is a stable sort of the paths by base name |
| Knowledge.ChunksCover | Code_Knowledge_Prep.py:1106 | the chunks concatenate back to the queue; each holds 1 to `chunk_size` paths and all but the last are full |
| Knowledge.ChunkCount | Code_Knowledge_Prep.py:1106 | the number of chunks is the queue length divided by the size, rounded up |
| Knowledge.ChunkAt | Code_Knowledge_Prep.py:1106 | chunk `k` is the slice `[k*size : k*size + size]` |
| Knowledge.IndexOf | Code_Knowledge_Prep.py:1132 | `chunk.index` gives the first position of the path |
| Knowledge.CollectedCount | Code_Knowledge_Prep.py:1117-1137 | every completed future is counted once, as a document or as a failure |
| Knowledge.CollectedPermutation | Code_Knowledge_Prep.py:1117-1137 | the documents collected are the same whatever the completion order |
| Knowledge.BatchOrderIndependent | Code_Knowledge_Prep.py:1117-1140 | after the `_order` sort, the batch's documents are in queue order, whatever order the futures completed in |
| Knowledge.Results | Code_Knowledge_Prep.py:1116 | each submitted path is processed by `process_single_file` with the run's prefix |
| Knowledge.CollectBatch | Code_Knowledge_Prep.py:1117-1140 | the collection loop gathers the successful results in completion order, then sorts them by `_order`; documents plus failures equal the completions |
| Knowledge.WrapFits | Code_Knowledge_Prep.py:1153-1155 | after soft wrapping, no line is longer than 10000 characters |
| Knowledge.WrapInserts | Code_Knowledge_Prep.py:1153-1155 | soft wrapping only inserts newlines into the text |
| Knowledge.WrapKeepsFittingText | Code_Knowledge_Prep.py:1153-1155 | text whose lines already fit is unchanged |
| Knowledge.SoftWrapIdempotent | Code_Knowledge_Prep.py:1153-1155 | wrapping twice gives the same as once |
| Knowledge.SectionBody | Code_Knowledge_Prep.py:1149-1157 | a document section opens and closes with its markers, and its body is the sanitised text with newlines inserted so that no line exceeds 10000 characters |
| Knowledge.InOrder | Code_Knowledge_Prep.py:1117 | completing every batch in submission order is a valid schedule |
| Knowledge.ProcessDocuments | Code_Knowledge_Prep.py:1100-1166 | the worker writes one knowledge file per batch that has documents, and, with every write succeeding, documents processed plus files failed equal the queue length |
| Knowledge.WriteBatch | Code_Knowledge_Prep.py:1111-1164 | one batch writes its file when it has documents, and its documents plus failures equal the batch size |
| Knowledge.WrittenOrderIndependent | Code_Knowledge_Prep.py:1117-1160 | the files written and the processed count do not depend on the order in which futures complete |
| Knowledge.WorkerDeterministic | Code_Knowledge_Prep.py:1100-1166 | for a queue without repeated paths, the worker's output does not depend on the completion order of its process pool |
| Reference.IdRun | Code_Knowledge_Prep.py:1195 | the `[A-Z0-9]+` run is maximal |
| Reference.TitleRun | Code_Knowledge_Prep.py:1195 | the `[^\]]+` run stops at the first ']' |
| Reference.ParseTocLine | Code_Knowledge_Prep.py:1195 | a matched line is the TOC text of a valid entry followed by whitespace only |
| Reference.ParseId | Code_Knowledge_Prep.py:1195 | a matched remainder is the ID part of a valid entry followed by whitespace only |
| Reference.ParseHash | Code_Knowledge_Prep.py:1195 | a matched hash is `sha256-` and 64 lower-case hex digits, followed by a non-empty title without ']' |
| Reference.ParseTitle | Code_Knowledge_Prep.py:1195 | a matched title is non-empty, has no ']', and is followed by ']' and whitespace only |
| Reference.ParseComplete | Code_Knowledge_Prep.py:1195 | every valid entry's TOC text, with any trailing whitespace, matches and gives back the entry |
| Reference.TocLineRoundTrip | Code_Knowledge_Prep.py:1144-1147 | the TOC line the document worker writes is matched by the reference regular expression, which returns its ID, hash and title |
| Reference.MadeDocumentParses | Code_Knowledge_Prep.py:1087-1092 | every document made with a cleaned prefix and a title without ']' gets a TOC line the reference scan accepts |
| Reference.LookupFound | Code_Knowledge_Prep.py:1208 | a lookup finds an ID exactly when it was recorded |
| Reference.SetDefault | Code_Knowledge_Prep.py:1208 | `setdefault` keeps the first value recorded for an ID, adds it otherwise, and touches no other ID |
| Reference.SetDefaultUnique | Code_Knowledge_Prep.py:1208 | `setdefault` keeps IDs unique |
| Reference.ScanLinesFirstWins | Code_Knowledge_Prep.py:1203-1211 | after scanning a file, an ID maps to its earlier entry if any, otherwise to its first match in the file |
| Reference.ScanFilesFirstWins | Code_Knowledge_Prep.py:1198-1217 | an ID maps to its first match across the files in input order |
| Reference.ScanFilesUnique | Code_Knowledge_Prep.py:1198-1217 | the collected references have unique IDs |
| Reference.CollectReferences | Code_Knowledge_Prep.py:1198-1217 | the scan loop over the files builds the references of the specification |
| Reference.ScanFile | Code_Knowledge_Prep.py:1203-1211 | the scan loop over one file's lines |
| Reference.SortedRefsOrder | Code_Knowledge_Prep.py:1223 | the references are sorted stably by lower-cased title, as a permutation |
| Reference.IndexLines | Code_Knowledge_Prep.py:1228-1230 | one index line per reference, in order |
| Reference.CreateReferenceSheet | Code_Knowledge_Prep.py:1190-1231 | no sheet when nothing matched; otherwise the header and the sorted index lines |
| Reference.FirstMatchInFinds | Code_Knowledge_Prep.py:1198-1208 | every matching line in any input file gets its ID recorded |
| Reference.NoSheetWhenNoMatch | Code_Knowledge_Prep.py:1219-1221 | no sheet is written exactly when no line of any file matches |
| Reference.LineLength | Code_Knowledge_Prep.py:1204 | a read line runs up to and including the first newline |
| Reference.ReadLinesAppend | Code_Knowledge_Prep.py:1204 | reading text that ends a line, then more text, reads the lines of each |
| Reference.TocLineIsLine | Code_Knowledge_Prep.py:1146 | a TOC entry with single-line fields is read back as one line |
| Reference.TocLinesRead | Code_Knowledge_Prep.py:1144-1147 | reading the TOC back yields each document's TOC line |
| Reference.KnowledgeFileIndexed | Code_Knowledge_Prep.py:1142-1157 | scanning a knowledge file finds every document whose TOC entry is valid |
| DocQueue.AppendedQueue | Code_Knowledge_Prep.py:1003-1006 | appending keeps the old queue as a prefix and keeps paths distinct; the new queue holds exactly the old paths and the accepted new ones |
| DocQueue.StrippedLines | Code_Knowledge_Prep.py:1253 | the imported paths are stripped and non-blank |
| DocQueue.StrippedLinesCount | Code_Knowledge_Prep.py:1253 | the number of imported paths is the number of non-blank lines |
| DocQueue.KeysOfIn | Code_Knowledge_Prep.py:1036-1042 | the `seen` keys are exactly the lower-cased base names in the queue |
| DocQueue.SplitDuplicates | Code_Knowledge_Prep.py:1036-1042 | every path is either kept or reported as a duplicate |
| DocQueue.SplitDuplicatesPartition | Code_Knowledge_Prep.py:1036-1042 | kept plus duplicates is a permutation of the queue |
| DocQueue.SplitDuplicatesKeepsFirst | Code_Knowledge_Prep.py:1036-1042 | the kept paths have distinct names, cover every name, and each is the first path with its name |
| DocQueue.NoDuplicatesIffKeysDiffer | Code_Knowledge_Prep.py:1044-1046 | no duplicate is reported exactly when all names differ |
| DocQueue.KeptDistinct | Code_Knowledge_Prep.py:1050 | the de-duplicated queue has no repeated path |
| DocQueue.FindDuplicates | Code_Knowledge_Prep.py:1036-1042 | the loop over the queue returns the kept paths and the duplicates |
| DocQueue.DocumentQueue.AddFiles | Code_Knowledge_Prep.py:1003-1007 | chosen files not yet in the queue are appended, in order |
| DocQueue.DocumentQueue.ImportQueue | Code_Knowledge_Prep.py:1244-1262 | each stripped non-blank line naming an existing file not yet queued is appended; returns the count read and the count added |
| DocQueue.DocumentQueue.CheckForDuplicates | Code_Knowledge_Prep.py:1030-1054 | reports the duplicates and, when confirmed, keeps the first path of each name |
| DocQueue.DocumentQueue.Clear | Code_Knowledge_Prep.py:1009-1016 | the queue is emptied only when no worker is busy and the user confirms |

## Left out

- The Tk interface, message boxes, file dialogs, progress messages and the log queue. They only display state; the decisions behind them are modelled.
- Threads and the process pool. The order in which futures complete is a parameter of the document worker, and the model proves that the output does not depend on it.
- The message of a crashed future is not modelled. A crash (`Raised`) is counted as a failure, as the worker counts it.
- NFKC normalisation, SHA-1, SHA-256, `str.title`, `str.isalnum`, UTF-8 decoding, BeautifulSoup, PyMuPDF, ebooklib and mobi. They are foreign libraries and appear as function parameters.
- File I/O and its failures. A file's bytes are given as `Option<bytes>`, with `None` for a read that fails.
- Bundle.MetaOf: the bundler reads a file three times (the binary sniff at lines 159-169, the measuring pass at line 866, the section pass at line 947), and the model gives all three the one result `Entry.data`. A file that passes the sniff and then fails a later read is not modelled, so the "read error: skipped" note and the section pass's "Could not read file as text" outcome are unreachable in the bundle.
- Knowledge.ProcessDocuments: writing a knowledge file is assumed to succeed. In the source an `IOError` while writing (lines 1141-1159) is logged and that batch's documents are not added to the processed count, so the count identity does not hold after a failed write.
- The walk's `follow_symlinks` flag (lines 172-173, 831). The file system is a tree without links, so following links or not gives the same walk.
- The text extractor's UTF-8-then-Latin-1 read is the `readText` parameter of `Extract.Library`.
- Python's universal-newline translation when files are read in text mode. The reference scan reads lines split at `\n` only.
- `read_gitignore_patterns` (lines 117-129): its lines are an input of the rule list.
- The bundle header with its timestamp, the LLM usage guide, the file index table, and the fixed knowledge-file and reference-sheet headers. They are fixed text or clock-dependent; the knowledge-file header is a parameter.
- The section formatter of the bundler is a parameter of the section writer. Only its content-carrying parts are proved (`Bundle.SectionContent`).
- Case mapping is ASCII only (`Lower`, `Upper`). Python's full Unicode mapping is not modelled.
- `\w` in the title pattern is given by the `isAlnum` parameter plus `_`.
- `int(x, 16)` is modelled on plain hex digits. Signs, `0x`, underscores and whitespace make the model's parse fail, though Python accepts them; stable hashes never contain them.
- `update_queue_display` only sorts for display; it is not modelled.
- `export_queue` only writes the queue to a file; it is not modelled.
- The bundler uses the language detector as written (`Classify.DetectLanguageAsWritten`); the corrected `Classify.DetectLanguage` of the Findings row is not used in the bundle.
- `TreeMap.Rows` stops at the depth of the longest visible path. Nothing lies below that depth, so no row is lost.
- Dictionaries (`meta` records, `doc_references`) are modelled as sequences of records or pairs in insertion order.
- `seen` in `check_for_duplicates` is modelled as the kept list plus the set of its keys.
- `fnmatch` is modelled as on POSIX, where `normcase` does nothing; on Windows it would also fold case.
- The code-span regular expression is modelled by a table giving, per position, the end of the span it matches there. `finditer` is modelled as the leftmost match at or after the previous match's end, which is what the regular expression engine does.
- `make_tree_map` takes paths relative to the root; the root's own name or full path is given as `rootName`.

## Findings

| source | as written | input that shows it | evidently intended | confidence | as-written member | corrected member |
|---|---|---|---|---|---|---|
| Code_Knowledge_Prep.py:104 | `TEXT_EXT_HINT` has the key "Dockerfile", but `detect_language` looks up only the lower-cased `Path.suffix`, which is empty or starts with '.' | a file named `Dockerfile` | `Dockerfile` is classified "Dockerfile" | not executed | Classify.DockerfileIsPlainTextAsWritten | Classify.DetectLanguage |
