/**
 * The document queue: the paths waiting to become knowledge files. Paths
 * are added from the file dialog or imported from a queue file, never
 * twice; the duplicate check keeps the first path for each file name,
 * compared without case.
 */
module DocQueue {
  import opened PyStr
  import Knowledge

  // ---------------------------------------------------------------------------
  // Appending paths not yet queued
  // ---------------------------------------------------------------------------

  /**
   * The queue after `for f in paths: if accept(f) and f not in queue:
   * queue.append(f)`.
   */
  function Appended(queue: seq<string>, paths: seq<string>, accept: string -> bool): seq<string>
    decreases |paths|
  {
    if paths == [] then queue
    else
      var q := Appended(queue, paths[..|paths| - 1], accept);
      var p := paths[|paths| - 1];
      if accept(p) && p !in q then q + [p] else q
  }

  /**
   * Appending keeps the queue in front, never repeats a path, and queues
   * exactly the accepted paths on top of those already there.
   */
  lemma {:induction false} AppendedQueue(queue: seq<string>, paths: seq<string>, accept: string -> bool)
    requires Knowledge.Distinct(queue)
    ensures var r := Appended(queue, paths, accept);
      && |queue| <= |r| && r[..|queue|] == queue
      && Knowledge.Distinct(r)
      && forall p :: p in r <==> p in queue || (p in paths && accept(p))
    decreases |paths|
  {
    if paths != [] {
      var n := |paths| - 1;
      AppendedQueue(queue, paths[..n], accept);
      var q := Appended(queue, paths[..n], accept);
      assert paths == paths[..n] + [paths[n]];
      var p := paths[n];
      if accept(p) && p !in q {
        assert (q + [p])[..|queue|] == q[..|queue|];
      }
    }
  }

  // ---------------------------------------------------------------------------
  // Importing a queue file
  // ---------------------------------------------------------------------------

  /** `[line.strip() for line in f if line.strip()]` */
  function StrippedLines(lines: seq<string>): (r: seq<string>)
    ensures forall p :: p in r ==> NonBlankStripped(p)
    ensures |r| <= |lines|
  {
    if lines == [] then []
    else
      var s := Strip(lines[0]);
      var rest := StrippedLines(lines[1..]);
      if s != [] then [s] + rest else rest
  }

  /** A path read from a queue file: not empty, no whitespace at either end. */
  predicate NonBlankStripped(p: string) {
    p != [] && !IsSpace(p[0]) && !IsSpace(p[|p| - 1])
  }

  /** Blank lines are skipped and every other line gives one path. */
  lemma {:induction false} StrippedLinesCount(lines: seq<string>)
    ensures |StrippedLines(lines)| == |lines| - CountBlank(lines)
  {
    if lines != [] {
      StrippedLinesCount(lines[1..]);
    }
  }

  /** How many lines hold only whitespace. */
  function CountBlank(lines: seq<string>): nat {
    if lines == [] then 0 else (if AllSpace(lines[0]) then 1 else 0) + CountBlank(lines[1..])
  }

  // ---------------------------------------------------------------------------
  // The duplicate check
  // ---------------------------------------------------------------------------

  /** `os.path.basename(f).lower()`: the name the duplicate check compares. */
  function NameKey(f: string): string {
    Lower(Basename(f))
  }

  /** The keys of the paths in `s`: the keys of `seen`. */
  function KeysOf(s: seq<string>, key: string -> string): set<string>
    decreases |s|
  {
    if s == [] then {} else KeysOf(s[..|s| - 1], key) + {key(s[|s| - 1])}
  }

  lemma {:induction false} KeysOfIn(s: seq<string>, key: string -> string, name: string)
    ensures name in KeysOf(s, key) <==> exists i :: 0 <= i < |s| && key(s[i]) == name
    decreases |s|
  {
    if s != [] {
      var n := |s| - 1;
      KeysOfIn(s[..n], key, name);
      if name in KeysOf(s[..n], key) {
        var i :| 0 <= i < n && key(s[..n][i]) == name;
        assert s[i] == s[..n][i];
      }
      if exists i :: 0 <= i < |s| && key(s[i]) == name {
        var i :| 0 <= i < |s| && key(s[i]) == name;
        if i < n {
          assert s[..n][i] == s[i];
        }
      }
    }
  }

  /**
   * `list(seen.values())` and `duplicates` after the check's loop over
   * `queue`: a path whose key is already seen is a duplicate, any other is
   * kept.
   */
  function SplitDuplicates(queue: seq<string>, key: string -> string): (r: (seq<string>, seq<string>))
    ensures |r.0| + |r.1| == |queue|
    decreases |queue|
  {
    if queue == [] then ([], [])
    else
      var (kept, dups) := SplitDuplicates(queue[..|queue| - 1], key);
      var f := queue[|queue| - 1];
      if key(f) in KeysOf(kept, key) then (kept, dups + [f]) else (kept + [f], dups)
  }

  /** The first path in `queue` whose key is `name`, if any. */
  function FirstWithKey(queue: seq<string>, key: string -> string, name: string): Option<string> {
    if queue == [] then None
    else if key(queue[0]) == name then Some(queue[0])
    else FirstWithKey(queue[1..], key, name)
  }

  lemma {:induction false} FirstWithKeySnoc(queue: seq<string>, f: string, key: string -> string, name: string)
    ensures FirstWithKey(queue + [f], key, name)
         == (if FirstWithKey(queue, key, name).Some? then FirstWithKey(queue, key, name)
             else if key(f) == name then Some(f) else None)
  {
    if queue != [] {
      assert (queue + [f])[1..] == queue[1..] + [f];
      FirstWithKeySnoc(queue[1..], f, key, name);
    }
  }

  /** Every queued path is either kept or reported, once. */
  lemma {:induction false} SplitDuplicatesPartition(queue: seq<string>, key: string -> string)
    ensures multiset(SplitDuplicates(queue, key).0) + multiset(SplitDuplicates(queue, key).1) == multiset(queue)
    decreases |queue|
  {
    if queue != [] {
      var n := |queue| - 1;
      SplitDuplicatesPartition(queue[..n], key);
      assert queue == queue[..n] + [queue[n]];
    }
  }

  /**
   * The check keeps every key of the queue, once, and for each the first
   * path that carries it.
   */
  lemma {:induction false} SplitDuplicatesKeepsFirst(queue: seq<string>, key: string -> string)
    ensures var kept := SplitDuplicates(queue, key).0;
      && KeysOf(kept, key) == KeysOf(queue, key)
      && (forall i, j :: 0 <= i < j < |kept| ==> key(kept[i]) != key(kept[j]))
      && (forall k :: 0 <= k < |kept| ==> FirstWithKey(queue, key, key(kept[k])) == Some(kept[k]))
    decreases |queue|
  {
    if queue != [] {
      var n := |queue| - 1;
      var front, f := queue[..n], queue[n];
      assert queue == front + [f];
      SplitDuplicatesKeepsFirst(front, key);
      var kept := SplitDuplicates(front, key).0;
      forall k | 0 <= k < |kept| ensures FirstWithKey(queue, key, key(kept[k])) == Some(kept[k]) {
        FirstWithKeySnoc(front, f, key, key(kept[k]));
      }
      if key(f) !in KeysOf(kept, key) {
        KeptStep(front, f, key, kept);
      }
    }
  }

  lemma KeptStep(front: seq<string>, f: string, key: string -> string, kept: seq<string>)
    requires key(f) !in KeysOf(kept, key) && KeysOf(kept, key) == KeysOf(front, key)
    requires forall i, j :: 0 <= i < j < |kept| ==> key(kept[i]) != key(kept[j])
    ensures var kept' := kept + [f];
      && KeysOf(kept', key) == KeysOf(front + [f], key)
      && (forall i, j :: 0 <= i < j < |kept'| ==> key(kept'[i]) != key(kept'[j]))
      && FirstWithKey(front + [f], key, key(f)) == Some(f)
  {
    var kept' := kept + [f];
    assert kept'[..|kept|] == kept;
    assert (front + [f])[..|front|] == front;
    KeysOfIn(kept, key, key(f));
    KeysOfIn(front, key, key(f));
    FirstWithKeySnoc(front, f, key, key(f));
    FirstWithKeyNone(front, key, key(f));
    forall i, j | 0 <= i < j < |kept'| ensures key(kept'[i]) != key(kept'[j]) {
      if j == |kept| {
        assert kept'[i] == kept[i];
      }
    }
  }

  lemma {:induction false} FirstWithKeyNone(queue: seq<string>, key: string -> string, name: string)
    requires forall i :: 0 <= i < |queue| ==> key(queue[i]) != name
    ensures FirstWithKey(queue, key, name) == None
  {
    if queue != [] {
      FirstWithKeyNone(queue[1..], key, name);
    }
  }

  /** Duplicates are reported exactly when two queued paths share a key. */
  lemma {:induction false} NoDuplicatesIffKeysDiffer(queue: seq<string>, key: string -> string)
    ensures SplitDuplicates(queue, key).1 == []
        <==> forall i, j :: 0 <= i < j < |queue| ==> key(queue[i]) != key(queue[j])
    decreases |queue|
  {
    if queue != [] {
      var n := |queue| - 1;
      var front, f := queue[..n], queue[n];
      NoDuplicatesIffKeysDiffer(front, key);
      SplitDuplicatesKeepsFirst(front, key);
      KeysOfIn(front, key, key(f));
      assert forall i :: 0 <= i < n ==> front[i] == queue[i];
    }
  }

  // ---------------------------------------------------------------------------
  // The queue
  // ---------------------------------------------------------------------------

  class DocumentQueue {
    /** `self.file_queue` */
    var files: seq<string>

    /** The queue never holds a path twice. */
    ghost predicate Valid()
      reads this
    {
      Knowledge.Distinct(files)
    }

    constructor()
      ensures files == [] && Valid()
    {
      files := [];
    }

    /**
     * `add_files`: the chosen paths not yet queued are appended, in order;
     * every path the file dialog returns is accepted.
     */
    method AddFiles(chosen: seq<string>)
      requires Valid()
      modifies this
      ensures files == Appended(old(files), chosen, (p: string) => true)
      ensures Valid()
    {
      AppendedQueue(files, chosen, (p: string) => true);
      ghost var queue := files;
      var i := 0;
      while i < |chosen|
        invariant i <= |chosen|
        invariant files == Appended(queue, chosen[..i], (p: string) => true)
      {
        var f := chosen[i];
        assert chosen[..i + 1][..i] == chosen[..i];
        if f !in files {
          files := files + [f];
        }
        i := i + 1;
      }
      assert chosen[..i] == chosen;
    }

    /**
     * `import_queue`: every non-blank line of the queue file, stripped, is a
     * path; the existing ones not yet queued are appended. Returns how many
     * paths the file named and how many were added.
     */
    method ImportQueue(lines: seq<string>, pathExists: string -> bool) returns (named: nat, added: nat)
      requires Valid()
      modifies this
      ensures files == Appended(old(files), StrippedLines(lines), pathExists)
      ensures named == |StrippedLines(lines)|
      ensures |files| == |old(files)| + added
      ensures Valid()
    {
      var paths := StrippedLines(lines);
      AppendedQueue(files, paths, pathExists);
      ghost var queue := files;
      named, added := |paths|, 0;
      var i := 0;
      while i < |paths|
        invariant i <= |paths|
        invariant files == Appended(queue, paths[..i], pathExists)
        invariant |files| == |queue| + added
      {
        var f := paths[i];
        assert paths[..i + 1][..i] == paths[..i];
        if pathExists(f) && f !in files {
          files := files + [f];
          added := added + 1;
        }
        i := i + 1;
      }
      assert paths[..i] == paths;
    }

    /**
     * `check_for_duplicates`: reports the paths whose name (without case)
     * an earlier path already has; when there are some and the user
     * confirms, only the first path of each name stays, in queue order.
     */
    method CheckForDuplicates(confirm: bool) returns (duplicates: seq<string>)
      requires Valid()
      modifies this
      ensures duplicates == SplitDuplicates(old(files), NameKey).1
      ensures files == (if duplicates != [] && confirm then SplitDuplicates(old(files), NameKey).0 else old(files))
      ensures Valid()
    {
      duplicates := [];
      if files == [] {
        return;
      }
      var kept;
      kept, duplicates := FindDuplicates(files, NameKey);
      if duplicates != [] && confirm {
        KeptDistinct(files, NameKey);
        files := kept;
      }
    }

    /** `clear_queue`: empties the queue when no worker runs and the user confirms. */
    method Clear(busy: bool, confirm: bool)
      requires Valid()
      modifies this
      ensures files == (if !busy && confirm then [] else old(files))
      ensures Valid()
    {
      if !busy && confirm {
        files := [];
      }
    }
  }

  /**
   * The loop of `check_for_duplicates`: `seen` maps each name met so far to
   * its first path (here the kept paths and the set of their names).
   */
  method FindDuplicates(queue: seq<string>, key: string -> string) returns (kept: seq<string>, duplicates: seq<string>)
    ensures (kept, duplicates) == SplitDuplicates(queue, key)
  {
    kept, duplicates := [], [];
    var seen: set<string> := {};
    var i := 0;
    while i < |queue|
      invariant i <= |queue|
      invariant (kept, duplicates) == SplitDuplicates(queue[..i], key)
      invariant seen == KeysOf(kept, key)
    {
      var f := queue[i];
      var name := key(f);
      DuplicatesStep(queue, i, key);
      if name in seen {
        duplicates := duplicates + [f];
      } else {
        seen := seen + {name};
        kept := kept + [f];
      }
      i := i + 1;
    }
    assert queue[..i] == queue;
  }

  lemma DuplicatesStep(queue: seq<string>, i: nat, key: string -> string)
    requires i < |queue|
    ensures var (kept, dups) := SplitDuplicates(queue[..i], key);
      && SplitDuplicates(queue[..i + 1], key)
         == (if key(queue[i]) in KeysOf(kept, key) then (kept, dups + [queue[i]]) else (kept + [queue[i]], dups))
      && KeysOf(kept + [queue[i]], key) == KeysOf(kept, key) + {key(queue[i])}
  {
    assert queue[..i + 1][..i] == queue[..i];
    var kept := SplitDuplicates(queue[..i], key).0;
    assert (kept + [queue[i]])[..|kept|] == kept;
  }

  /** The kept paths of a queue without repeats have none either. */
  lemma KeptDistinct(queue: seq<string>, key: string -> string)
    ensures Knowledge.Distinct(SplitDuplicates(queue, key).0)
  {
    SplitDuplicatesKeepsFirst(queue, key);
  }
}
