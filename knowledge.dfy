/**
 * The document worker of the knowledge-file builder: the queue is sorted by
 * file name and cut into chunks; the files of a chunk are processed
 * concurrently and collected in completion order, put back in queue order,
 * and written to one knowledge file per chunk with a table of contents and
 * one delimited, sanitised and soft-wrapped section per document.
 */
module Knowledge {
  import opened PyStr
  import opened Order
  import opened Normalize
  import opened Extract

  // ---------------------------------------------------------------------------
  // Sorting the queue and cutting it into chunks
  // ---------------------------------------------------------------------------

  /** `file_paths.sort(key=os.path.basename)` */
  function SortedQueue(paths: seq<string>): seq<string> {
    SortBy(paths, Basename, StrOrder())
  }

  /**
   * The sorted queue holds the same paths, ordered by file name; paths that
   * share a file name keep their queue order (the sort is stable).
   */
  lemma QueueSorted(paths: seq<string>, name: string)
    ensures multiset(SortedQueue(paths)) == multiset(paths)
    ensures SortedBy(SortedQueue(paths), Basename, StrOrder())
    ensures WithKey(SortedQueue(paths), Basename, name) == WithKey(paths, Basename, name)
  {
    StrOrderTotal();
    SortBySorted(paths, Basename, StrOrder());
    SortByStable(paths, Basename, StrOrder(), name);
  }

  /** `[s[i:i + size] for i in range(0, len(s), size)]` */
  function Chunks<T>(s: seq<T>, size: nat): seq<seq<T>>
    requires size >= 1
    decreases |s|
  {
    if s == [] then []
    else if |s| <= size then [s]
    else [s[..size]] + Chunks(s[size..], size)
  }

  /**
   * The chunks put back together give the queue; each holds one to `size`
   * paths, and all but the last hold exactly `size`.
   */
  lemma {:induction false} ChunksCover<T>(s: seq<T>, size: nat)
    requires size >= 1
    ensures Concat(Chunks(s, size)) == s
    ensures forall k :: 0 <= k < |Chunks(s, size)| ==> 1 <= |Chunks(s, size)[k]| <= size
    ensures forall k :: 0 <= k < |Chunks(s, size)| - 1 ==> |Chunks(s, size)[k]| == size
    decreases |s|
  {
    if s != [] && |s| > size {
      ChunksCover(s[size..], size);
      var c := Chunks(s, size);
      assert c[1..] == Chunks(s[size..], size);
      assert s == s[..size] + s[size..];
    }
  }

  /** There are `ceil(|s| / size)` chunks: the last one starts below `|s|` and ends at it. */
  lemma {:induction false} ChunkCount<T>(s: seq<T>, size: nat)
    requires size >= 1
    ensures var n := |Chunks(s, size)|;
      (n == 0 <==> s == []) && (n > 0 ==> (n - 1) * size < |s| <= n * size)
    decreases |s|
  {
    if |s| > size {
      var n := |Chunks(s[size..], size)|;
      ChunkCount(s[size..], size);
      assert (n + 1) * size == n * size + size;
    }
  }

  /** Chunk `k` is the slice of `size` paths (fewer for the last) starting at `k * size`. */
  lemma {:induction false} ChunkAt<T>(s: seq<T>, size: nat, k: nat)
    requires size >= 1 && k < |Chunks(s, size)|
    ensures k * size < |s|
    ensures Chunks(s, size)[k] == s[k * size .. Min(k * size + size, |s|)]
    decreases |s|
  {
    if |s| > size && k > 0 {
      var rest := s[size..];
      ChunkAt(rest, size, k - 1);
      assert (k - 1) * size + size == k * size;
      assert rest[(k - 1) * size .. Min((k - 1) * size + size, |rest|)]
          == s[k * size .. Min(k * size + size, |s|)];
    }
  }

  // ---------------------------------------------------------------------------
  // Collecting one chunk's results
  // ---------------------------------------------------------------------------

  /** A processed document together with its `_order`, its position in the chunk. */
  datatype Doc = Doc(order: nat, shortId: string, fullHash: string, title: string, text: string)

  function OrderKey(d: Doc): int {
    d.order
  }

  /** `chunk.index(x)`: the first position of `x`. */
  function IndexOf(chunk: seq<string>, x: string): (i: nat)
    requires x in chunk
    ensures i < |chunk| && chunk[i] == x && x !in chunk[..i]
  {
    if chunk[0] == x then 0
    else
      assert x in chunk[1..];
      var j := IndexOf(chunk[1..], x);
      assert chunk[..j + 1] == [chunk[0]] + chunk[1..][..j];
      j + 1
  }

  /** Positions of a chunk, as `as_completed` hands its futures back. */
  predicate Indices(order: seq<nat>, n: nat) {
    forall k :: 0 <= k < |order| ==> order[k] < n
  }

  /**
   * The result of the future for `chunk[i]` as the worker keeps it: a
   * document stamped with its `_order`, or nothing for an error entry or a
   * crash.
   */
  function Accepted(chunk: seq<string>, results: seq<FileResult>, i: nat): (d: seq<Doc>)
    requires |results| == |chunk| && i < |chunk|
    ensures |d| == (if results[i].Document? then 1 else 0)
  {
    match results[i]
    case Document(id, h, t, x) => [Doc(IndexOf(chunk, chunk[i]), id, h, t, x)]
    case _ => []
  }

  /** `processed_docs` once the futures at positions `order` have completed, in that order. */
  function Collected(chunk: seq<string>, results: seq<FileResult>, order: seq<nat>): seq<Doc>
    requires |results| == |chunk| && Indices(order, |chunk|)
  {
    if order == [] then []
    else Collected(chunk, results, order[..|order| - 1]) + Accepted(chunk, results, order[|order| - 1])
  }

  /** How many of those futures gave an error entry or crashed. */
  function Failures(results: seq<FileResult>, order: seq<nat>): nat
    requires Indices(order, |results|)
  {
    if order == [] then 0
    else Failures(results, order[..|order| - 1]) + (if results[order[|order| - 1]].Document? then 0 else 1)
  }

  /** Every completed future is counted once: as a document or as a failure. */
  lemma {:induction false} CollectedCount(chunk: seq<string>, results: seq<FileResult>, order: seq<nat>)
    requires |results| == |chunk| && Indices(order, |chunk|)
    ensures |Collected(chunk, results, order)| + Failures(results, order) == |order|
  {
    if order != [] {
      CollectedCount(chunk, results, order[..|order| - 1]);
    }
  }

  lemma {:induction false} CollectedAppend(chunk: seq<string>, results: seq<FileResult>, a: seq<nat>, b: seq<nat>)
    requires |results| == |chunk| && Indices(a, |chunk|) && Indices(b, |chunk|)
    ensures Indices(a + b, |chunk|)
    ensures Collected(chunk, results, a + b) == Collected(chunk, results, a) + Collected(chunk, results, b)
    decreases |b|
  {
    if b == [] {
      assert a + b == a;
    } else {
      var b', y := b[..|b| - 1], b[|b| - 1];
      IndicesSplit(b, |b| - 1, |chunk|);
      assert b == b' + [y];
      assert a + b == (a + b') + [y];
      CollectedAppend(chunk, results, a, b');
      CollectedSnoc(chunk, results, a + b', y);
      CollectedSnoc(chunk, results, b', y);
    }
  }

  /**
   * The documents collected do not depend on the completion order, up to
   * their order: two orders that complete the same futures collect the same
   * documents.
   */
  lemma {:induction false} CollectedPermutation(chunk: seq<string>, results: seq<FileResult>,
                                                o1: seq<nat>, o2: seq<nat>)
    requires |results| == |chunk| && Indices(o1, |chunk|) && Indices(o2, |chunk|)
    requires multiset(o1) == multiset(o2)
    ensures multiset(Collected(chunk, results, o1)) == multiset(Collected(chunk, results, o2))
    decreases |o1|
  {
    assert |o1| == |multiset(o1)| == |multiset(o2)| == |o2|;
    if o1 != [] {
      var n := |o1|;
      var x := o1[n - 1];
      var front := o1[..n - 1];
      var i := Position(o2, x, multiset(o1));
      var a, b := o2[..i], o2[i + 1..];
      PermutationStep(o1, o2, i);
      IndicesSplit(o1, n - 1, |chunk|);
      IndicesSplit(o2, i, |chunk|);
      CollectedSplit(chunk, results, a, x, b);
      CollectedSnoc(chunk, results, front, x);
      CollectedPermutation(chunk, results, front, a + b);
      var cx := multiset(Accepted(chunk, results, x));
      calc {
        multiset(Collected(chunk, results, o1));
        multiset(Collected(chunk, results, front)) + cx;
        multiset(Collected(chunk, results, a + b)) + cx;
        multiset(Collected(chunk, results, o2));
      }
    }
  }

  /** A position of `x` in `o`, which holds it. */
  lemma Position(o: seq<nat>, x: nat, m: multiset<nat>) returns (i: nat)
    requires m == multiset(o) && x in m
    ensures i < |o| && o[i] == x
  {
    assert x in o;
    i :| 0 <= i < |o| && o[i] == x;
  }

  /** Taking the last element of one order and the same element out of another keeps them permutations. */
  lemma PermutationStep(o1: seq<nat>, o2: seq<nat>, i: nat)
    requires multiset(o1) == multiset(o2) && o1 != [] && i < |o2| && o2[i] == o1[|o1| - 1]
    ensures o1 == o1[..|o1| - 1] + [o2[i]] && o2 == o2[..i] + [o2[i]] + o2[i + 1..]
    ensures multiset(o1[..|o1| - 1]) == multiset(o2[..i] + o2[i + 1..])
  {
    var x := o2[i];
    assert o1 == o1[..|o1| - 1] + [x];
    assert o2 == o2[..i] + [x] + o2[i + 1..];
    assert multiset(o1[..|o1| - 1]) == multiset(o1) - multiset{x};
    assert multiset(o2[..i] + o2[i + 1..]) == multiset(o2) - multiset{x};
  }

  lemma IndicesSplit(o: seq<nat>, i: nat, n: nat)
    requires Indices(o, n) && i < |o|
    ensures Indices(o[..i], n) && o[i] < n && Indices(o[i + 1..], n)
  {
  }

  /** What the future `x` completing between the others contributes. */
  lemma CollectedSplit(chunk: seq<string>, results: seq<FileResult>, a: seq<nat>, x: nat, b: seq<nat>)
    requires |results| == |chunk| && Indices(a, |chunk|) && x < |chunk| && Indices(b, |chunk|)
    ensures Indices(a + [x] + b, |chunk|) && Indices(a + b, |chunk|)
    ensures multiset(Collected(chunk, results, a + [x] + b))
         == multiset(Collected(chunk, results, a + b)) + multiset(Accepted(chunk, results, x))
  {
    var ca, cb := Collected(chunk, results, a), Collected(chunk, results, b);
    var cx := Accepted(chunk, results, x);
    CollectedAppend(chunk, results, a, b);
    CollectedSnoc(chunk, results, a, x);
    CollectedAppend(chunk, results, a + [x], b);
    MultisetMiddle(ca, cx, cb);
  }

  lemma CollectedSnoc(chunk: seq<string>, results: seq<FileResult>, a: seq<nat>, x: nat)
    requires |results| == |chunk| && Indices(a, |chunk|) && x < |chunk|
    ensures Indices(a + [x], |chunk|)
    ensures Collected(chunk, results, a + [x]) == Collected(chunk, results, a) + Accepted(chunk, results, x)
  {
    assert (a + [x])[..|a|] == a;
  }

  lemma MultisetMiddle<T>(a: seq<T>, x: seq<T>, b: seq<T>)
    ensures multiset(a + x + b) == multiset(a + b) + multiset(x)
  {
  }

  /** `0, 1, …, n - 1`: the completion order that follows the chunk. */
  function Range(n: nat): (r: seq<nat>)
    ensures |r| == n && forall k :: 0 <= k < n ==> r[k] == k
  {
    if n == 0 then [] else Range(n - 1) + [n - 1]
  }

  /** A chunk cut from a queue without repeated paths. */
  ghost predicate Distinct(chunk: seq<string>) {
    forall i, j :: 0 <= i < j < |chunk| ==> chunk[i] != chunk[j]
  }

  /** Documents whose `_order`s are below `m` and strictly increasing. */
  ghost predicate OrderedBelow(c: seq<Doc>, m: nat) {
    (forall k :: 0 <= k < |c| ==> c[k].order < m)
    && (forall k, l :: 0 <= k < l < |c| ==> c[k].order < c[l].order)
  }

  /**
   * Collected in chunk order, the documents of the first `m` positions carry
   * strictly increasing `_order`s below `m`.
   */
  lemma {:induction false} InChunkOrder(chunk: seq<string>, results: seq<FileResult>, m: nat)
    requires |results| == |chunk| && Distinct(chunk) && m <= |chunk|
    ensures Indices(Range(m), |chunk|)
    ensures OrderedBelow(Collected(chunk, results, Range(m)), m)
  {
    if m > 0 {
      InChunkOrder(chunk, results, m - 1);
      assert Range(m)[..m - 1] == Range(m - 1);
      var prev := Collected(chunk, results, Range(m - 1));
      var last := Accepted(chunk, results, m - 1);
      assert Collected(chunk, results, Range(m)) == prev + last;
      assert chunk[IndexOf(chunk, chunk[m - 1])] == chunk[m - 1];
      assert forall d :: d in last ==> d.order == m - 1;
      var c := prev + last;
      forall k | 0 <= k < |c| ensures c[k].order < m {
        if k >= |prev| {
          assert c[k] in last;
        } else {
          assert c[k] == prev[k];
        }
      }
      forall k, l | 0 <= k < l < |c| ensures c[k].order < c[l].order {
        if l >= |prev| {
          assert c[l] in last;
          assert c[k] == prev[k];
        } else {
          assert c[k] == prev[k] && c[l] == prev[l];
        }
      }
    }
  }

  /**
   * When the futures of a chunk of distinct paths all complete, whatever
   * the order, `processed_docs.sort(key=_order)` gives the documents in
   * chunk order.
   */
  lemma BatchOrderIndependent(chunk: seq<string>, results: seq<FileResult>, completion: seq<nat>)
    requires |results| == |chunk| && Distinct(chunk) && Indices(completion, |chunk|)
    requires multiset(completion) == multiset(Range(|chunk|))
    ensures SortBy(Collected(chunk, results, completion), OrderKey, IntOrder())
         == Collected(chunk, results, Range(|chunk|))
  {
    var n := |chunk|;
    var a := SortBy(Collected(chunk, results, completion), OrderKey, IntOrder());
    var b := Collected(chunk, results, Range(n));
    IntOrderTotal();
    SortBySorted(Collected(chunk, results, completion), OrderKey, IntOrder());
    InChunkOrder(chunk, results, n);
    CollectedPermutation(chunk, results, completion, Range(n));
    SortedUnique(b, a, OrderKey, IntOrder());
  }

  /**
   * The results of a chunk's futures, by position: `process_single_file`
   * on each path.
   */
  function Results(lib: Library, prefix: string, chunk: seq<string>): (r: seq<FileResult>)
    ensures |r| == |chunk|
    ensures forall i :: 0 <= i < |chunk| ==> r[i] == ProcessSingleFile(lib, chunk[i], prefix)
  {
    seq(|chunk|, i requires 0 <= i < |chunk| => ProcessSingleFile(lib, chunk[i], prefix))
  }

  /** `processed_docs` of a batch once sorted by `_order`. */
  function BatchDocs(lib: Library, prefix: string, chunk: seq<string>, completion: seq<nat>): seq<Doc>
    requires Indices(completion, |chunk|)
  {
    SortBy(Collected(chunk, Results(lib, prefix, chunk), completion), OrderKey, IntOrder())
  }

  /**
   * One batch, once the futures of `chunk` are submitted and their results
   * are `results`: the futures are handed back in the order `completion`;
   * each error entry or crash counts as a failure, each document is kept
   * with its `_order`, and the documents are then sorted by it.
   */
  method CollectBatch(chunk: seq<string>, results: seq<FileResult>, completion: seq<nat>)
    returns (docs: seq<Doc>, failed: nat)
    requires |results| == |chunk| && Indices(completion, |chunk|)
    ensures docs == SortBy(Collected(chunk, results, completion), OrderKey, IntOrder())
    ensures |docs| + failed == |completion|
  {
    docs, failed := [], 0;
    var k := 0;
    while k < |completion|
      invariant k <= |completion|
      invariant Indices(completion[..k], |chunk|)
      invariant docs == Collected(chunk, results, completion[..k])
      invariant failed == Failures(results, completion[..k])
    {
      var i := completion[k];
      CollectStep(chunk, results, completion, k);
      match results[i] {
        case Document(id, h, t, x) =>
          docs := docs + [Doc(IndexOf(chunk, chunk[i]), id, h, t, x)];
        case _ =>
          failed := failed + 1;
      }
      k := k + 1;
    }
    assert completion[..k] == completion;
    CollectedCount(chunk, results, completion);
    docs := SortBy(docs, OrderKey, IntOrder());
  }

  lemma CollectStep(chunk: seq<string>, results: seq<FileResult>, completion: seq<nat>, k: nat)
    requires |results| == |chunk| && Indices(completion, |chunk|) && k < |completion|
    ensures Indices(completion[..k], |chunk|) && Indices(completion[..k + 1], |chunk|)
    ensures Collected(chunk, results, completion[..k + 1])
         == Collected(chunk, results, completion[..k]) + Accepted(chunk, results, completion[k])
    ensures Failures(results, completion[..k + 1])
         == Failures(results, completion[..k]) + (if results[completion[k]].Document? then 0 else 1)
  {
    assert completion[..k + 1][..k] == completion[..k];
  }

  // ---------------------------------------------------------------------------
  // Soft wrap
  // ---------------------------------------------------------------------------

  /** Longest run of non-newline characters the knowledge file keeps on one line. */
  const WRAP_WIDTH: nat := 10000

  /**
   * The soft wrap, character by character, after `col` non-newline
   * characters on the current line: a run of `WRAP_WIDTH` or more
   * non-newline characters is cut into pieces of `WRAP_WIDTH` joined by
   * newlines, so a newline goes in front of each non-newline character that
   * would be the `WRAP_WIDTH + 1`-th on its line; shorter runs are left alone.
   */
  function WrapFrom(s: string, col: nat): string
    requires col <= WRAP_WIDTH
  {
    if s == [] then []
    else if s[0] == '\n' then "\n" + WrapFrom(s[1..], 0)
    else if col == WRAP_WIDTH then "\n" + [s[0]] + WrapFrom(s[1..], 1)
    else [s[0]] + WrapFrom(s[1..], col + 1)
  }

  /** `re.sub(r'[^\n]{10000,}', <join 10000-character pieces with newlines>, s)` */
  function SoftWrap(s: string): string {
    WrapFrom(s, 0)
  }

  /** After `col` characters on the current line, no line of `r` exceeds `w` characters. */
  predicate LinesFit(r: string, col: nat, w: nat) {
    if r == [] then true
    else if r[0] == '\n' then LinesFit(r[1..], 0, w)
    else col < w && LinesFit(r[1..], col + 1, w)
  }

  /** `r` is `s` with newlines inserted and nothing else changed. */
  predicate NewlinesInserted(r: string, s: string) {
    if r == [] then s == []
    else
      || (s != [] && r[0] == s[0] && NewlinesInserted(r[1..], s[1..]))
      || (r[0] == '\n' && NewlinesInserted(r[1..], s))
  }

  /** After the soft wrap no line is longer than `WRAP_WIDTH`. */
  lemma {:induction false} WrapFits(s: string, col: nat)
    requires col <= WRAP_WIDTH
    ensures LinesFit(WrapFrom(s, col), col, WRAP_WIDTH)
  {
    if s != [] {
      var r := WrapFrom(s, col);
      if s[0] == '\n' {
        WrapFits(s[1..], 0);
        assert r[1..] == WrapFrom(s[1..], 0);
      } else if col == WRAP_WIDTH {
        WrapFits(s[1..], 1);
        assert r[1..][1..] == WrapFrom(s[1..], 1);
      } else {
        WrapFits(s[1..], col + 1);
        assert r[1..] == WrapFrom(s[1..], col + 1);
      }
    }
  }

  /** The soft wrap only inserts newlines: removing them gives the text back. */
  lemma {:induction false} WrapInserts(s: string, col: nat)
    requires col <= WRAP_WIDTH
    ensures NewlinesInserted(WrapFrom(s, col), s)
  {
    if s != [] {
      var r := WrapFrom(s, col);
      if s[0] == '\n' {
        WrapInserts(s[1..], 0);
        assert r[1..] == WrapFrom(s[1..], 0);
      } else if col == WRAP_WIDTH {
        WrapInserts(s[1..], 1);
        assert r[1..][1..] == WrapFrom(s[1..], 1);
        assert r[1..][0] == s[0];
      } else {
        WrapInserts(s[1..], col + 1);
        assert r[1..] == WrapFrom(s[1..], col + 1);
      }
    }
  }

  /**
   * Text whose lines already fit is left unchanged, so wrapping twice is
   * wrapping once.
   */
  lemma {:induction false} WrapKeepsFittingText(s: string, col: nat)
    requires col <= WRAP_WIDTH && LinesFit(s, col, WRAP_WIDTH)
    ensures WrapFrom(s, col) == s
  {
    if s != [] {
      if s[0] == '\n' {
        WrapKeepsFittingText(s[1..], 0);
      } else {
        WrapKeepsFittingText(s[1..], col + 1);
      }
      assert s == [s[0]] + s[1..];
    }
  }

  lemma SoftWrapIdempotent(s: string)
    ensures SoftWrap(SoftWrap(s)) == SoftWrap(s)
  {
    WrapFits(s, 0);
    WrapKeepsFittingText(SoftWrap(s), 0);
  }

  // ---------------------------------------------------------------------------
  // The knowledge file of a batch
  // ---------------------------------------------------------------------------

  /** The table-of-contents entry of a document. */
  function TocLine(d: Doc): string {
    "[DocID: " + d.shortId + " (" + d.fullHash + ") | Title: " + d.title + "]\n"
  }

  function TocLines(docs: seq<Doc>): string {
    if docs == [] then [] else TocLine(docs[0]) + TocLines(docs[1..])
  }

  function SectionOpen(d: Doc): string {
    "[START OF DOCUMENT: " + d.shortId + " | Title: " + d.title + "]\n\n"
  }

  function SectionClose(d: Doc): string {
    "\n\n[END OF DOCUMENT: " + d.shortId + "]\n---\n\n"
  }

  /** A document's section: its sanitised, soft-wrapped text between the two delimiters. */
  function Section(d: Doc, nfkc: string -> string): string {
    SectionOpen(d) + SoftWrap(SanitizeText(d.text, nfkc)) + SectionClose(d)
  }

  function Sections(docs: seq<Doc>, nfkc: string -> string): string {
    if docs == [] then [] else Section(docs[0], nfkc) + Sections(docs[1..], nfkc)
  }

  const TOC_START := "\n--- TABLE OF CONTENTS ---\n"
  const TOC_END := "--- END OF TOC ---\n\n"

  /**
   * The content of a batch's knowledge file: the header, the table of
   * contents and the sections, in document order.
   */
  function KnowledgeText(header: string, docs: seq<Doc>, nfkc: string -> string): string {
    header + TOC_START + TocLines(docs) + TOC_END + Sections(docs, nfkc)
  }

  /**
   * Between a section's delimiters lies the sanitised text with newlines
   * inserted and no line longer than `WRAP_WIDTH`.
   */
  lemma SectionBody(d: Doc, nfkc: string -> string)
    ensures var r := Section(d, nfkc);
      var body := r[|SectionOpen(d)|..|r| - |SectionClose(d)|];
      StartsWith(r, SectionOpen(d)) && EndsWith(r, SectionClose(d))
      && NewlinesInserted(body, SanitizeText(d.text, nfkc))
      && LinesFit(body, 0, WRAP_WIDTH)
  {
    var w := SoftWrap(SanitizeText(d.text, nfkc));
    var r := Section(d, nfkc);
    assert r[|SectionOpen(d)|..|r| - |SectionClose(d)|] == w;
    WrapFits(SanitizeText(d.text, nfkc), 0);
    WrapInserts(SanitizeText(d.text, nfkc), 0);
  }

  /** The file written for a batch, if it has documents. */
  datatype KnowledgeFile = KnowledgeFile(name: string, content: string)

  /** `f"{base_name}_{batch_num}.txt"` */
  function BatchName(baseName: string, batch: nat): string {
    baseName + "_" + NatToDecimal(batch) + ".txt"
  }

  /** The chunks and, for each, the order its futures complete in. */
  predicate Schedules(chunks: seq<seq<string>>, completions: seq<seq<nat>>) {
    |completions| == |chunks| && forall b :: 0 <= b < |chunks| ==> Indices(completions[b], |chunks[b]|)
  }

  /** `as_completed` hands back every future of the chunk exactly once. */
  ghost predicate CompletesAll(completion: seq<nat>, n: nat) {
    Indices(completion, n) && multiset(completion) == multiset(Range(n))
  }

  /** What batch number `batch` writes: nothing when it has no documents. */
  function BatchFile(lib: Library, prefix: string, baseName: string, header: string,
                     chunk: seq<string>, completion: seq<nat>, batch: nat): seq<KnowledgeFile>
    requires Indices(completion, |chunk|)
  {
    var docs := BatchDocs(lib, prefix, chunk, completion);
    if docs == [] then [] else [KnowledgeFile(BatchName(baseName, batch), KnowledgeText(header, docs, lib.nfkc))]
  }

  /** The files written for the batches, numbered from 1. */
  function Written(lib: Library, prefix: string, baseName: string, header: string,
                   chunks: seq<seq<string>>, completions: seq<seq<nat>>): seq<KnowledgeFile>
    requires Schedules(chunks, completions)
    decreases |chunks|
  {
    if chunks == [] then []
    else
      var n := |chunks| - 1;
      Written(lib, prefix, baseName, header, chunks[..n], completions[..n])
      + BatchFile(lib, prefix, baseName, header, chunks[n], completions[n], n + 1)
  }

  /** `total_processed`: the documents of all batches. */
  function Processed(lib: Library, prefix: string, chunks: seq<seq<string>>, completions: seq<seq<nat>>): nat
    requires Schedules(chunks, completions)
    decreases |chunks|
  {
    if chunks == [] then 0
    else
      var n := |chunks| - 1;
      Processed(lib, prefix, chunks[..n], completions[..n]) + |BatchDocs(lib, prefix, chunks[n], completions[n])|
  }

  /**
   * `_process_documents_worker`: the queue is sorted by file name and cut
   * into chunks of `chunkSize`; for each chunk the futures are submitted,
   * collected in the order `completions` gives for it, and a knowledge file
   * is written when the batch has documents. Every path is counted once, as
   * processed or as failed.
   */
  method ProcessDocuments(lib: Library, queue: seq<string>, baseName: string, chunkSize: nat,
                          prefix: string, header: string, completions: seq<seq<nat>>)
    returns (files: seq<KnowledgeFile>, processed: nat, failed: nat)
    requires chunkSize >= 1
    requires Schedules(Chunks(SortedQueue(queue), chunkSize), completions)
    requires forall b :: 0 <= b < |completions| ==>
      CompletesAll(completions[b], |Chunks(SortedQueue(queue), chunkSize)[b]|)
    ensures files == Written(lib, prefix, baseName, header, Chunks(SortedQueue(queue), chunkSize), completions)
    ensures processed == Processed(lib, prefix, Chunks(SortedQueue(queue), chunkSize), completions)
    ensures processed + failed == |queue|
  {
    var paths := SortedQueue(queue);
    var chunks := Chunks(paths, chunkSize);
    files, processed, failed := [], 0, 0;
    var b := 0;
    while b < |chunks|
      invariant b <= |chunks|
      invariant Schedules(chunks[..b], completions[..b])
      invariant files == Written(lib, prefix, baseName, header, chunks[..b], completions[..b])
      invariant processed == Processed(lib, prefix, chunks[..b], completions[..b])
      invariant processed + failed == |Concat(chunks[..b])|
    {
      var file, count, bad := WriteBatch(lib, prefix, baseName, header, chunks[b], completions[b], b + 1);
      BatchStep(lib, prefix, baseName, header, chunks, completions, b);
      files, processed, failed := files + file, processed + count, failed + bad;
      b := b + 1;
    }
    assert chunks[..b] == chunks && completions[..b] == completions;
    ChunksCover(paths, chunkSize);
  }

  /**
   * One pass of the worker's loop: the chunk's futures are submitted and
   * collected, and the batch's knowledge file is written if it has
   * documents. Returns the file (if any), the documents written and the
   * failures.
   */
  method WriteBatch(lib: Library, prefix: string, baseName: string, header: string,
                    chunk: seq<string>, completion: seq<nat>, batch: nat)
    returns (file: seq<KnowledgeFile>, count: nat, bad: nat)
    requires CompletesAll(completion, |chunk|)
    ensures file == BatchFile(lib, prefix, baseName, header, chunk, completion, batch)
    ensures count == |BatchDocs(lib, prefix, chunk, completion)|
    ensures count + bad == |chunk|
  {
    var results := Results(lib, prefix, chunk);
    var docs;
    docs, bad := CollectBatch(chunk, results, completion);
    CompletionLength(completion, |chunk|);
    count := |docs|;
    if docs == [] {
      file := [];
    } else {
      file := [KnowledgeFile(BatchName(baseName, batch), KnowledgeText(header, docs, lib.nfkc))];
    }
  }

  lemma CompletionLength(completion: seq<nat>, n: nat)
    requires CompletesAll(completion, n)
    ensures |completion| == n
  {
    assert |completion| == |multiset(completion)| == |multiset(Range(n))| == n;
  }

  /** What the worker's state is after one more batch. */
  lemma BatchStep(lib: Library, prefix: string, baseName: string, header: string,
                  chunks: seq<seq<string>>, completions: seq<seq<nat>>, b: nat)
    requires Schedules(chunks, completions) && b < |chunks|
    ensures Schedules(chunks[..b], completions[..b]) && Schedules(chunks[..b + 1], completions[..b + 1])
    ensures Written(lib, prefix, baseName, header, chunks[..b + 1], completions[..b + 1])
         == Written(lib, prefix, baseName, header, chunks[..b], completions[..b])
            + BatchFile(lib, prefix, baseName, header, chunks[b], completions[b], b + 1)
    ensures Processed(lib, prefix, chunks[..b + 1], completions[..b + 1])
         == Processed(lib, prefix, chunks[..b], completions[..b])
            + |BatchDocs(lib, prefix, chunks[b], completions[b])|
    ensures Concat(chunks[..b + 1]) == Concat(chunks[..b]) + chunks[b]
  {
    var cs, os := chunks[..b + 1], completions[..b + 1];
    assert cs[..b] == chunks[..b] && os[..b] == completions[..b];
    assert cs[b] == chunks[b] && os[b] == completions[b];
    WrittenSnoc(lib, prefix, baseName, header, cs, os);
    ProcessedSnoc(lib, prefix, cs, os);
    ConcatPrefix(chunks, b);
  }

  lemma ConcatPrefix(chunks: seq<seq<string>>, b: nat)
    requires b < |chunks|
    ensures Concat(chunks[..b + 1]) == Concat(chunks[..b]) + chunks[b]
  {
    ConcatAppend(chunks[..b], [chunks[b]]);
    assert chunks[..b + 1] == chunks[..b] + [chunks[b]];
    assert Concat([chunks[b]]) == chunks[b] by {
      assert [chunks[b]][1..] == [];
    }
  }

  lemma WrittenSnoc(lib: Library, prefix: string, baseName: string, header: string,
                    chunks: seq<seq<string>>, completions: seq<seq<nat>>)
    requires Schedules(chunks, completions) && chunks != []
    ensures var n := |chunks| - 1;
      Schedules(chunks[..n], completions[..n])
      && Written(lib, prefix, baseName, header, chunks, completions)
         == Written(lib, prefix, baseName, header, chunks[..n], completions[..n])
            + BatchFile(lib, prefix, baseName, header, chunks[n], completions[n], n + 1)
  {
  }

  lemma ProcessedSnoc(lib: Library, prefix: string, chunks: seq<seq<string>>, completions: seq<seq<nat>>)
    requires Schedules(chunks, completions) && chunks != []
    ensures var n := |chunks| - 1;
      Schedules(chunks[..n], completions[..n])
      && Processed(lib, prefix, chunks, completions)
         == Processed(lib, prefix, chunks[..n], completions[..n]) + |BatchDocs(lib, prefix, chunks[n], completions[n])|
  {
  }

  // ---------------------------------------------------------------------------
  // The files do not depend on the completion order
  // ---------------------------------------------------------------------------

  /** Every chunk's futures completing in chunk order. */
  function InOrder(chunks: seq<seq<string>>): (o: seq<seq<nat>>)
    ensures Schedules(chunks, o)
  {
    seq(|chunks|, b requires 0 <= b < |chunks| => Range(|chunks[b]|))
  }

  lemma {:induction false} DistinctCount(a: seq<string>, x: string)
    requires Distinct(a)
    ensures multiset(a)[x] <= 1
  {
    if a != [] {
      assert a == [a[0]] + a[1..];
      assert a[0] !in a[1..];
      DistinctCount(a[1..], x);
    }
  }

  lemma RepeatCount(b: seq<string>, i: nat, j: nat)
    requires i < j < |b|
    ensures b[i] == b[j] ==> multiset(b)[b[i]] >= 2
  {
    assert b == b[..j] + [b[j]] + b[j + 1..];
    assert b[i] in b[..j];
  }

  /** Reordering a queue without repeated paths gives one without repeated paths. */
  lemma DistinctPermutation(a: seq<string>, b: seq<string>)
    requires Distinct(a) && multiset(a) == multiset(b)
    ensures Distinct(b)
  {
    forall i, j | 0 <= i < j < |b| ensures b[i] != b[j] {
      RepeatCount(b, i, j);
      DistinctCount(a, b[i]);
    }
  }

  /** The chunks of a queue without repeated paths have none either. */
  lemma DistinctChunks(s: seq<string>, size: nat, k: nat)
    requires size >= 1 && Distinct(s) && k < |Chunks(s, size)|
    ensures Distinct(Chunks(s, size)[k])
  {
    ChunkAt(s, size, k);
    var lo := k * size;
    var c := Chunks(s, size)[k];
    forall i, j | 0 <= i < j < |c| ensures c[i] != c[j] {
      assert c[i] == s[lo + i] && c[j] == s[lo + j];
    }
  }

  /**
   * Over batches whose chunks have no repeated path, the files written and
   * the documents counted are those of the chunk-order completion.
   */
  lemma {:induction false} WrittenOrderIndependent(lib: Library, prefix: string, baseName: string, header: string,
                                                   chunks: seq<seq<string>>, completions: seq<seq<nat>>)
    requires Schedules(chunks, completions)
    requires forall b :: 0 <= b < |chunks| ==> Distinct(chunks[b]) && CompletesAll(completions[b], |chunks[b]|)
    ensures Written(lib, prefix, baseName, header, chunks, completions)
         == Written(lib, prefix, baseName, header, chunks, InOrder(chunks))
    ensures Processed(lib, prefix, chunks, completions) == Processed(lib, prefix, chunks, InOrder(chunks))
    decreases |chunks|
  {
    if chunks != [] {
      var n := |chunks| - 1;
      var inOrder := InOrder(chunks);
      assert inOrder[..n] == InOrder(chunks[..n]);
      assert Schedules(chunks[..n], completions[..n]);
      WrittenOrderIndependent(lib, prefix, baseName, header, chunks[..n], completions[..n]);
      BatchOrderIndependent(chunks[n], Results(lib, prefix, chunks[n]), completions[n]);
      IntOrderTotal();
      assert inOrder[n] == Range(|chunks[n]|);
      InChunkOrder(chunks[n], Results(lib, prefix, chunks[n]), |chunks[n]|);
      SortedIsSorted(Collected(chunks[n], Results(lib, prefix, chunks[n]), inOrder[n]));
    }
  }

  /** Documents already in `_order` are left where they are by the sort. */
  lemma SortedIsSorted(c: seq<Doc>)
    requires forall k, l :: 0 <= k < l < |c| ==> c[k].order < c[l].order
    ensures SortBy(c, OrderKey, IntOrder()) == c
  {
    IntOrderTotal();
    SortBySorted(c, OrderKey, IntOrder());
    SortedUnique(c, SortBy(c, OrderKey, IntOrder()), OrderKey, IntOrder());
  }

  /**
   * The documented outcome of the worker: for a queue without repeated
   * paths (the queue operations keep it so), the knowledge files and the
   * count of processed documents are the same whatever order the futures
   * complete in, and each batch's documents are in chunk order.
   */
  lemma WorkerDeterministic(lib: Library, queue: seq<string>, baseName: string, chunkSize: nat,
                            prefix: string, header: string, completions: seq<seq<nat>>)
    requires chunkSize >= 1 && Distinct(queue)
    requires Schedules(Chunks(SortedQueue(queue), chunkSize), completions)
    requires forall b :: 0 <= b < |completions| ==>
      CompletesAll(completions[b], |Chunks(SortedQueue(queue), chunkSize)[b]|)
    ensures var chunks := Chunks(SortedQueue(queue), chunkSize);
      Written(lib, prefix, baseName, header, chunks, completions)
        == Written(lib, prefix, baseName, header, chunks, InOrder(chunks))
      && Processed(lib, prefix, chunks, completions) == Processed(lib, prefix, chunks, InOrder(chunks))
  {
    var paths := SortedQueue(queue);
    var chunks := Chunks(paths, chunkSize);
    QueueSorted(queue, []);
    DistinctPermutation(queue, paths);
    forall b | 0 <= b < |chunks| ensures Distinct(chunks[b]) {
      DistinctChunks(paths, chunkSize, b);
    }
    WrittenOrderIndependent(lib, prefix, baseName, header, chunks, completions);
  }
}
