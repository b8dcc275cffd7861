/**
 * Text normalisation of the knowledge processor: `sanitize_text`, the prose
 * clean-up `_normalize_prose`, the code-span-preserving
 * `normalize_text_code_safe` and `_normalize_title_from_path`.
 * Unicode NFKC, `str.title()` and `str.isalnum()` come from Python's Unicode
 * database and are parameters.
 */
module Normalize {
  import opened PyStr

  // ---------------------------------------------------------------------------
  // sanitize_text
  // ---------------------------------------------------------------------------

  /** The characters the control filter deletes: C0 controls except tab, LF and CR, and DEL. */
  predicate IsStrippedControl(c: char) {
    var n := c as int;
    n <= 0x08 || n == 0x0B || n == 0x0C || (0x0E <= n <= 0x1F) || n == 0x7F
  }

  /** `s.replace('\r\n', '\n')`, scanning left to right. */
  function CrLfToLf(s: string): string {
    if s == [] then []
    else if |s| >= 2 && s[0] == '\r' && s[1] == '\n' then "\n" + CrLfToLf(s[2..])
    else [s[0]] + CrLfToLf(s[1..])
  }

  /** `s.replace('\r', '\n')` */
  function CrToLf(s: string): string {
    if s == [] then [] else [if s[0] == '\r' then '\n' else s[0]] + CrToLf(s[1..])
  }

  /** `control_filter.sub('', s)` */
  function DropControls(s: string): string {
    if s == [] then []
    else if IsStrippedControl(s[0]) then DropControls(s[1..])
    else [s[0]] + DropControls(s[1..])
  }

  function SanitizeText(s: string, nfkc: string -> string): string {
    DropControls(CrToLf(CrLfToLf(nfkc(s))))
  }

  /** No carriage return and no character the control filter deletes. */
  predicate Clean(s: string) {
    forall i :: 0 <= i < |s| ==> s[i] != '\r' && !IsStrippedControl(s[i])
  }

  lemma {:induction false} CrToLfNoCr(s: string)
    ensures '\r' !in CrToLf(s)
  {
    if s != [] { CrToLfNoCr(s[1..]); }
  }

  lemma {:induction false} DropControlsClean(s: string)
    requires '\r' !in s
    ensures Clean(DropControls(s))
  {
    if s != [] {
      assert '\r' !in s[1..] by { assert forall i :: 0 <= i < |s| - 1 ==> s[1..][i] == s[i + 1]; }
      DropControlsClean(s[1..]);
      assert s[0] != '\r' by { assert s[0] in s; }
    }
  }

  /** After sanitising there is no '\r' and no deleted control character. */
  lemma SanitizedIsClean(s: string, nfkc: string -> string)
    ensures Clean(SanitizeText(s, nfkc))
  {
    var t := CrToLf(CrLfToLf(nfkc(s)));
    CrToLfNoCr(CrLfToLf(nfkc(s)));
    DropControlsClean(t);
  }

  lemma {:induction false} CleanUntouched(s: string)
    requires Clean(s)
    ensures CrLfToLf(s) == s && CrToLf(s) == s && DropControls(s) == s
  {
    if s != [] {
      assert s[0] != '\r' && !IsStrippedControl(s[0]);
      CleanUntouched(s[1..]);
    }
  }

  /** Text that is already clean after NFKC comes through unchanged. */
  lemma SanitizeKeepsCleanText(s: string, nfkc: string -> string)
    requires Clean(nfkc(s))
    ensures SanitizeText(s, nfkc) == nfkc(s)
  {
    CleanUntouched(nfkc(s));
  }

  lemma {:induction false} TabsSurvive(s: string)
    ensures Count(CrLfToLf(s), '\t') == Count(s, '\t')
    ensures Count(CrToLf(s), '\t') == Count(s, '\t')
    ensures Count(DropControls(s), '\t') == Count(s, '\t')
  {
    if s != [] {
      TabsSurvive(s[1..]);
      if |s| >= 2 && s[0] == '\r' && s[1] == '\n' {
        TabsSurvive(s[2..]);
        assert s[1..][1..] == s[2..];
      }
    }
  }

  /** Every tab survives sanitising. */
  lemma SanitizeKeepsTabs(s: string, nfkc: string -> string)
    ensures Count(SanitizeText(s, nfkc), '\t') == Count(nfkc(s), '\t')
  {
    TabsSurvive(nfkc(s));
    TabsSurvive(CrLfToLf(nfkc(s)));
    TabsSurvive(CrToLf(CrLfToLf(nfkc(s))));
  }

  /** Every line break ("\r\n", a lone "\r" or "\n") becomes exactly one '\n'. */
  function LineBreaks(s: string): nat {
    if s == [] then 0
    else if |s| >= 2 && s[0] == '\r' && s[1] == '\n' then 1 + LineBreaks(s[2..])
    else (if s[0] == '\r' || s[0] == '\n' then 1 else 0) + LineBreaks(s[1..])
  }

  lemma {:induction false} NewlinesCounted(s: string)
    ensures Count(CrToLf(CrLfToLf(s)), '\n') == LineBreaks(s)
  {
    if s != [] {
      if |s| >= 2 && s[0] == '\r' && s[1] == '\n' {
        NewlinesCounted(s[2..]);
      } else {
        NewlinesCounted(s[1..]);
      }
    }
  }

  lemma {:induction false} DropControlsKeepsNewlines(s: string)
    ensures Count(DropControls(s), '\n') == Count(s, '\n')
  {
    if s != [] { DropControlsKeepsNewlines(s[1..]); }
  }

  /** The sanitised text has one '\n' per line break of the normalised input. */
  lemma SanitizeNewlines(s: string, nfkc: string -> string)
    ensures Count(SanitizeText(s, nfkc), '\n') == LineBreaks(nfkc(s))
  {
    NewlinesCounted(nfkc(s));
    DropControlsKeepsNewlines(CrToLf(CrLfToLf(nfkc(s))));
  }

  // ---------------------------------------------------------------------------
  // _normalize_prose
  // ---------------------------------------------------------------------------

  predicate IsBlank(c: char) { c == ' ' || c == '\t' }

  /** `s` starts with a run of spaces and tabs followed by '\n'. */
  predicate BlanksThenNewline(s: string)
    decreases |s|
  {
    |s| > 0 && (s[0] == '\n' || (IsBlank(s[0]) && BlanksThenNewline(s[1..])))
  }

  /** `re.sub(r"[ \t]+(?=\n)", '', s)`: a space or tab is deleted when only blanks separate it from a '\n'. */
  function TrimLineEnds(s: string): string {
    if s == [] then []
    else if IsBlank(s[0]) && BlanksThenNewline(s[1..]) then TrimLineEnds(s[1..])
    else [s[0]] + TrimLineEnds(s[1..])
  }

  /** `re.sub(r"[ ]{2,}", ' ', s)`: a space followed by a space is deleted. */
  function CollapseSpaces(s: string): (r: string)
    ensures |s| > 0 ==> |r| > 0 && r[0] == s[0]
  {
    if |s| < 2 then s
    else if s[0] == ' ' && s[1] == ' ' then CollapseSpaces(s[1..])
    else [s[0]] + CollapseSpaces(s[1..])
  }

  /** `re.sub(r"\n{3,}", "\n\n", s)`: a '\n' followed by two more is deleted. */
  function LimitNewlines(s: string): (r: string)
    ensures |s| < 2 ==> r == s
    ensures |s| >= 2 ==> |r| >= 2 && r[..2] == s[..2]
  {
    if |s| < 3 then s
    else if s[0] == '\n' && s[1] == '\n' && s[2] == '\n' then LimitNewlines(s[1..])
    else [s[0]] + LimitNewlines(s[1..])
  }

  function NormalizeProse(s: string): string {
    Strip(LimitNewlines(CollapseSpaces(TrimLineEnds(s))))
  }

  predicate NoBlankBeforeNewline(s: string) {
    forall i :: 0 < i < |s| && s[i] == '\n' ==> !IsBlank(s[i - 1])
  }

  predicate NoDoubleSpace(s: string) {
    forall i :: 0 < i < |s| && s[i] == ' ' ==> s[i - 1] != ' '
  }

  predicate NoTripleNewline(s: string) {
    forall i :: 1 < i < |s| && s[i] == '\n' && s[i - 1] == '\n' ==> s[i - 2] != '\n'
  }

  /** The shape `_normalize_prose` promises for its result. */
  predicate ProseNormal(s: string) {
    NoBlankBeforeNewline(s) && NoDoubleSpace(s) && NoTripleNewline(s)
    && (s == [] || (!IsSpace(s[0]) && !IsSpace(s[|s| - 1])))
  }

  /** A text that does not start with blanks and a newline keeps its first character. */
  lemma TrimLineEndsHead(t: string)
    requires t != [] && !BlanksThenNewline(t)
    ensures TrimLineEnds(t) != [] && TrimLineEnds(t)[0] == t[0]
  {
  }

  lemma {:induction false} TrimLineEndsShape(s: string)
    ensures NoBlankBeforeNewline(TrimLineEnds(s))
  {
    if s != [] {
      TrimLineEndsShape(s[1..]);
      if !(IsBlank(s[0]) && BlanksThenNewline(s[1..])) {
        var r := TrimLineEnds(s);
        var rest := TrimLineEnds(s[1..]);
        assert r == [s[0]] + rest;
        if |r| > 1 && IsBlank(s[0]) {
          TrimLineEndsHead(s[1..]);
        }
        forall i | 0 < i < |r| && r[i] == '\n' ensures !IsBlank(r[i - 1]) {
          assert r[i] == rest[i - 1];
          if i > 1 { assert r[i - 1] == rest[i - 2]; }
        }
      }
    }
  }

  lemma NoBlankBeforeNewlineTail(s: string)
    requires s != [] && NoBlankBeforeNewline(s)
    ensures NoBlankBeforeNewline(s[1..])
  {
    forall i | 0 < i < |s| - 1 && s[1..][i] == '\n' ensures !IsBlank(s[1..][i - 1]) {
      assert s[i + 1] == '\n';
    }
  }

  /** In a text with no blank before a newline, a blank is never followed by blanks and a newline. */
  lemma {:induction false} BlankNotAtLineEnd(s: string)
    requires s != [] && IsBlank(s[0]) && NoBlankBeforeNewline(s)
    ensures !BlanksThenNewline(s[1..])
  {
    var t := s[1..];
    if t != [] {
      assert t[0] == s[1] && s[1] != '\n';
      if IsBlank(t[0]) {
        NoBlankBeforeNewlineTail(s);
        BlankNotAtLineEnd(t);
      }
    }
  }

  lemma {:induction false} TrimLineEndsIdentity(s: string)
    requires NoBlankBeforeNewline(s)
    ensures TrimLineEnds(s) == s
  {
    if s != [] {
      if IsBlank(s[0]) { BlankNotAtLineEnd(s); }
      NoBlankBeforeNewlineTail(s);
      TrimLineEndsIdentity(s[1..]);
    }
  }

  lemma {:induction false} CollapseSpacesShape(s: string)
    ensures NoDoubleSpace(CollapseSpaces(s))
    ensures NoBlankBeforeNewline(s) ==> NoBlankBeforeNewline(CollapseSpaces(s))
  {
    if |s| >= 2 {
      var rest := CollapseSpaces(s[1..]);
      CollapseSpacesShape(s[1..]);
      if NoBlankBeforeNewline(s) {
        NoBlankBeforeNewlineTail(s);
      }
      if !(s[0] == ' ' && s[1] == ' ') {
        var r := [s[0]] + rest;
        assert r == CollapseSpaces(s);
        assert r[1] == s[1];
        forall i | 0 < i < |r| ensures r[i] == rest[i - 1] { }
      }
    }
  }

  lemma {:induction false} CollapseSpacesIdentity(s: string)
    requires NoDoubleSpace(s)
    ensures CollapseSpaces(s) == s
  {
    if |s| >= 2 {
      assert !(s[0] == ' ' && s[1] == ' ');
      assert NoDoubleSpace(s[1..]) by {
        forall i | 0 < i < |s| - 1 && s[1..][i] == ' ' ensures s[1..][i - 1] != ' ' {
          assert s[i + 1] == ' ';
        }
      }
      CollapseSpacesIdentity(s[1..]);
    }
  }

  /** When no run of three newlines starts the text, its first character is kept. */
  lemma LimitNewlinesKeepsHead(s: string)
    requires |s| >= 3 && !(s[0] == '\n' && s[1] == '\n' && s[2] == '\n')
    ensures var r := LimitNewlines(s);
      r == [s[0]] + LimitNewlines(s[1..]) && r[1] == s[1] && r[2] == s[2]
  {
    assert LimitNewlines(s[1..])[..2] == s[1..3];
  }

  lemma {:induction false} LimitNewlinesNoTriple(s: string)
    ensures NoTripleNewline(LimitNewlines(s))
  {
    if |s| >= 3 {
      LimitNewlinesNoTriple(s[1..]);
      if !(s[0] == '\n' && s[1] == '\n' && s[2] == '\n') {
        var rest := LimitNewlines(s[1..]);
        var r := LimitNewlines(s);
        LimitNewlinesKeepsHead(s);
        forall i | 0 < i < |r| ensures r[i] == rest[i - 1] { }
      }
    }
  }

  lemma {:induction false} LimitNewlinesNoBlank(s: string)
    requires NoBlankBeforeNewline(s)
    ensures NoBlankBeforeNewline(LimitNewlines(s))
  {
    if |s| >= 3 {
      NoBlankBeforeNewlineTail(s);
      LimitNewlinesNoBlank(s[1..]);
      if !(s[0] == '\n' && s[1] == '\n' && s[2] == '\n') {
        var rest := LimitNewlines(s[1..]);
        var r := LimitNewlines(s);
        LimitNewlinesKeepsHead(s);
        forall i | 0 < i < |r| ensures r[i] == rest[i - 1] { }
      }
    }
  }

  lemma {:induction false} LimitNewlinesNoDouble(s: string)
    requires NoDoubleSpace(s)
    ensures NoDoubleSpace(LimitNewlines(s))
  {
    if |s| >= 3 {
      assert NoDoubleSpace(s[1..]) by {
        forall i | 0 < i < |s| - 1 && s[1..][i] == ' ' ensures s[1..][i - 1] != ' ' {
          assert s[i + 1] == ' ';
        }
      }
      LimitNewlinesNoDouble(s[1..]);
      if !(s[0] == '\n' && s[1] == '\n' && s[2] == '\n') {
        var rest := LimitNewlines(s[1..]);
        var r := LimitNewlines(s);
        LimitNewlinesKeepsHead(s);
        forall i | 0 < i < |r| ensures r[i] == rest[i - 1] { }
      }
    }
  }

  lemma {:induction false} LimitNewlinesIdentity(s: string)
    requires NoTripleNewline(s)
    ensures LimitNewlines(s) == s
  {
    if |s| >= 3 {
      assert !(s[0] == '\n' && s[1] == '\n' && s[2] == '\n');
      assert NoTripleNewline(s[1..]) by {
        forall i | 1 < i < |s| - 1 && s[1..][i] == '\n' && s[1..][i - 1] == '\n'
          ensures s[1..][i - 2] != '\n'
        {
          assert s[i + 1] == '\n' && s[i] == '\n';
        }
      }
      LimitNewlinesIdentity(s[1..]);
    }
  }

  /** A contiguous piece of a text keeps the three adjacency properties. */
  lemma PieceKeepsShape(s: string, r: string)
    requires Contains(s, r)
    requires NoBlankBeforeNewline(s) && NoDoubleSpace(s) && NoTripleNewline(s)
    ensures NoBlankBeforeNewline(r) && NoDoubleSpace(r) && NoTripleNewline(r)
  {
    var k: nat :| k <= |s| && OccursAt(s, r, k);
    assert forall i :: 0 <= i < |r| ==> r[i] == s[k + i];
  }

  /**
   * The result of `_normalize_prose` has no blank before a line end, no two
   * spaces in a row, no three newlines in a row and no surrounding whitespace.
   */
  lemma NormalizeProseShape(s: string)
    ensures ProseNormal(NormalizeProse(s))
  {
    var a := TrimLineEnds(s);
    var b := CollapseSpaces(a);
    var c := LimitNewlines(b);
    TrimLineEndsShape(s);
    CollapseSpacesShape(a);
    LimitNewlinesNoTriple(b);
    LimitNewlinesNoBlank(b);
    LimitNewlinesNoDouble(b);
    PieceKeepsShape(c, Strip(c));
  }

  lemma StripIdentity(s: string)
    requires s == [] || (!IsSpace(s[0]) && !IsSpace(s[|s| - 1]))
    ensures Strip(s) == s
  {
  }

  /** Normalising normalised prose changes nothing. */
  lemma NormalizeProseIdempotent(s: string)
    ensures NormalizeProse(NormalizeProse(s)) == NormalizeProse(s)
  {
    var r := NormalizeProse(s);
    NormalizeProseShape(s);
    TrimLineEndsIdentity(r);
    CollapseSpacesIdentity(r);
    LimitNewlinesIdentity(r);
    StripIdentity(r);
  }

  /** The characters of `s` that are not whitespace, in order. */
  function NonSpace(s: string): string {
    if s == [] then [] else (if IsSpace(s[0]) then [] else [s[0]]) + NonSpace(s[1..])
  }

  lemma {:induction false} NonSpaceAppend(a: string, b: string)
    ensures NonSpace(a + b) == NonSpace(a) + NonSpace(b)
  {
    if a == [] {
      assert a + b == b;
    } else {
      var h := if IsSpace(a[0]) then [] else [a[0]];
      assert (a + b)[0] == a[0] && (a + b)[1..] == a[1..] + b;
      NonSpaceAppend(a[1..], b);
      calc {
        NonSpace(a + b);
        h + NonSpace(a[1..] + b);
        h + (NonSpace(a[1..]) + NonSpace(b));
        (h + NonSpace(a[1..])) + NonSpace(b);
      }
    }
  }

  lemma {:induction false} NonSpaceAllSpace(s: string)
    requires AllSpace(s)
    ensures NonSpace(s) == []
  {
    if s != [] {
      assert IsSpace(s[0]);
      NonSpaceAllSpace(s[1..]);
    }
  }

  /** Deleting blanks before line ends keeps the other characters. */
  lemma {:induction false} TrimLineEndsKeepsText(s: string)
    ensures NonSpace(TrimLineEnds(s)) == NonSpace(s)
  {
    if s != [] {
      TrimLineEndsKeepsText(s[1..]);
      NonSpaceAppend([s[0]], TrimLineEnds(s[1..]));
      assert NonSpace(s) == NonSpace([s[0]]) + NonSpace(s[1..]);
    }
  }

  /** Collapsing runs of spaces keeps the other characters. */
  lemma {:induction false} CollapseSpacesKeepsText(s: string)
    ensures NonSpace(CollapseSpaces(s)) == NonSpace(s)
  {
    if |s| >= 2 {
      CollapseSpacesKeepsText(s[1..]);
      NonSpaceAppend([s[0]], CollapseSpaces(s[1..]));
      assert NonSpace(s) == NonSpace([s[0]]) + NonSpace(s[1..]);
    }
  }

  /** Limiting runs of newlines keeps the other characters. */
  lemma {:induction false} LimitNewlinesKeepsText(s: string)
    ensures NonSpace(LimitNewlines(s)) == NonSpace(s)
  {
    if |s| >= 3 {
      LimitNewlinesKeepsText(s[1..]);
      NonSpaceAppend([s[0]], LimitNewlines(s[1..]));
      assert NonSpace(s) == NonSpace([s[0]]) + NonSpace(s[1..]);
    }
  }

  lemma {:induction false} RStripKeepsText(s: string)
    ensures NonSpace(RStrip(s)) == NonSpace(s)
  {
    if s != [] && IsSpace(s[|s| - 1]) {
      var init := s[..|s| - 1];
      RStripKeepsText(init);
      assert s == init + [s[|s| - 1]];
      NonSpaceAppend(init, [s[|s| - 1]]);
    }
  }

  lemma {:induction false} LStripKeepsText(s: string)
    ensures NonSpace(LStrip(s)) == NonSpace(s)
  {
    if s != [] && IsSpace(s[0]) {
      LStripKeepsText(s[1..]);
    }
  }

  lemma StripKeepsText(s: string)
    ensures NonSpace(Strip(s)) == NonSpace(s)
  {
    RStripKeepsText(s);
    LStripKeepsText(RStrip(s));
  }

  /** `_normalize_prose` only deletes whitespace: every other character stays, in order. */
  lemma NormalizeProseKeepsText(s: string)
    ensures NonSpace(NormalizeProse(s)) == NonSpace(s)
  {
    var a := TrimLineEnds(s);
    var b := CollapseSpaces(a);
    TrimLineEndsKeepsText(s);
    CollapseSpacesKeepsText(a);
    LimitNewlinesKeepsText(b);
    StripKeepsText(LimitNewlines(b));
  }

  // ---------------------------------------------------------------------------
  // normalize_text_code_safe
  // ---------------------------------------------------------------------------

  /**
   * The delimiters of the code-span pattern: a fence that opens and closes a
   * block, and a start and an end marker.
   */
  datatype Delims = Delims(fence: string, open: string, close: string)

  /** The pattern's own delimiters. */
  const CODE_SPANS := Delims("```", "@@@CODEBLOCK_START@@@", "@@@CODEBLOCK_END@@@")

  /** Every delimiter is non-empty and opens with a non-space. */
  predicate ValidDelims(d: Delims) {
    d.fence != [] && d.open != [] && d.close != []
    && !IsSpace(d.fence[0]) && !IsSpace(d.open[0])
  }

  lemma CodeSpansValid()
    ensures ValidDelims(CODE_SPANS)
  {
    assert CODE_SPANS.fence[0] == '`' && CODE_SPANS.open[0] == '@';
  }

  /**
   * The end of the code span the pattern matches at exactly `i`, if any: an
   * opening fence and the nearest fence after it, else the start marker and
   * the nearest end marker after it (the lazy `.*?` of both alternatives).
   */
  function SpanAt(s: string, i: nat, d: Delims): (r: Option<nat>)
    requires i <= |s| && ValidDelims(d)
    ensures r.Some? ==> i < r.value <= |s|
  {
    if OccursAt(s, d.fence, i) && FindFrom(s, d.fence, i + |d.fence|).Some? then
      Some(FindFrom(s, d.fence, i + |d.fence|).value + |d.fence|)
    else if OccursAt(s, d.open, i) && FindFrom(s, d.close, i + |d.open|).Some? then
      Some(FindFrom(s, d.close, i + |d.open|).value + |d.close|)
    else None
  }

  /**
   * A table of matches: entry `k` is where the match starting at `k` would end,
   * if the pattern matches there. A match starting at one place does not depend
   * on where the search resumed, so `finditer` reads its matches off this table.
   */
  predicate SpanTable(m: seq<Option<nat>>) {
    |m| >= 1 && forall k :: 0 <= k < |m| && m[k].Some? ==> k < m[k].value < |m|
  }

  /** The table of the pattern's matches in `s`, one entry per position, `|s|` included. */
  function Matches(s: string, d: Delims): (m: seq<Option<nat>>)
    requires ValidDelims(d)
    ensures |m| == |s| + 1 && SpanTable(m)
    ensures forall k :: 0 <= k < |m| ==> m[k] == SpanAt(s, k, d)
  {
    seq(|s| + 1, k requires 0 <= k <= |s| => SpanAt(s, k, d))
  }

  datatype Span = Span(start: nat, end: nat)

  /** The next match of `finditer` when the search resumes at `from`: the leftmost span. */
  function NextSpan(m: seq<Option<nat>>, from: nat): (r: Option<Span>)
    requires from < |m| && SpanTable(m)
    ensures r.Some? ==> from <= r.value.start < r.value.end < |m|
    decreases |m| - from
  {
    match m[from]
    case Some(e) => Some(Span(from, e))
    case None => if from == |m| - 1 then None else NextSpan(m, from + 1)
  }

  /** The span found is a match, and no match starts earlier. */
  lemma {:induction false} NextSpanLeftmost(m: seq<Option<nat>>, from: nat)
    requires from < |m| && SpanTable(m)
    ensures NextSpan(m, from).Some? ==>
      var sp := NextSpan(m, from).value;
      m[sp.start] == Some(sp.end) && forall k :: from <= k < sp.start ==> m[k].None?
    ensures NextSpan(m, from).None? ==> forall k :: from <= k < |m| ==> m[k].None?
    decreases |m| - from
  {
    if m[from].None? && from < |m| - 1 {
      NextSpanLeftmost(m, from + 1);
      var r := NextSpan(m, from + 1);
      assert NextSpan(m, from) == r;
      if r.Some? {
        forall k | from <= k < r.value.start ensures m[k].None? {
          if k > from { assert from + 1 <= k; }
        }
      }
    }
  }

  /** A stretch of the sanitised text: prose between spans, or a code span. */
  datatype Piece = Prose(text: string) | Code(text: string)

  /** The prose gap before span `sp` when the search resumed at `from`, if not empty. */
  function Gap(s: string, from: nat, sp: Span): seq<Piece>
    requires from <= sp.start <= |s|
  {
    if from < sp.start then [Prose(s[from..sp.start])] else []
  }

  /** The split of `s[from..]` into prose gaps and code spans, as the loop walks it. */
  function Pieces(s: string, m: seq<Option<nat>>, from: nat): seq<Piece>
    requires |m| == |s| + 1 && SpanTable(m) && from <= |s|
    decreases |s| - from
  {
    match NextSpan(m, from)
    case None => if from < |s| then [Prose(s[from..])] else []
    case Some(sp) => Gap(s, from, sp) + [Code(s[sp.start..sp.end])] + Pieces(s, m, sp.end)
  }

  /** `Pieces` when a span follows, unfolded once. */
  lemma PiecesSome(s: string, m: seq<Option<nat>>, from: nat, sp: Span)
    requires |m| == |s| + 1 && SpanTable(m) && from <= |s| && NextSpan(m, from) == Some(sp)
    ensures Pieces(s, m, from) == Gap(s, from, sp) + [Code(s[sp.start..sp.end])] + Pieces(s, m, sp.end)
  {
  }

  /** A piece as it appears in the output: prose through `prose`, code verbatim. */
  function Render(p: Piece, prose: string -> string): string {
    match p
    case Prose(t) => prose(t)
    case Code(t) => t
  }

  function RenderAll(ps: seq<Piece>, prose: string -> string): (r: seq<string>)
    ensures |r| == |ps|
  {
    if ps == [] then [] else [Render(ps[0], prose)] + RenderAll(ps[1..], prose)
  }

  function Texts(ps: seq<Piece>): (r: seq<string>)
    ensures |r| == |ps|
  {
    if ps == [] then [] else [ps[0].text] + Texts(ps[1..])
  }

  /** `normalize_text_code_safe(s)` */
  function NormalizeCodeSafe(s: string, nfkc: string -> string): string {
    var t := SanitizeText(s, nfkc);
    CodeSpansValid();
    Concat(RenderAll(Pieces(t, Matches(t, CODE_SPANS), 0), NormalizeProse))
  }

  lemma {:induction false} RenderAllAppend(a: seq<Piece>, b: seq<Piece>, prose: string -> string)
    ensures RenderAll(a + b, prose) == RenderAll(a, prose) + RenderAll(b, prose)
  {
    if a == [] {
      assert a + b == b;
    } else {
      assert (a + b)[0] == a[0] && (a + b)[1..] == a[1..] + b;
      RenderAllAppend(a[1..], b, prose);
    }
  }

  /** The rendering of a gap: the prose normalised, or nothing. */
  lemma RenderGap(s: string, from: nat, sp: Span, prose: string -> string)
    requires from <= sp.start <= |s|
    ensures RenderAll(Gap(s, from, sp), prose)
      == if from < sp.start then [prose(s[from..sp.start])] else []
  {
  }

  /** One round of the loop: the prose before the next span (if any) and the span. */
  lemma PiecesStep(t: string, m: seq<Option<nat>>, i: nat, prose: string -> string)
    requires |m| == |t| + 1 && SpanTable(m) && i <= |t| && NextSpan(m, i).Some?
    ensures var sp := NextSpan(m, i).value;
      RenderAll(Pieces(t, m, i), prose)
      == (if i < sp.start then [prose(t[i..sp.start])] else [])
         + [t[sp.start..sp.end]] + RenderAll(Pieces(t, m, sp.end), prose)
  {
    var sp := NextSpan(m, i).value;
    var code := [Code(t[sp.start..sp.end])];
    PiecesSome(t, m, i, sp);
    RenderAllAppend(Gap(t, i, sp) + code, Pieces(t, m, sp.end), prose);
    RenderAllAppend(Gap(t, i, sp), code, prose);
    RenderGap(t, i, sp, prose);
    assert RenderAll(code, prose) == [t[sp.start..sp.end]];
  }

  /** The loop invariant is kept by one round. */
  lemma LoopStep(t: string, m: seq<Option<nat>>, i: nat, prose: string -> string,
                 before: seq<string>, after: seq<string>, whole: seq<string>)
    requires |m| == |t| + 1 && SpanTable(m) && i <= |t| && NextSpan(m, i).Some?
    requires before + RenderAll(Pieces(t, m, i), prose) == whole
    requires var sp := NextSpan(m, i).value;
      after == before + (if i < sp.start then [prose(t[i..sp.start])] else [])
               + [t[sp.start..sp.end]]
    ensures after + RenderAll(Pieces(t, m, NextSpan(m, i).value.end), prose) == whole
  {
    PiecesStep(t, m, i, prose);
  }

  /** After the last span the tail, if not empty, is the last part. */
  lemma LoopExit(t: string, m: seq<Option<nat>>, i: nat, prose: string -> string,
                 before: seq<string>, after: seq<string>, whole: seq<string>)
    requires |m| == |t| + 1 && SpanTable(m) && i <= |t| && NextSpan(m, i).None?
    requires before + RenderAll(Pieces(t, m, i), prose) == whole
    requires after == before + if i < |t| then [prose(t[i..])] else []
    ensures after == whole
  {
  }

  /**
   * The loop of `normalize_text_code_safe`: advance a cursor from match to
   * match of the table `m`, collecting each gap through `prose` and each match
   * verbatim, then the tail.
   */
  method RenderPieces(t: string, m: seq<Option<nat>>, prose: string -> string) returns (out: seq<string>)
    requires |m| == |t| + 1 && SpanTable(m)
    ensures out == RenderAll(Pieces(t, m, 0), prose)
  {
    out := [];
    var i: nat := 0;
    var next := NextSpan(m, 0);
    ghost var whole := RenderAll(Pieces(t, m, 0), prose);
    while next.Some?
      invariant i <= |t| && next == NextSpan(m, i)
      invariant out + RenderAll(Pieces(t, m, i), prose) == whole
      decreases |t| - i
    {
      var sp := next.value;
      ghost var before := out;
      var pre := t[i..sp.start];
      var code := t[sp.start..sp.end];
      if pre != [] {
        out := out + [prose(pre)];
      }
      out := out + [code];
      LoopStep(t, m, i, prose, before, out, whole);
      i := sp.end;
      next := NextSpan(m, i);
    }
    ghost var before := out;
    var tail := t[i..];
    if tail != [] {
      out := out + [prose(tail)];
    }
    LoopExit(t, m, i, prose, before, out, whole);
  }

  /** `normalize_text_code_safe(s)`, run over the pattern's matches. */
  method NormalizeTextCodeSafe(s: string, nfkc: string -> string) returns (r: string)
    ensures r == NormalizeCodeSafe(s, nfkc)
  {
    var t := SanitizeText(s, nfkc);
    CodeSpansValid();
    var parts := RenderPieces(t, Matches(t, CODE_SPANS), NormalizeProse);
    r := Concat(parts);
  }

  // ---------------------------------------------------------------------------
  // What the split and the loop guarantee
  // ---------------------------------------------------------------------------

  lemma {:induction false} TextsAppend(a: seq<Piece>, b: seq<Piece>)
    ensures Texts(a + b) == Texts(a) + Texts(b)
  {
    if a == [] {
      assert a + b == b;
    } else {
      assert (a + b)[0] == a[0] && (a + b)[1..] == a[1..] + b;
      TextsAppend(a[1..], b);
    }
  }

  /** The gap, the span and what follows join into the text from `from` on. */
  lemma GapSpanRest(t: string, from: nat, sp: Span, rest: string)
    requires from <= sp.start <= sp.end <= |t| && rest == t[sp.end..]
    ensures Concat(Texts(Gap(t, from, sp))) + t[sp.start..sp.end] + rest == t[from..]
  {
    assert t[from..] == t[from..sp.start] + t[sp.start..sp.end] + t[sp.end..];
  }

  /** Joining the pieces gives back the text: the split loses and reorders nothing. */
  lemma {:induction false} PiecesCover(t: string, m: seq<Option<nat>>, from: nat)
    requires |m| == |t| + 1 && SpanTable(m) && from <= |t|
    ensures Concat(Texts(Pieces(t, m, from))) == t[from..]
    decreases |t| - from
  {
    match NextSpan(m, from)
    case None =>
    case Some(sp) =>
      var head := Gap(t, from, sp);
      var code := [Code(t[sp.start..sp.end])];
      var rest := Pieces(t, m, sp.end);
      PiecesSome(t, m, from, sp);
      PiecesCover(t, m, sp.end);
      TextsAppend(head + code, rest);
      TextsAppend(head, code);
      ConcatAppend(Texts(head) + [t[sp.start..sp.end]], Texts(rest));
      ConcatAppend(Texts(head), [t[sp.start..sp.end]]);
      assert Concat([t[sp.start..sp.end]]) == t[sp.start..sp.end];
      GapSpanRest(t, from, sp, Concat(Texts(rest)));
  }

  /**
   * A delimited block: it opens with `open`, closes with `close`, and `close`
   * does not occur in between (the lazy `.*?` stops at the first one).
   */
  predicate Block(c: string, open: string, close: string) {
    |open| + |close| <= |c| && StartsWith(c, open) && EndsWith(c, close)
    && !Contains(c[|open|..|c| - |close|], close)
  }

  /** A fenced block, or a block between the start and end markers. */
  predicate CodeBlock(c: string, d: Delims) {
    Block(c, d.fence, d.fence) || Block(c, d.open, d.close)
  }

  /** No occurrence of `close` begins in `s[b..j]` when none begins at `b`..`j - 1` in `s`. */
  lemma NoCloseInside(s: string, close: string, b: nat, j: nat)
    requires b <= j && j + |close| <= |s| && close != []
    requires forall k: nat :: b <= k < j ==> !OccursAt(s, close, k)
    ensures !Contains(s[b..j], close)
  {
    var inner := s[b..j];
    forall k: nat | k <= |inner| ensures !OccursAt(inner, close, k) {
      if OccursAt(inner, close, k) {
        var w := s[b + k..b + k + |close|];
        forall m | 0 <= m < |close| ensures w[m] == close[m] {
          assert w[m] == inner[k + m];
        }
        assert OccursAt(s, close, b + k);
        assert false;
      }
    }
  }

  lemma DelimitedIsBlock(s: string, open: string, close: string, i: nat, j: nat)
    requires OccursAt(s, open, i) && OccursAt(s, close, j) && i + |open| <= j
    requires !Contains(s[i + |open|..j], close)
    ensures Block(s[i..j + |close|], open, close)
  {
    var c := s[i..j + |close|];
    SliceOfSlice(s, i, j + |close|, |open|, |c| - |close|);
    SliceOfSlice(s, i, j + |close|, 0, |open|);
    SliceOfSlice(s, i, j + |close|, |c| - |close|, |c|);
  }

  /** The block from an opening delimiter at `i` to the first closing one after it, at `j`. */
  lemma FirstCloseIsBlock(s: string, open: string, close: string, i: nat, j: nat, e: nat)
    requires OccursAt(s, open, i) && OccursAt(s, close, j) && i + |open| <= j && close != []
    requires forall k: nat :: i + |open| <= k < j ==> !OccursAt(s, close, k)
    requires e == j + |close|
    ensures Block(s[i..e], open, close)
  {
    NoCloseInside(s, close, i + |open|, j);
    DelimitedIsBlock(s, open, close, i, j);
  }

  /** A match of the fence alternative is a fenced block. */
  lemma FenceSpanIsBlock(s: string, i: nat, d: Delims)
    requires i <= |s| && ValidDelims(d)
    requires OccursAt(s, d.fence, i) && FindFrom(s, d.fence, i + |d.fence|).Some?
    ensures SpanAt(s, i, d).Some? && Block(s[i..SpanAt(s, i, d).value], d.fence, d.fence)
  {
    var j := FindFrom(s, d.fence, i + |d.fence|).value;
    assert SpanAt(s, i, d) == Some(j + |d.fence|);
    FirstCloseIsBlock(s, d.fence, d.fence, i, j, SpanAt(s, i, d).value);
  }

  /** A match of the marker alternative is a block between the markers. */
  lemma MarkerSpanIsBlock(s: string, i: nat, d: Delims)
    requires i <= |s| && ValidDelims(d)
    requires !(OccursAt(s, d.fence, i) && FindFrom(s, d.fence, i + |d.fence|).Some?)
    requires OccursAt(s, d.open, i) && FindFrom(s, d.close, i + |d.open|).Some?
    ensures SpanAt(s, i, d).Some? && Block(s[i..SpanAt(s, i, d).value], d.open, d.close)
  {
    var j := FindFrom(s, d.close, i + |d.open|).value;
    assert SpanAt(s, i, d) == Some(j + |d.close|);
    FirstCloseIsBlock(s, d.open, d.close, i, j, SpanAt(s, i, d).value);
  }

  /** Every match of the pattern is a shortest code block. */
  lemma SpanIsBlock(s: string, i: nat, d: Delims)
    requires i <= |s| && ValidDelims(d) && SpanAt(s, i, d).Some?
    ensures CodeBlock(s[i..SpanAt(s, i, d).value], d)
  {
    if OccursAt(s, d.fence, i) && FindFrom(s, d.fence, i + |d.fence|).Some? {
      FenceSpanIsBlock(s, i, d);
    } else {
      MarkerSpanIsBlock(s, i, d);
    }
  }

  /** Every entry of the match table is a shortest code block. */
  lemma MatchesAreBlocks(s: string, d: Delims)
    requires ValidDelims(d)
    ensures var m := Matches(s, d);
      forall k :: 0 <= k < |m| && m[k].Some? ==> CodeBlock(s[k..m[k].value], d)
  {
    var m := Matches(s, d);
    forall k | 0 <= k < |m| && m[k].Some? ensures CodeBlock(s[k..m[k].value], d) {
      SpanIsBlock(s, k, d);
    }
  }

  /** Code pieces are blocks and prose pieces are non-empty. */
  predicate WellShaped(p: Piece, d: Delims) {
    (p.Code? ==> CodeBlock(p.text, d)) && (p.Prose? ==> p.text != [])
  }

  /** Code pieces are exactly the matches; prose pieces are non-empty. */
  lemma {:induction false} PiecesShape(t: string, m: seq<Option<nat>>, from: nat, d: Delims)
    requires |m| == |t| + 1 && SpanTable(m) && from <= |t|
    requires forall k :: 0 <= k < |m| && m[k].Some? ==> CodeBlock(t[k..m[k].value], d)
    ensures forall k :: 0 <= k < |Pieces(t, m, from)| ==> WellShaped(Pieces(t, m, from)[k], d)
    decreases |t| - from
  {
    match NextSpan(m, from)
    case None =>
    case Some(sp) =>
      NextSpanLeftmost(m, from);
      PiecesShape(t, m, sp.end, d);
      PiecesSome(t, m, from, sp);
      var front := Gap(t, from, sp) + [Code(t[sp.start..sp.end])];
      assert forall k :: 0 <= k < |front| ==> WellShaped(front[k], d);
      AllShaped(front, Pieces(t, m, sp.end), d);
  }

  lemma AllShaped(a: seq<Piece>, b: seq<Piece>, d: Delims)
    requires forall k :: 0 <= k < |a| ==> WellShaped(a[k], d)
    requires forall k :: 0 <= k < |b| ==> WellShaped(b[k], d)
    ensures forall k :: 0 <= k < |a + b| ==> WellShaped((a + b)[k], d)
  {
    forall k | 0 <= k < |a + b| ensures WellShaped((a + b)[k], d) {
      if k >= |a| { assert (a + b)[k] == b[k - |a|]; }
    }
  }

  /** A piece's part: code verbatim, prose in normal form. */
  predicate RenderedAs(p: Piece, part: string) {
    (p.Code? ==> part == p.text) && (p.Prose? ==> ProseNormal(part))
  }

  lemma {:induction false} RenderedParts(ps: seq<Piece>, prose: string -> string)
    requires forall x :: ProseNormal(prose(x))
    ensures forall k :: 0 <= k < |ps| ==> RenderedAs(ps[k], RenderAll(ps, prose)[k])
  {
    if ps != [] {
      RenderedParts(ps[1..], prose);
      forall k | 0 < k < |ps| ensures RenderAll(ps, prose)[k] == RenderAll(ps[1..], prose)[k - 1] && ps[k] == ps[1..][k - 1] { }
    }
  }

  /**
   * The output of `normalize_text_code_safe` is its parts joined in order:
   * each code block of the sanitised text verbatim, each gap between them
   * normalised as prose.
   */
  lemma CodeSafeParts(s: string, nfkc: string -> string)
    ensures ValidDelims(CODE_SPANS)
    ensures var t := SanitizeText(s, nfkc);
      var ps := Pieces(t, Matches(t, CODE_SPANS), 0);
      var parts := RenderAll(ps, NormalizeProse);
      Concat(Texts(ps)) == t && NormalizeCodeSafe(s, nfkc) == Concat(parts)
      && forall k :: 0 <= k < |ps| ==>
        (ps[k].Code? ==> CodeBlock(ps[k].text, CODE_SPANS) && parts[k] == ps[k].text)
        && (ps[k].Prose? ==> ProseNormal(parts[k]))
  {
    CodeSpansValid();
    var t := SanitizeText(s, nfkc);
    var m := Matches(t, CODE_SPANS);
    var ps := Pieces(t, m, 0);
    PiecesCover(t, m, 0);
    MatchesAreBlocks(t, CODE_SPANS);
    PiecesShape(t, m, 0, CODE_SPANS);
    forall x ensures ProseNormal(NormalizeProse(x)) { NormalizeProseShape(x); }
    RenderedParts(ps, NormalizeProse);
    forall k | 0 <= k < |ps|
      ensures (ps[k].Code? ==> CodeBlock(ps[k].text, CODE_SPANS) && RenderAll(ps, NormalizeProse)[k] == ps[k].text)
        && (ps[k].Prose? ==> ProseNormal(RenderAll(ps, NormalizeProse)[k]))
    {
      assert WellShaped(ps[k], CODE_SPANS) && RenderedAs(ps[k], RenderAll(ps, NormalizeProse)[k]);
    }
  }

  lemma {:induction false} NonSpaceConcat(parts: seq<string>, originals: seq<string>)
    requires |parts| == |originals|
    requires forall k :: 0 <= k < |parts| ==> NonSpace(parts[k]) == NonSpace(originals[k])
    ensures NonSpace(Concat(parts)) == NonSpace(Concat(originals))
  {
    if parts != [] {
      NonSpaceConcat(parts[1..], originals[1..]);
      NonSpaceAppend(parts[0], Concat(parts[1..]));
      NonSpaceAppend(originals[0], Concat(originals[1..]));
    }
  }

  /** A piece's part has the piece's text, up to whitespace. */
  predicate SameText(part: string, original: string) {
    NonSpace(part) == NonSpace(original)
  }

  lemma {:induction false} RenderKeepsText(ps: seq<Piece>, prose: string -> string)
    requires forall x :: SameText(prose(x), x)
    ensures forall k :: 0 <= k < |ps| ==> SameText(RenderAll(ps, prose)[k], Texts(ps)[k])
  {
    if ps != [] {
      RenderKeepsText(ps[1..], prose);
      forall k | 0 < k < |ps|
        ensures RenderAll(ps, prose)[k] == RenderAll(ps[1..], prose)[k - 1] && Texts(ps)[k] == Texts(ps[1..])[k - 1]
      { }
    }
  }

  /** Code-safe normalisation only deletes whitespace of the sanitised text. */
  lemma CodeSafeKeepsText(s: string, nfkc: string -> string)
    ensures NonSpace(NormalizeCodeSafe(s, nfkc)) == NonSpace(SanitizeText(s, nfkc))
  {
    CodeSpansValid();
    var t := SanitizeText(s, nfkc);
    var m := Matches(t, CODE_SPANS);
    var ps := Pieces(t, m, 0);
    PiecesCover(t, m, 0);
    forall x ensures SameText(NormalizeProse(x), x) { NormalizeProseKeepsText(x); }
    RenderKeepsText(ps, NormalizeProse);
    NonSpaceConcat(RenderAll(ps, NormalizeProse), Texts(ps));
    assert t[0..] == t;
  }

  /** Text without any code block is normalised as one piece of prose. */
  lemma NoCodeIsProse(t: string)
    requires ValidDelims(CODE_SPANS) && NextSpan(Matches(t, CODE_SPANS), 0).None?
    ensures Concat(RenderAll(Pieces(t, Matches(t, CODE_SPANS), 0), NormalizeProse)) == if t == [] then [] else NormalizeProse(t)
  {
    if t != [] {
      assert Pieces(t, Matches(t, CODE_SPANS), 0) == [Prose(t[0..])];
      assert t[0..] == t;
    }
  }

  /** Parts that are each empty or open with a non-space join into such a text. */
  lemma {:induction false} ConcatHeadNotSpace(parts: seq<string>)
    requires forall k :: 0 <= k < |parts| ==> parts[k] == [] || !IsSpace(parts[k][0])
    ensures Concat(parts) == [] || !IsSpace(Concat(parts)[0])
  {
    if parts != [] {
      ConcatHeadNotSpace(parts[1..]);
      if parts[0] == [] {
        assert Concat(parts) == Concat(parts[1..]);
      }
    }
  }

  /** A code block opens with the fence or the start marker, so not with a space. */
  lemma CodeBlockHead(c: string, d: Delims)
    requires ValidDelims(d) && CodeBlock(c, d)
    ensures c != [] && !IsSpace(c[0])
  {
    if Block(c, d.fence, d.fence) {
      assert c[0] == c[..|d.fence|][0] == d.fence[0];
    } else {
      assert c[0] == c[..|d.open|][0] == d.open[0];
    }
  }

  /**
   * Code-safe normalisation never leaves a blank text: its result is empty
   * exactly when it is all whitespace (when it strips to nothing).
   */
  lemma CodeSafeNeverBlank(s: string, nfkc: string -> string)
    ensures AllSpace(NormalizeCodeSafe(s, nfkc)) <==> NormalizeCodeSafe(s, nfkc) == []
  {
    CodeSafeParts(s, nfkc);
    var t := SanitizeText(s, nfkc);
    var ps := Pieces(t, Matches(t, CODE_SPANS), 0);
    var parts := RenderAll(ps, NormalizeProse);
    forall k | 0 <= k < |parts| ensures parts[k] == [] || !IsSpace(parts[k][0]) {
      if ps[k].Code? {
        CodeBlockHead(ps[k].text, CODE_SPANS);
      }
    }
    ConcatHeadNotSpace(parts);
  }

  // ---------------------------------------------------------------------------
  // _normalize_title_from_path
  // ---------------------------------------------------------------------------

  /** The class `[\w\s\-\.,'()&]`: `isAlnum` is Unicode `str.isalnum()`, `\s` is `IsSpace`. */
  predicate TitleChar(c: char, isAlnum: char -> bool) {
    isAlnum(c) || c == '_' || IsSpace(c) || c in "-.,'()&"
  }

  /** `re.sub(r"[^\w\s\-\.,'()&]+", ' ', s)`: each run of other characters becomes one space. */
  function ReplaceOthers(s: string, isAlnum: char -> bool): (r: string)
    ensures forall i :: 0 <= i < |r| ==> TitleChar(r[i], isAlnum)
  {
    if s == [] then []
    else if TitleChar(s[0], isAlnum) then [s[0]] + ReplaceOthers(s[1..], isAlnum)
    else if |s| > 1 && !TitleChar(s[1], isAlnum) then ReplaceOthers(s[1..], isAlnum)
    else " " + ReplaceOthers(s[1..], isAlnum)
  }

  /** A name made only of allowed characters is left as it is. */
  lemma {:induction false} ReplaceOthersKeepsAllowed(s: string, isAlnum: char -> bool)
    requires forall i :: 0 <= i < |s| ==> TitleChar(s[i], isAlnum)
    ensures ReplaceOthers(s, isAlnum) == s
  {
    if s != [] {
      assert TitleChar(s[0], isAlnum);
      ReplaceOthersKeepsAllowed(s[1..], isAlnum);
    }
  }

  /** The allowed characters that are not whitespace survive, in order. */
  function Kept(s: string, isAlnum: char -> bool): string {
    if s == [] then []
    else (if TitleChar(s[0], isAlnum) && !IsSpace(s[0]) then [s[0]] else []) + Kept(s[1..], isAlnum)
  }

  lemma {:induction false} ReplaceOthersKeeps(s: string, isAlnum: char -> bool)
    ensures NonSpace(ReplaceOthers(s, isAlnum)) == Kept(s, isAlnum)
  {
    if s != [] {
      ReplaceOthersKeeps(s[1..], isAlnum);
      var rest := ReplaceOthers(s[1..], isAlnum);
      if TitleChar(s[0], isAlnum) {
        NonSpaceAppend([s[0]], rest);
      } else if !(|s| > 1 && !TitleChar(s[1], isAlnum)) {
        NonSpaceAppend(" ", rest);
      }
    }
  }

  /**
   * `_normalize_title_from_path`: the file name without directory and
   * extension, other characters replaced, stripped, title-cased and
   * normalised like any text.
   */
  function NormalizeTitleFromPath(path: string, isAlnum: char -> bool, title: string -> string,
                                  nfkc: string -> string): string
  {
    var rawName := SplitExtRoot(Basename(path));
    NormalizeCodeSafe(title(Strip(ReplaceOthers(rawName, isAlnum))), nfkc)
  }

  lemma BasenameAfterSlash(dir: string, name: string)
    requires '/' !in name
    ensures Basename(dir + "/" + name) == name
  {
    var p := dir + "/" + name;
    assert p[|dir|] == '/';
    forall k | |dir| < k < |p| ensures p[k] != '/' {
      assert p[k] == name[k - |dir| - 1];
    }
    assert LastIndexOf(p, '/') == |dir|;
    assert p[|dir| + 1..] == name;
  }

  /** The directory part of the path plays no part in the title. */
  lemma TitleIgnoresDirectory(dir: string, name: string, isAlnum: char -> bool,
                              title: string -> string, nfkc: string -> string)
    requires '/' !in name
    ensures NormalizeTitleFromPath(dir + "/" + name, isAlnum, title, nfkc)
         == NormalizeTitleFromPath(name, isAlnum, title, nfkc)
  {
    BasenameAfterSlash(dir, name);
    assert LastIndexOf(name, '/') == -1;
    assert name[0..] == name;
  }
}
