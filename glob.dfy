/**
 * Shell-style glob matching as `fnmatch.fnmatch` performs it on POSIX (no
 * case folding): `*` matches any run of characters including '/', `?` any
 * one character, `[...]` a character class (`!` negates, `a-z` is a range,
 * a reversed range matches nothing, a `]` first in the class is literal), an
 * unclosed `[` is a literal, and the whole name must match.
 */
module Glob {
  import opened PyStr

  /** One member of a character class: the range `lo`..`hi` (a single character when equal). */
  datatype ClassItem = ClassItem(lo: char, hi: char)

  datatype Token =
    | Star
    | AnyChar
    | Lit(c: char)
    | Class(negated: bool, items: seq<ClassItem>)

  /**
   * Index of the `]` closing a class opened by `p[0] == '['`: the search
   * starts after an optional `!` and an optional literal `]`.
   */
  function ClassEnd(p: string): (r: Option<nat>)
    requires p != [] && p[0] == '['
    ensures r.Some? ==> 1 <= r.value < |p| && p[r.value] == ']'
  {
    var j0 := if 1 < |p| && p[1] == '!' then 2 else 1;
    var j1 := if j0 < |p| && p[j0] == ']' then j0 + 1 else j0;
    if j1 > |p| then None
    else
      match FindFrom(p, "]", j1)
      case Some(j) => Some(j)
      case None => None
  }

  /**
   * The members of a class body: `x-y` is a range when a character follows
   * the hyphen; a hyphen first, last, or right after a range is literal.
   */
  function ClassItems(body: string): seq<ClassItem>
  {
    if body == [] then []
    else if |body| >= 3 && body[1] == '-' then [ClassItem(body[0], body[2])] + ClassItems(body[3..])
    else [ClassItem(body[0], body[0])] + ClassItems(body[1..])
  }

  function ParseClass(body: string): Token {
    if body != [] && body[0] == '!' then Class(true, ClassItems(body[1..]))
    else Class(false, ClassItems(body))
  }

  /** `fnmatch.translate`, as a token sequence. */
  function Translate(p: string): seq<Token>
  {
    if p == [] then []
    else if p[0] == '*' then [Star] + Translate(p[1..])
    else if p[0] == '?' then [AnyChar] + Translate(p[1..])
    else if p[0] == '[' then
      match ClassEnd(p)
      case None => [Lit('[')] + Translate(p[1..])
      case Some(j) => [ParseClass(p[1..j])] + Translate(p[j + 1..])
    else [Lit(p[0])] + Translate(p[1..])
  }

  predicate InClass(c: char, items: seq<ClassItem>) {
    exists i :: 0 <= i < |items| && items[i].lo <= c <= items[i].hi
  }

  predicate MatchOne(t: Token, c: char)
    requires !t.Star?
  {
    match t
    case AnyChar => true
    case Lit(d) => c == d
    case Class(neg, items) => InClass(c, items) != neg
  }

  /** The tokens match all of `s`. */
  predicate MatchTokens(toks: seq<Token>, s: string)
    decreases |toks|, |s|
  {
    if toks == [] then s == []
    else if toks[0].Star? then MatchTokens(toks[1..], s) || (s != [] && MatchTokens(toks, s[1..]))
    else s != [] && MatchOne(toks[0], s[0]) && MatchTokens(toks[1..], s[1..])
  }

  /** `fnmatch.fnmatch(name, pat)` */
  predicate Fnmatch(name: string, pat: string) {
    MatchTokens(Translate(pat), name)
  }

  // ---------------------------------------------------------------------------
  // Properties
  // ---------------------------------------------------------------------------

  /** A pattern without `*`, `?` or `[`. */
  predicate IsLiteral(p: string) {
    forall i :: 0 <= i < |p| ==> p[i] != '*' && p[i] != '?' && p[i] != '['
  }

  function Lits(p: string): (r: seq<Token>)
    ensures |r| == |p|
  {
    if p == [] then [] else [Lit(p[0])] + Lits(p[1..])
  }

  lemma {:induction false} TranslateLiteral(p: string)
    requires IsLiteral(p)
    ensures Translate(p) == Lits(p)
  {
    if p != [] { TranslateLiteral(p[1..]); }
  }

  lemma {:induction false} MatchLits(p: string, s: string)
    ensures MatchTokens(Lits(p), s) <==> s == p
  {
    if p != [] && s != [] {
      MatchLits(p[1..], s[1..]);
      assert s == [s[0]] + s[1..] && p == [p[0]] + p[1..];
    }
  }

  /** A pattern with no wildcard matches exactly itself. */
  lemma LiteralMatchesItself(s: string, p: string)
    requires IsLiteral(p)
    ensures Fnmatch(s, p) <==> s == p
  {
    TranslateLiteral(p);
    MatchLits(p, s);
  }

  lemma {:induction false} StarLitsMatch(lit: string, s: string)
    ensures MatchTokens([Star] + Lits(lit), s) <==> EndsWith(s, lit)
    decreases |s|
  {
    var toks := [Star] + Lits(lit);
    assert toks[1..] == Lits(lit);
    MatchLits(lit, s);
    if s != [] {
      StarLitsMatch(lit, s[1..]);
      if |lit| <= |s[1..]| {
        assert s[1..][|s[1..]| - |lit|..] == s[|s| - |lit|..];
      }
      if EndsWith(s, lit) && s != lit {
        assert |lit| < |s|;
        assert s[1..][|s[1..]| - |lit|..] == s[|s| - |lit|..];
      }
    } else {
      if |lit| == 0 { assert s == lit; }
    }
  }

  /** `*` followed by a literal suffix (such as `*.log`) matches the names ending in it. */
  lemma StarSuffix(s: string, lit: string)
    requires IsLiteral(lit)
    ensures Fnmatch(s, "*" + lit) <==> EndsWith(s, lit)
  {
    var p := "*" + lit;
    assert p[1..] == lit;
    TranslateLiteral(lit);
    StarLitsMatch(lit, s);
  }

  /** The pattern `*` matches every name, '/' included. */
  lemma {:induction false} StarMatchesAll(s: string)
    ensures Fnmatch(s, "*")
  {
    StarSuffix(s, "");
  }

  /** The class `[0-9]` or `[!0-9]` closes at its first `]`. */
  lemma DigitClassEnd(neg: bool)
    ensures var body := if neg then "!0-9" else "0-9";
            ClassEnd("[" + body + "].txt") == Some(|body| + 1)
  {
    var body := if neg then "!0-9" else "0-9";
    var p := "[" + body + "].txt";
    var j := |body| + 1;
    assert p[j] == ']';
    assert forall k :: 1 <= k < j ==> p[k] != ']';
    assert FindFrom(p, "]", j) == Some(j);
  }

  lemma TranslateDigitClass(neg: bool)
    ensures var body := if neg then "!0-9" else "0-9";
            Translate("[" + body + "].txt") == [Class(neg, [ClassItem('0', '9')])] + Lits(".txt")
  {
    var body := if neg then "!0-9" else "0-9";
    var p := "[" + body + "].txt";
    var j := |body| + 1;
    DigitClassEnd(neg);
    assert p[1..j] == body;
    assert ClassItems("0-9") == [ClassItem('0', '9')];
    assert p[j + 1..] == ".txt";
    TranslateLiteral(".txt");
  }

  lemma ClassThenLits(t: Token, c: char, lit: string)
    requires t.Class?
    ensures MatchTokens([t] + Lits(lit), [c] + lit) <==> MatchOne(t, c)
  {
    assert ([t] + Lits(lit))[1..] == Lits(lit);
    assert ([c] + lit)[1..] == lit;
    MatchLits(lit, lit);
  }

  /** `[0-9]` matches one digit. */
  lemma DigitClassExample()
    ensures Fnmatch("7.txt", "[0-9].txt")
  {
    TranslateDigitClass(false);
    assert "[0-9].txt" == "[" + "0-9" + "].txt";
    assert "7.txt" == ['7'] + ".txt";
    ClassThenLits(Class(false, [ClassItem('0', '9')]), '7', ".txt");
    var items := [ClassItem('0', '9')];
    assert items[0].lo <= '7' <= items[0].hi;
  }

  /** `[!0-9]` matches one character that is not a digit. */
  lemma NegatedClassExample()
    ensures Fnmatch("b.txt", "[!0-9].txt")
  {
    TranslateDigitClass(true);
    assert "[!0-9].txt" == "[" + "!0-9" + "].txt";
    assert "b.txt" == ['b'] + ".txt";
    ClassThenLits(Class(true, [ClassItem('0', '9')]), 'b', ".txt");
  }

  /** `[0-9]` does not match a letter. */
  lemma DigitClassRejectsLetter()
    ensures !Fnmatch("b.txt", "[0-9].txt")
  {
    TranslateDigitClass(false);
    assert "[0-9].txt" == "[" + "0-9" + "].txt";
    assert "b.txt" == ['b'] + ".txt";
    ClassThenLits(Class(false, [ClassItem('0', '9')]), 'b', ".txt");
  }

  /** An unclosed `[` is an ordinary character. */
  lemma UnclosedBracketExample()
    ensures Fnmatch("a[b", "a[b")
  {
    var p := "[b";
    assert FindFrom(p, "]", 2) == None;
    assert p[1..2] == ['b'];
    assert FindFrom(p, "]", 1) == None;
    assert ClassEnd(p) == None;
    assert Translate("a[b") == [Lit('a'), Lit('[')] + Translate("b");
    assert Translate("b") == Lits("b");
    assert Translate("a[b") == Lits("a[b");
    MatchLits("a[b", "a[b");
  }
}
