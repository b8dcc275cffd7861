/**
 * Python string, slice and path primitives that the rest of the model is
 * written with: slices with negative bounds, `str.strip`, `os.path.basename`,
 * `os.path.splitext`, `pathlib.PurePath.suffix`, decimal formatting and
 * zero padding.  Paths are POSIX paths (separator '/').
 */
module PyStr {

  type byte = bv8
  type bytes = seq<byte>

  datatype Option<T> = None | Some(value: T)

  function Min(a: int, b: int): int { if a <= b then a else b }
  function Max(a: int, b: int): int { if a >= b then a else b }

  // ---------------------------------------------------------------------------
  // Slices
  // ---------------------------------------------------------------------------

  /** Python's normalisation of one slice bound against a length. */
  function SliceIndex(i: int, len: nat): (k: nat)
    ensures k <= len
    ensures i >= 0 ==> k == Min(i, len)
    ensures i < 0 ==> k == Max(0, len + i)
  {
    if i < 0 then (if len + i < 0 then 0 else len + i)
    else if i > len then len else i
  }

  /** `s[:n]` */
  function SliceTo<T>(s: seq<T>, n: int): (r: seq<T>)
    ensures |r| <= |s| && r == s[..|r|]
    ensures n >= 0 ==> |r| == Min(n, |s|)
    ensures n < 0 ==> |r| == Max(0, |s| + n)
  {
    s[..SliceIndex(n, |s|)]
  }

  /** `s[n:]` */
  function SliceFrom<T>(s: seq<T>, n: int): (r: seq<T>)
    ensures |r| <= |s| && r == s[|s| - |r|..]
    ensures n >= 0 ==> |r| == Max(0, |s| - n)
    ensures n < 0 ==> |r| == Min(-n, |s|)
  {
    s[SliceIndex(n, |s|)..]
  }

  /** `s[a:b]` */
  function Slice<T>(s: seq<T>, a: int, b: int): (r: seq<T>)
    ensures |r| <= |s|
    ensures 0 <= a <= b <= |s| ==> r == s[a..b]
  {
    var i := SliceIndex(a, |s|);
    var j := SliceIndex(b, |s|);
    if i <= j then s[i..j] else []
  }

  // ---------------------------------------------------------------------------
  // Prefixes, suffixes, searching
  // ---------------------------------------------------------------------------

  predicate StartsWith<T(==)>(s: seq<T>, p: seq<T>) {
    |p| <= |s| && s[..|p|] == p
  }

  predicate EndsWith<T(==)>(s: seq<T>, p: seq<T>) {
    |p| <= |s| && s[|s| - |p|..] == p
  }

  predicate OccursAt<T(==)>(s: seq<T>, sub: seq<T>, i: nat) {
    i + |sub| <= |s| && s[i..i + |sub|] == sub
  }

  /** `sub in s` */
  predicate Contains<T(==)>(s: seq<T>, sub: seq<T>) {
    exists i: nat | i <= |s| :: OccursAt(s, sub, i)
  }

  lemma ContainsSelf<T>(s: seq<T>)
    ensures Contains(s, s)
  {
    assert OccursAt(s, s, 0);
  }

  /** A part of `a` is a part of `a + b`. */
  lemma ContainsLeft<T>(a: seq<T>, b: seq<T>, x: seq<T>)
    requires Contains(a, x)
    ensures Contains(a + b, x)
  {
    var i: nat :| i <= |a| && OccursAt(a, x, i);
    assert (a + b)[i..i + |x|] == a[i..i + |x|];
    assert OccursAt(a + b, x, i);
  }

  /** A part of `b` is a part of `a + b`. */
  lemma ContainsRight<T>(a: seq<T>, b: seq<T>, x: seq<T>)
    requires Contains(b, x)
    ensures Contains(a + b, x)
  {
    var i: nat :| i <= |b| && OccursAt(b, x, i);
    assert (a + b)[|a| + i..|a| + i + |x|] == b[i..i + |x|];
    assert OccursAt(a + b, x, |a| + i);
  }

  /** A slice of a slice is a slice of the original. */
  lemma SliceOfSlice<T>(s: seq<T>, a: nat, b: nat, c: nat, d: nat)
    requires a <= b <= |s| && c <= d <= b - a
    ensures s[a..b][c..d] == s[a + c..a + d]
  {
    var x := s[a..b][c..d];
    forall m | 0 <= m < d - c ensures x[m] == s[a + c + m] { }
  }

  /** The first index at or after `from` where `sub` occurs (`s.find(sub, from)`). */
  function FindFrom<T(==)>(s: seq<T>, sub: seq<T>, from: nat): (r: Option<nat>)
    requires from <= |s|
    ensures r.Some? ==> from <= r.value && OccursAt(s, sub, r.value)
    ensures r.Some? ==> forall k: nat :: from <= k < r.value ==> !OccursAt(s, sub, k)
    ensures r.None? ==> forall k: nat :: from <= k ==> !OccursAt(s, sub, k)
    decreases |s| - from
  {
    if OccursAt(s, sub, from) then Some(from)
    else if from == |s| then None
    else FindFrom(s, sub, from + 1)
  }

  /** The last index of `c` in `s`, or -1 (`s.rfind(c)`). */
  function LastIndexOf<T(==)>(s: seq<T>, c: T): (r: int)
    ensures -1 <= r < |s|
    ensures r >= 0 ==> s[r] == c
    ensures forall k :: r < k < |s| ==> s[k] != c
  {
    if s == [] then -1
    else if s[|s| - 1] == c then |s| - 1
    else LastIndexOf(s[..|s| - 1], c)
  }

  /** Number of occurrences of `c` in `s` (`s.count(c)` for a one-character `c`). */
  function Count<T(==)>(s: seq<T>, c: T): (n: nat)
    ensures n <= |s|
  {
    if s == [] then 0 else (if s[0] == c then 1 else 0) + Count(s[1..], c)
  }

  lemma CountAppend<T>(a: seq<T>, b: seq<T>, c: T)
    ensures Count(a + b, c) == Count(a, c) + Count(b, c)
  {
    if a == [] {
      assert a + b == b;
    } else {
      assert (a + b)[1..] == a[1..] + b;
      CountAppend(a[1..], b, c);
    }
  }

  // ---------------------------------------------------------------------------
  // Whitespace and strip
  // ---------------------------------------------------------------------------

  /** `c.isspace()`: the characters Python's `str.strip()` removes and `\s` matches. */
  predicate IsSpace(c: char) {
    var n := c as int;
    (0x09 <= n <= 0x0D) || (0x1C <= n <= 0x20) || n == 0x85 || n == 0xA0 || n == 0x1680
    || (0x2000 <= n <= 0x200A) || n == 0x2028 || n == 0x2029 || n == 0x202F || n == 0x205F
    || n == 0x3000
  }

  predicate AllSpace(s: string) {
    forall i :: 0 <= i < |s| ==> IsSpace(s[i])
  }

  function LStrip(s: string): (r: string)
    ensures |r| <= |s| && r == s[|s| - |r|..]
    ensures AllSpace(s[..|s| - |r|])
    ensures r == [] || !IsSpace(r[0])
  {
    if s == [] || !IsSpace(s[0]) then s else LStrip(s[1..])
  }

  function RStrip(s: string): (r: string)
    ensures |r| <= |s| && r == s[..|r|]
    ensures AllSpace(s[|r|..])
    ensures r == [] || !IsSpace(r[|r| - 1])
  {
    if s == [] || !IsSpace(s[|s| - 1]) then s else RStrip(s[..|s| - 1])
  }

  /** `s.strip()`: a contiguous piece of `s` with no surrounding whitespace. */
  function Strip(s: string): (r: string)
    ensures Contains(s, r)
    ensures r == [] || (!IsSpace(r[0]) && !IsSpace(r[|r| - 1]))
    ensures r == [] <==> AllSpace(s)
  {
    var t := RStrip(s);
    var r := LStrip(t);
    assert OccursAt(s, r, |t| - |r|);
    if r == [] then
      assert t[..|t| - |r|] == t;
      assert |t| == 0;
      assert s[|t|..] == s;
      r
    else
      r
  }

  // ---------------------------------------------------------------------------
  // Case mapping (ASCII letters only)
  // ---------------------------------------------------------------------------

  function LowerChar(c: char): char {
    if 'A' <= c <= 'Z' then (c as int + 32) as char else c
  }

  function UpperChar(c: char): char {
    if 'a' <= c <= 'z' then (c as int - 32) as char else c
  }

  /** `s.lower()` for the ASCII letters. */
  function Lower(s: string): (r: string)
    ensures |r| == |s| && forall i :: 0 <= i < |s| ==> r[i] == LowerChar(s[i])
  {
    seq(|s|, i requires 0 <= i < |s| => LowerChar(s[i]))
  }

  /** `s.upper()` for the ASCII letters. */
  function Upper(s: string): (r: string)
    ensures |r| == |s| && forall i :: 0 <= i < |s| ==> r[i] == UpperChar(s[i])
  {
    seq(|s|, i requires 0 <= i < |s| => UpperChar(s[i]))
  }

  // ---------------------------------------------------------------------------
  // POSIX paths
  // ---------------------------------------------------------------------------

  /** `os.path.basename(p)`: everything after the last '/'. */
  function Basename(p: string): (r: string)
    ensures '/' !in r
    ensures EndsWith(p, r)
  {
    var k := LastIndexOf(p, '/');
    var r := p[k + 1..];
    assert |p| - |r| == k + 1;
    assert forall i :: 0 <= i < |r| ==> r[i] != '/' by {
      forall i | 0 <= i < |r| ensures r[i] != '/' {
        assert r[i] == p[k + 1 + i];
      }
    }
    r
  }

  /**
   * The split point of `os.path.splitext(p)`: the last '.' of the last
   * component, provided some character before it in that component is not a
   * '.' (so ".bashrc" and "..txt" have no extension).
   */
  function SplitExtIndex(p: string): (r: Option<nat>)
    ensures r.Some? ==> r.value < |p| && p[r.value] == '.'
  {
    var sep := LastIndexOf(p, '/');
    var dot := LastIndexOf(p, '.');
    if dot > sep && exists k :: sep < k < dot && p[k] != '.' then Some(dot) else None
  }

  /** `os.path.splitext(p)[1]` */
  function SplitExtExt(p: string): (r: string)
    ensures r == [] || r[0] == '.'
    ensures EndsWith(p, r)
  {
    match SplitExtIndex(p)
    case Some(d) => p[d..]
    case None => []
  }

  /** `os.path.splitext(p)[0]` */
  function SplitExtRoot(p: string): (r: string)
    ensures r + SplitExtExt(p) == p
  {
    match SplitExtIndex(p)
    case Some(d) => p[..d]
    case None => p
  }

  /** `pathlib.PurePath(name).suffix` for a final path component `name`. */
  function PathSuffix(name: string): (r: string)
    ensures r == [] || (r[0] == '.' && 2 <= |r| < |name| + 1)
    ensures EndsWith(name, r)
  {
    var i := LastIndexOf(name, '.');
    if 0 < i < |name| - 1 then name[i..] else []
  }

  // ---------------------------------------------------------------------------
  // Joining
  // ---------------------------------------------------------------------------

  /** `''.join(parts)` */
  function Concat<T>(parts: seq<seq<T>>): seq<T> {
    if parts == [] then [] else parts[0] + Concat(parts[1..])
  }

  lemma ConcatAppend<T>(a: seq<seq<T>>, b: seq<seq<T>>)
    ensures Concat(a + b) == Concat(a) + Concat(b)
  {
    if a == [] {
      assert a + b == b;
    } else {
      assert (a + b)[1..] == a[1..] + b;
      ConcatAppend(a[1..], b);
    }
  }

  /** `sep.join(parts)` */
  function Join<T>(parts: seq<seq<T>>, sep: seq<T>): seq<T> {
    if parts == [] then []
    else if |parts| == 1 then parts[0]
    else parts[0] + sep + Join(parts[1..], sep)
  }

  // ---------------------------------------------------------------------------
  // Decimal numerals
  // ---------------------------------------------------------------------------

  function DigitChar(d: nat): char
    requires d < 10
  {
    ('0' as int + d) as char
  }

  predicate IsDigit(c: char) { '0' <= c <= '9' }

  predicate AllDigits(s: string) { forall i :: 0 <= i < |s| ==> IsDigit(s[i]) }

  /** `str(n)` for a natural number. */
  function NatToDecimal(n: nat): (s: string)
    ensures |s| >= 1 && AllDigits(s)
    ensures n > 0 ==> s[0] != '0'
  {
    if n < 10 then [DigitChar(n)] else NatToDecimal(n / 10) + [DigitChar(n % 10)]
  }

  /** `str(i)` for any integer. */
  function IntToDecimal(i: int): (s: string)
    ensures |s| >= 1
    ensures i < 0 <==> s[0] == '-'
  {
    if i < 0 then "-" + NatToDecimal(-i) else NatToDecimal(i)
  }

  /** The value of a string of decimal digits (`int(s)`), leading zeros allowed. */
  function DecimalValue(s: string): nat
    requires AllDigits(s)
  {
    if s == [] then 0 else 10 * DecimalValue(s[..|s| - 1]) + (s[|s| - 1] as int - '0' as int)
  }

  lemma {:induction false} DecimalRoundTrip(n: nat)
    ensures DecimalValue(NatToDecimal(n)) == n
  {
    var s := NatToDecimal(n);
    if n >= 10 {
      DecimalRoundTrip(n / 10);
      assert s[..|s| - 1] == NatToDecimal(n / 10);
    }
  }

  lemma {:induction false} ZerosValue(k: nat)
    ensures AllDigits(Repeat('0', k)) && DecimalValue(Repeat('0', k)) == 0
  {
    if k > 0 {
      assert Repeat('0', k)[..k - 1] == Repeat('0', k - 1);
      ZerosValue(k - 1);
    }
  }

  /** Leading zeros do not change the value of a numeral. */
  lemma {:induction false} LeadingZerosValue(k: nat, s: string)
    requires AllDigits(s)
    ensures AllDigits(Repeat('0', k) + s)
    ensures DecimalValue(Repeat('0', k) + s) == DecimalValue(s)
  {
    var z := Repeat('0', k);
    if s == [] {
      assert z + s == z;
      ZerosValue(k);
    } else {
      assert (z + s)[..|z + s| - 1] == z + s[..|s| - 1];
      LeadingZerosValue(k, s[..|s| - 1]);
    }
  }

  function Pow10(k: nat): (p: nat)
    ensures p >= 1
  {
    if k == 0 then 1 else 10 * Pow10(k - 1)
  }

  /** `n` has at most `k` decimal digits exactly when it is below 10^k. */
  lemma {:induction false} DecimalLength(n: nat, k: nat)
    ensures |NatToDecimal(n)| <= k + 1 <==> n < Pow10(k + 1)
  {
    if n >= 10 {
      if k > 0 { DecimalLength(n / 10, k - 1); }
    }
  }

  lemma DecimalLengthMonotone(a: nat, b: nat)
    requires a <= b
    ensures |NatToDecimal(a)| <= |NatToDecimal(b)|
  {
    var k := |NatToDecimal(b)| - 1;
    DecimalLength(b, k);
    DecimalLength(a, k);
  }

  function Repeat<T>(c: T, k: nat): (r: seq<T>)
    ensures |r| == k && forall i :: 0 <= i < k ==> r[i] == c
  {
    seq(k, _ => c)
  }

  /** Left-pad with `c` to at least `width` (`s.zfill(width)` or `f"{n:0{width}d}"`). */
  function LeftPad(s: string, width: int, c: char): (r: string)
    ensures |r| == Max(|s|, width)
    ensures EndsWith(r, s)
    ensures forall i :: 0 <= i < |r| - |s| ==> r[i] == c
  {
    if width > |s| then Repeat(c, width - |s|) + s else s
  }
}
