/**
 * Document ids of the knowledge processor: the text sample that is hashed
 * (`_stable_sample`), the base-36 short id `IDManager.generate_short_id`
 * derives from a content hash, and the clean-up of the id prefix the user
 * enters. SHA-256 is a parameter.
 */
module DocId {
  import opened PyStr

  // ---------------------------------------------------------------------------
  // _stable_sample
  // ---------------------------------------------------------------------------

  /** `_stable_sample(text, k)`: the head, the middle and the tail of a long text. */
  function StableSample(text: string, k: int): string {
    var n := |text|;
    if n <= k then text
    else
      var mid := n / 2;
      SliceTo(text, k) + Slice(text, Max(0, mid - k / 2), mid + k / 2) + SliceFrom(text, -k)
  }

  /** A text of at most `k` characters is its own sample. */
  lemma ShortTextIsItsSample(text: string, k: int)
    requires |text| <= k
    ensures StableSample(text, k) == text
  {
  }

  /**
   * For `0 < k < n` the sample is the first `k` characters, the `2 * (k / 2)`
   * characters around the middle and the last `k` characters.
   */
  lemma LongTextSample(text: string, k: int)
    requires 0 < k < |text|
    ensures var n := |text|;
      StableSample(text, k) == text[..k] + text[n / 2 - k / 2..n / 2 + k / 2] + text[n - k..]
    ensures |StableSample(text, k)| == 2 * k + 2 * (k / 2)
  {
    var n := |text|;
    assert 0 <= n / 2 - k / 2 <= n / 2 + k / 2 <= n;
    assert Slice(text, Max(0, n / 2 - k / 2), n / 2 + k / 2) == text[n / 2 - k / 2..n / 2 + k / 2];
  }

  /** The sample hashed for a document (k = 2000) is 6000 characters of a longer text. */
  lemma DocumentSampleLength(text: string)
    requires |text| > 2000
    ensures |StableSample(text, 2000)| == 6000
  {
    LongTextSample(text, 2000);
  }

  // ---------------------------------------------------------------------------
  // Base 36
  // ---------------------------------------------------------------------------

  /** `IDManager.ALPHABET`: the ten digits, then the 26 capital letters. */
  const ALPHABET: string := "0123456789ABCDEFGHIJKLMNOPQRSTUVWXYZ"

  /** A character of `ALPHABET`. */
  predicate IsIdChar(c: char) { '0' <= c <= '9' || 'A' <= c <= 'Z' }

  /** The position of a character in `ALPHABET`. */
  function DigitValue(c: char): nat {
    if '0' <= c <= '9' then c as int - '0' as int
    else if 'A' <= c <= 'Z' then c as int - 'A' as int + 10
    else 0
  }

  /** Each digit of `ALPHABET` is an id character and reads back as its own position. */
  lemma AlphabetDigit(d: nat)
    requires d < |ALPHABET|
    ensures IsIdChar(ALPHABET[d]) && DigitValue(ALPHABET[d]) == d
  {
  }

  /** Dividing a positive number by a base of at least 2 makes it smaller. */
  lemma DivProgress(m: nat, base: nat)
    requires 2 <= base && m != 0
    ensures 0 <= m / base < m && 0 <= m % base < base
  {
  }

  /** Euclidean division by a base of at least 2 makes progress. */
  lemma DivStep(n: nat, base: nat)
    requires 2 <= base <= n
    ensures 1 <= n / base < n && 0 <= n % base < base
    ensures n == n / base * base + n % base
  {
  }

  /** The numeral of `n` in base `base` over `ALPHABET`: "0" for zero, no leading zero otherwise. */
  function ToBase(n: nat, base: nat): (s: string)
    requires 2 <= base <= |ALPHABET|
    ensures |s| >= 1
    decreases n
  {
    if n < base then [ALPHABET[n]]
    else
      DivStep(n, base);
      ToBase(n / base, base) + [ALPHABET[n % base]]
  }

  /** The value of a numeral in base `base`, leading zeros allowed. */
  function FromBase(s: string, base: nat): nat {
    if s == [] then 0 else FromBase(s[..|s| - 1], base) * base + DigitValue(s[|s| - 1])
  }

  lemma {:induction false} BaseRoundTrip(n: nat, base: nat)
    requires 2 <= base <= |ALPHABET|
    ensures FromBase(ToBase(n, base), base) == n
    decreases n
  {
    var s := ToBase(n, base);
    if n < base {
      AlphabetDigit(n);
    } else {
      DivStep(n, base);
      AlphabetDigit(n % base);
      BaseRoundTrip(n / base, base);
      assert s[..|s| - 1] == ToBase(n / base, base);
    }
  }

  lemma {:induction false} ToBaseChars(n: nat, base: nat)
    requires 2 <= base <= |ALPHABET|
    ensures forall i :: 0 <= i < |ToBase(n, base)| ==> IsIdChar(ToBase(n, base)[i])
    ensures |ToBase(n, base)| > 1 ==> ToBase(n, base)[0] != '0'
    decreases n
  {
    if n < base {
      AlphabetDigit(n);
    } else {
      DivStep(n, base);
      AlphabetDigit(n % base);
      ToBaseChars(n / base, base);
      var s := ToBase(n, base);
      assert s == ToBase(n / base, base) + [ALPHABET[n % base]];
      if n / base < base {
        AlphabetDigit(n / base);
      }
    }
  }

  function Pow(b: nat, k: nat): (p: nat)
    ensures b >= 1 ==> p >= 1
  {
    if k == 0 then 1 else b * Pow(b, k - 1)
  }

  lemma SmallDiv(n: nat, base: nat)
    requires n < base
    ensures n / base == 0 && n % base == n
  {
  }

  lemma DivBelow(n: nat, base: nat, p: nat)
    requires 2 <= base <= n && n < base * p
    ensures n / base < p
  {
  }

  /** A number below `base^k` has at most `k` digits. */
  lemma {:induction false} ToBaseLength(n: nat, base: nat, k: nat)
    requires 2 <= base <= |ALPHABET| && k >= 1 && n < Pow(base, k)
    ensures |ToBase(n, base)| <= k
    decreases n
  {
    if n >= base {
      assert Pow(base, 1) == base;
      DivStep(n, base);
      DivBelow(n, base, Pow(base, k - 1));
      ToBaseLength(n / base, base, k - 1);
    }
  }

  function Reverse<T>(s: seq<T>): (r: seq<T>)
    ensures |r| == |s|
  {
    if s == [] then [] else Reverse(s[1..]) + [s[0]]
  }

  lemma {:induction false} ReverseSnoc<T>(s: seq<T>, x: T)
    ensures Reverse(s + [x]) == [x] + Reverse(s)
  {
    if s == [] {
      assert [] + [x] == [x];
    } else {
      assert (s + [x])[0] == s[0] && (s + [x])[1..] == s[1..] + [x];
      ReverseSnoc(s[1..], x);
    }
  }

  /** The digits of `m` still to be produced: none once `m` is 0. */
  ghost function Leading(m: nat, base: nat): string
    requires 2 <= base <= |ALPHABET|
  {
    if m == 0 then [] else ToBase(m, base)
  }

  /** One turn of the conversion loop: the least significant digit of `m` moves to `digits`. */
  lemma ConvertStep(m: nat, base: nat, digits: string)
    requires 2 <= base <= |ALPHABET| && m != 0
    ensures 0 <= m % base < base && m / base < m
    ensures Leading(m / base, base) + Reverse(digits + [ALPHABET[m % base]])
         == Leading(m, base) + Reverse(digits)
  {
    var d := ALPHABET[m % base];
    if m < base {
      SmallDiv(m, base);
    } else {
      DivStep(m, base);
    }
    assert Leading(m, base) == Leading(m / base, base) + [d];
    ReverseSnoc(digits, d);
  }

  /** `IDManager._int_to_base_n`: digits are produced least significant first, then reversed. */
  method IntToBaseN(n: nat, base: nat) returns (s: string)
    requires 2 <= base <= |ALPHABET|
    ensures s == ToBase(n, base)
  {
    if n == 0 {
      return [ALPHABET[0]];
    }
    var digits: seq<char> := [];
    var m: nat := n;
    while m != 0
      invariant Leading(m, base) + Reverse(digits) == ToBase(n, base)
      decreases m
    {
      DivProgress(m, base);
      ConvertStep(m, base, digits);
      digits := digits + [ALPHABET[m % base]];
      m := m / base;
    }
    s := Reverse(digits);
  }

  // ---------------------------------------------------------------------------
  // generate_short_id
  // ---------------------------------------------------------------------------

  predicate IsHexDigit(c: char) { '0' <= c <= '9' || 'a' <= c <= 'f' || 'A' <= c <= 'F' }

  predicate IsLowerHex(c: char) { '0' <= c <= '9' || 'a' <= c <= 'f' }

  function HexDigitValue(c: char): nat {
    if '0' <= c <= '9' then c as int - '0' as int
    else if 'a' <= c <= 'f' then c as int - 'a' as int + 10
    else if 'A' <= c <= 'F' then c as int - 'A' as int + 10
    else 0
  }

  function HexValue(s: string): nat {
    if s == [] then 0 else HexValue(s[..|s| - 1]) * 16 + HexDigitValue(s[|s| - 1])
  }

  /** `int(s, 16)` for a non-empty run of hex digits; anything else raises. */
  function ParseHex(s: string): (r: Option<nat>)
    ensures r.Some? <==> s != [] && forall i :: 0 <= i < |s| ==> IsHexDigit(s[i])
  {
    if s != [] && forall i :: 0 <= i < |s| ==> IsHexDigit(s[i]) then Some(HexValue(s)) else None
  }

  lemma {:induction false} HexValueBound(s: string)
    requires forall i :: 0 <= i < |s| ==> IsHexDigit(s[i])
    ensures HexValue(s) < Pow(16, |s|)
  {
    if s != [] {
      assert IsHexDigit(s[|s| - 1]);
      HexValueBound(s[..|s| - 1]);
    }
  }

  /** `s.split('-', 1)[1]`: what follows the first '-', or nothing when there is none. */
  function AfterFirstDash(s: string): (r: Option<string>)
    ensures r.Some? <==> '-' in s
  {
    match FindFrom(s, "-", 0)
    case Some(i) => assert s[i] == "-"[0]; Some(s[i + 1..])
    case None =>
      assert forall i :: 0 <= i < |s| ==> s[i] != '-' by {
        forall i | 0 <= i < |s| ensures s[i] != '-' { assert !OccursAt(s, "-", i); }
      }
      None
  }

  /** The hex digits the id is made from: 12 after the first '-', else 12 of the SHA-256 of the text. */
  function HashHex(contentHash: string, sha256Hex: string -> string): string {
    match AfterFirstDash(contentHash)
    case Some(rest) => SliceTo(rest, 12)
    case None => SliceTo(sha256Hex(contentHash), 12)
  }

  /**
   * `generate_short_id`: the prefix and the base-36 value of the hex digits,
   * zero-padded to `length`; `None` where `int(hash_hex, 16)` raises.
   */
  function GenerateShortId(contentHash: string, prefix: string, length: int,
                           sha256Hex: string -> string): Option<string>
  {
    match ParseHex(HashHex(contentHash, sha256Hex))
    case None => None
    case Some(v) => Some(prefix + LeftPad(ToBase(v, |ALPHABET|), length, '0'))
  }

  /** The shape of a `stable_hash`: "sha256-" and 64 lower-case hex digits. */
  predicate IsStableHash(h: string) {
    |h| == 71 && h[..7] == "sha256-" && forall i :: 7 <= i < 71 ==> IsLowerHex(h[i])
  }

  /** A SHA-256 `hexdigest()`: 64 lower-case hex digits. */
  predicate IsHexDigest(d: string) {
    |d| == 64 && forall i :: 0 <= i < 64 ==> IsLowerHex(d[i])
  }

  /** `stable_hash(content)`, with the SHA-256 hex digest as a parameter. */
  function StableHash(content: string, sha256Hex: string -> string): string {
    "sha256-" + sha256Hex(content)
  }

  /** A real digest makes a stable hash of the expected shape. */
  lemma StableHashShape(content: string, sha256Hex: string -> string)
    requires IsHexDigest(sha256Hex(content))
    ensures IsStableHash(StableHash(content, sha256Hex))
  {
    var h := StableHash(content, sha256Hex);
    assert h[..7] == "sha256-";
    forall i | 7 <= i < 71 ensures IsLowerHex(h[i]) {
      assert h[i] == sha256Hex(content)[i - 7];
    }
  }

  lemma {:induction false} LeadingZerosBase36(k: nat, s: string)
    ensures FromBase(Repeat('0', k) + s, 36) == FromBase(s, 36)
  {
    var z := Repeat('0', k);
    if s == [] {
      assert z + s == z;
      if k > 0 {
        assert z[..k - 1] == Repeat('0', k - 1);
        LeadingZerosBase36(k - 1, []);
        assert Repeat('0', k - 1) + [] == Repeat('0', k - 1);
      }
    } else {
      assert (z + s)[..|z + s| - 1] == z + s[..|s| - 1];
      LeadingZerosBase36(k, s[..|s| - 1]);
    }
  }

  /**
   * The id of a stable hash: the prefix, then at least `length` and at most
   * `max(length, 10)` characters of `ALPHABET` whose base-36 value is the
   * value of the first 12 hex digits of the digest.
   */
  lemma ShortIdOfStableHash(h: string, prefix: string, length: int, sha256Hex: string -> string)
    requires IsStableHash(h)
    ensures var r := GenerateShortId(h, prefix, length, sha256Hex);
      r.Some? && StartsWith(r.value, prefix)
      && var digits := r.value[|prefix|..];
         FromBase(digits, 36) == HexValue(h[7..19])
         && Max(length, 1) <= |digits| <= Max(length, 10)
         && forall i :: 0 <= i < |digits| ==> IsIdChar(digits[i])
  {
    StableHashHex(h, sha256Hex);
    var hex := h[7..19];
    TwelveHexDigitsBound(hex);
    var padded := LeftPad(ToBase(HexValue(hex), 36), length, '0');
    Base36Id(HexValue(hex), length);
    assert (prefix + padded)[|prefix|..] == padded;
  }

  /** The hex digits taken from a stable hash are the first 12 of its digest. */
  lemma StableHashHex(h: string, sha256Hex: string -> string)
    requires IsStableHash(h)
    ensures HashHex(h, sha256Hex) == h[7..19]
    ensures forall i :: 0 <= i < 12 ==> IsHexDigit(h[7..19][i])
  {
    assert h[6] == '-';
    forall i | 0 <= i < 6 ensures h[i] != '-' {
      assert h[i] == "sha256-"[i];
    }
    assert !OccursAt(h, "-", 0) && !OccursAt(h, "-", 1) && !OccursAt(h, "-", 2);
    assert !OccursAt(h, "-", 3) && !OccursAt(h, "-", 4) && !OccursAt(h, "-", 5);
    assert OccursAt(h, "-", 6);
    assert FindFrom(h, "-", 0) == Some(6);
    assert h[7..][..12] == h[7..19];
    forall i | 0 <= i < 12 ensures IsHexDigit(h[7..19][i]) {
      assert h[7..19][i] == h[7 + i];
    }
  }

  /** The powers that bound twelve hex digits and ten base-36 digits. */
  lemma IdPowers()
    ensures Pow(16, 12) == 0x1_0000_0000_0000 && Pow(36, 10) == 3656158440062976
  {
  }

  /** Twelve hex digits hold a value below 2^48. */
  lemma TwelveHexDigitsBound(hex: string)
    requires |hex| == 12 && forall i :: 0 <= i < 12 ==> IsHexDigit(hex[i])
    ensures HexValue(hex) < 0x1_0000_0000_0000
  {
    HexValueBound(hex);
    IdPowers();
  }

  /** A value below 2^48 has at most ten base-36 digits. */
  lemma TenBase36Digits(v: nat)
    requires v < 0x1_0000_0000_0000
    ensures |ToBase(v, 36)| <= 10
  {
    IdPowers();
    ToBaseLength(v, 36, 10);
  }

  /**
   * A value of at most 12 hex digits becomes at most 10 base-36 digits,
   * zero-padded to `length`, that read back as the value.
   */
  lemma Base36Id(v: nat, length: int)
    requires v < 0x1_0000_0000_0000
    ensures var padded := LeftPad(ToBase(v, 36), length, '0');
      FromBase(padded, 36) == v
      && Max(length, 1) <= |padded| <= Max(length, 10)
      && forall i :: 0 <= i < |padded| ==> IsIdChar(padded[i])
  {
    TenBase36Digits(v);
    BaseRoundTrip(v, 36);
    ToBaseChars(v, 36);
    ZeroPad(ToBase(v, 36), length);
  }

  /** Zero-padding keeps the base-36 value and the id characters. */
  lemma ZeroPad(t: string, length: int)
    requires forall i :: 0 <= i < |t| ==> IsIdChar(t[i])
    ensures FromBase(LeftPad(t, length, '0'), 36) == FromBase(t, 36)
    ensures forall i :: 0 <= i < |LeftPad(t, length, '0')| ==> IsIdChar(LeftPad(t, length, '0')[i])
  {
    if length > |t| {
      var zeros := Repeat('0', length - |t|);
      LeadingZerosBase36(length - |t|, t);
      assert LeftPad(t, length, '0') == zeros + t;
      forall i | 0 <= i < |zeros + t| ensures IsIdChar((zeros + t)[i]) {
        if i >= |zeros| { assert (zeros + t)[i] == t[i - |zeros|]; }
      }
    }
  }

  // ---------------------------------------------------------------------------
  // The id prefix entered by the user
  // ---------------------------------------------------------------------------

  predicate IsAsciiAlnum(c: char) { '0' <= c <= '9' || 'A' <= c <= 'Z' || 'a' <= c <= 'z' }

  /** `re.sub(r"[^A-Za-z0-9]", "", s)` */
  function KeepAsciiAlnum(s: string): (r: string)
    ensures forall i :: 0 <= i < |r| ==> IsAsciiAlnum(r[i])
  {
    if s == [] then []
    else (if IsAsciiAlnum(s[0]) then [s[0]] else []) + KeepAsciiAlnum(s[1..])
  }

  /**
   * The prefix used for a run: the letters and digits of what was entered,
   * upper-cased, or "DOC" when that leaves nothing or nothing was entered
   * (`None` is a cancelled dialog).
   */
  function CleanPrefix(entered: Option<string>): string {
    if entered.Some? && entered.value != [] then
      var p := Upper(KeepAsciiAlnum(entered.value));
      if p == [] then "DOC" else p
    else "DOC"
  }

  /** The prefix is never empty and is made of `ALPHABET` characters only. */
  lemma CleanPrefixChars(entered: Option<string>)
    ensures CleanPrefix(entered) != []
    ensures forall i :: 0 <= i < |CleanPrefix(entered)| ==> IsIdChar(CleanPrefix(entered)[i])
  {
    if entered.Some? && entered.value != [] {
      var q := KeepAsciiAlnum(entered.value);
      assert forall i :: 0 <= i < |q| ==> IsIdChar(UpperChar(q[i]));
    }
  }

  lemma {:induction false} KeepAsciiAlnumIdentity(s: string)
    requires forall i :: 0 <= i < |s| ==> IsIdChar(s[i])
    ensures KeepAsciiAlnum(s) == s
  {
    if s != [] {
      assert IsIdChar(s[0]);
      KeepAsciiAlnumIdentity(s[1..]);
    }
  }

  /** A prefix that is already clean is kept as entered. */
  lemma CleanPrefixKeepsClean(p: string)
    requires p != [] && forall i :: 0 <= i < |p| ==> IsIdChar(p[i])
    ensures CleanPrefix(Some(p)) == p
  {
    KeepAsciiAlnumIdentity(p);
    assert Upper(p) == p;
  }
}
