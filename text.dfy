/**
 * The string primitives the server applies to untrusted text: Python's
 * `str.strip()`, `str.lower()` (as far as it matters for the comparisons made
 * with its result), `'\n'.join` and the `{n:02d}` decimal rendering.
 */
module Text {

  /** Python's `str.isspace()` for one character: the characters `str.strip()` removes. */
  predicate IsSpace(c: char) {
    var n := c as int;
    || n == 0x20
    || 0x09 <= n <= 0x0D
    || 0x1C <= n <= 0x1F
    || n == 0x85 || n == 0xA0 || n == 0x1680
    || 0x2000 <= n <= 0x200A
    || n == 0x2028 || n == 0x2029 || n == 0x202F || n == 0x205F || n == 0x3000
  }

  /** Every character of `s` is whitespace (vacuously true of the empty string). */
  predicate Blank(s: string) {
    forall i :: 0 <= i < |s| ==> IsSpace(s[i])
  }

  /** The number of whitespace characters `s.lstrip()` removes from the front. */
  function LeadingBlanks(s: string): (n: nat)
    ensures n <= |s|
    ensures forall i :: 0 <= i < n ==> IsSpace(s[i])
    ensures n < |s| ==> !IsSpace(s[n])
  {
    if s == [] || !IsSpace(s[0]) then 0
    else
      var m := LeadingBlanks(s[1..]);
      assert forall i :: 1 <= i < 1 + m ==> s[i] == s[1..][i - 1];
      1 + m
  }

  /** The number of whitespace characters `s.rstrip()` removes from the back. */
  function TrailingBlanks(s: string): (n: nat)
    ensures n <= |s|
    ensures forall i :: |s| - n <= i < |s| ==> IsSpace(s[i])
    ensures n < |s| ==> !IsSpace(s[|s| - n - 1])
  {
    if s == [] || !IsSpace(s[|s| - 1]) then 0
    else
      var init := s[..|s| - 1];
      var m := TrailingBlanks(init);
      assert forall i :: |init| - m <= i < |init| ==> s[i] == init[i];
      1 + m
  }

  /**
   * `s.strip()`: what lies between the leading and the trailing whitespace,
   * or nothing when `s` is all whitespace.
   */
  function Strip(s: string): (r: string)
    ensures |r| <= |s|
  {
    var i := LeadingBlanks(s);
    if i == |s| then [] else s[i..|s| - TrailingBlanks(s)]
  }

  /**
   * `Strip(s)` is the infix of `s` between a run of whitespace at the front
   * and a run of whitespace at the back, and neither of its ends is
   * whitespace: the characterisation of `str.strip()`.
   */
  lemma StripIsInfix(s: string)
    ensures var r, i := Strip(s), LeadingBlanks(s);
      && i + |r| <= |s| && r == s[i..i + |r|]
      && (forall j :: 0 <= j < i ==> IsSpace(s[j]))
      && (forall j :: i + |r| <= j < |s| ==> IsSpace(s[j]))
      && (r != [] ==> !IsSpace(r[0]) && !IsSpace(r[|r| - 1]))
  {
    StripSlice(s);
    StripEnds(s);
  }

  lemma StripSlice(s: string)
    ensures var r, i := Strip(s), LeadingBlanks(s);
      && i + |r| <= |s| && r == s[i..i + |r|]
      && forall j :: i + |r| <= j < |s| ==> IsSpace(s[j])
  {
    var i, n := LeadingBlanks(s), TrailingBlanks(s);
    if i < |s| {
      assert |Strip(s)| == |s| - n - i;
    }
  }

  lemma StripEnds(s: string)
    ensures var r := Strip(s); r != [] ==> !IsSpace(r[0]) && !IsSpace(r[|r| - 1])
  {
    var i, n := LeadingBlanks(s), TrailingBlanks(s);
    if i < |s| {
      var r := Strip(s);
      assert r[0] == s[i];
      assert r[|r| - 1] == s[|s| - n - 1];
    }
  }

  /** A string strips to the empty string exactly when it is all whitespace. */
  lemma StripEmptyIffBlank(s: string)
    ensures Strip(s) == [] <==> Blank(s)
  {
    var i := LeadingBlanks(s);
    if i < |s| {
      var t := s[i..];
      assert t[0] == s[i];
      assert TrailingBlanks(t) < |t|;
    }
  }

  /** Stripping is idempotent. */
  lemma StripIdempotent(s: string)
    ensures Strip(Strip(s)) == Strip(s)
  {
    StripIsInfix(s);
    StripUnpadded(Strip(s));
  }

  /** Stripping introduces no character: one absent from `s` is absent from `Strip(s)`. */
  lemma StripKeepsAbsent(s: string, c: char)
    requires c !in s
    ensures c !in Strip(s)
  {
    var r, i := Strip(s), LeadingBlanks(s);
    StripIsInfix(s);
    forall j | 0 <= j < |r| ensures r[j] != c {
      assert r[j] == s[i + j];
    }
  }

  /** A string that neither starts nor ends with whitespace strips to itself. */
  lemma StripUnpadded(s: string)
    requires s != [] ==> !IsSpace(s[0]) && !IsSpace(s[|s| - 1])
    ensures Strip(s) == s
  {
    assert LeadingBlanks(s) == 0;
    assert s[0..] == s;
    assert TrailingBlanks(s) == 0;
    assert s[..|s|] == s;
  }

  /** Whitespace around a text that is not itself padded is exactly what stripping removes. */
  lemma StripPadded(a: string, t: string, b: string)
    requires Blank(a) && Blank(b)
    requires t != [] && !IsSpace(t[0]) && !IsSpace(t[|t| - 1])
    ensures Strip(a + t + b) == t
  {
    var s := a + t + b;
    assert s[|a|] == t[0] && s[|a| + |t| - 1] == t[|t| - 1];
    assert forall i :: 0 <= i < |a| ==> s[i] == a[i];
    assert forall i :: |a| + |t| <= i < |s| ==> s[i] == b[i - |a| - |t|];
    assert LeadingBlanks(s) == |a|;
    assert TrailingBlanks(s) == |b|;
    assert s[|a|..|s| - |b|] == t;
  }

  /** The characters `str.lower()` turns into a different ASCII letter: `A`..`Z` and the Kelvin sign U+212A. */
  predicate IsUpper(c: char) {
    'A' <= c <= 'Z' || c == '\U{212A}'
  }

  /** `s` holds no character that lowering would change into an ASCII letter. */
  predicate NoUpper(s: string) {
    forall i :: 0 <= i < |s| ==> !IsUpper(s[i])
  }

  /**
   * `d` is the lower-case character `l` written in some case: `l` itself, its
   * ASCII capital when `l` is a letter, or the Kelvin sign for `k`.
   */
  predicate CaseOf(l: char, d: char) {
    || d == l
    || ('a' <= l <= 'z' && d as int == l as int - 32)
    || (l == 'k' && d == '\U{212A}')
  }

  /** `s` spells the lower-case text `l` with each letter in either case. */
  predicate CaseVariant(l: string, s: string) {
    |s| == |l| && forall i :: 0 <= i < |s| ==> CaseOf(l[i], s[i])
  }

  /**
   * `str.lower()` on one character, for the characters whose lower case is an
   * ASCII letter. The result is never upper case, and `c` is that result in
   * some case; together these fix the result.
   */
  function LowerChar(c: char): (r: char)
    ensures !IsUpper(r) && CaseOf(r, c)
  {
    if 'A' <= c <= 'Z' then (c as int + 32) as char
    else if c == '\U{212A}' then 'k'
    else c
  }

  /** At most one character without upper case has `d` as a case form. */
  lemma CaseOfUnique(a: char, b: char, d: char)
    requires !IsUpper(a) && !IsUpper(b) && CaseOf(a, d) && CaseOf(b, d)
    ensures a == b
  {
  }

  /** `s.lower()`: a text without upper case of which `s` is a case variant. */
  function Lower(s: string): (r: string)
    ensures NoUpper(r) && CaseVariant(r, s)
  {
    seq(|s|, i requires 0 <= i < |s| => LowerChar(s[i]))
  }

  /**
   * Lowering is exactly case-insensitive comparison: a text lowers to the
   * lower-case `l` if and only if it spells `l` with its letters in any case.
   */
  lemma LowerIff(l: string, s: string)
    requires NoUpper(l)
    ensures Lower(s) == l <==> CaseVariant(l, s)
  {
    if CaseVariant(l, s) {
      var r := Lower(s);
      forall i | 0 <= i < |s| ensures r[i] == l[i] {
        CaseOfUnique(r[i], l[i], s[i]);
      }
    }
  }

  /** Two case variants of the same lower-case text lower to the same text. */
  lemma LowerIgnoresCase(l: string, s: string, t: string)
    requires NoUpper(l) && CaseVariant(l, s) && CaseVariant(l, t)
    ensures Lower(s) == Lower(t) == l
  {
    LowerIff(l, s);
    LowerIff(l, t);
  }

  /** A string without upper-case letters lowers to itself. */
  lemma LowerUnchanged(s: string)
    requires NoUpper(s)
    ensures Lower(s) == s
  {
    LowerIff(s, s);
  }

  /** `sep.join(xs)`. */
  function Join(sep: string, xs: seq<string>): string {
    if |xs| == 0 then ""
    else if |xs| == 1 then xs[0]
    else xs[0] + sep + Join(sep, xs[1..])
  }

  /** Splits `s` at every occurrence of `c`: Python's `s.split(c)` for a one-character separator. */
  function Split(s: string, c: char): (parts: seq<string>)
    ensures |parts| >= 1
    decreases |s|
  {
    if c !in s then [s]
    else
      var i := IndexOf(s, c);
      [s[..i]] + Split(s[i + 1..], c)
  }

  /** The index of the first occurrence of `c` in `s`. */
  function IndexOf(s: string, c: char): (i: nat)
    requires c in s
    ensures i < |s| && s[i] == c && c !in s[..i]
  {
    if s[0] == c then 0 else
      var i := IndexOf(s[1..], c);
      assert s[..i + 1] == [s[0]] + s[1..][..i];
      i + 1
  }

  /** The first position holding `c`, found by any means, is the one `IndexOf` returns. */
  lemma IndexOfFirst(s: string, c: char, i: nat)
    requires i < |s| && s[i] == c && c !in s[..i]
    ensures IndexOf(s, c) == i
  {
    var j := IndexOf(s, c);
    assert s[j] == c;
  }

  /**
   * Joining with a one-character separator and splitting at that character
   * give back the pieces, provided none of them contains the separator.
   */
  lemma {:induction false} SplitJoin(xs: seq<string>, c: char)
    requires |xs| >= 1
    requires forall k :: 0 <= k < |xs| ==> c !in xs[k]
    ensures Split(Join([c], xs), c) == xs
  {
    if |xs| == 1 {
    } else {
      var s := Join([c], xs);
      var tail := Join([c], xs[1..]);
      assert s == xs[0] + [c] + tail;
      assert c in s by { assert s[|xs[0]|] == c; }
      assert s[..|xs[0]|] == xs[0];
      IndexOfFirst(s, c, |xs[0]|);
      var i := IndexOf(s, c);
      assert s[..i] == xs[0];
      assert s[i + 1..] == tail;
      SplitJoin(xs[1..], c);
    }
  }

  /** The decimal digit character of `d`. */
  function DigitChar(d: nat): (c: char)
    requires d < 10
    ensures '0' <= c <= '9'
  {
    ('0' as int + d) as char
  }

  /** `str(n)` for a natural number: its decimal digits, most significant first. */
  function Decimal(n: nat): (s: string)
    ensures |s| >= 1
    ensures n < 10 ==> |s| == 1
    ensures n < 100 ==> |s| <= 2
    ensures s[0] == '0' <==> n == 0
  {
    if n < 10 then [DigitChar(n)] else Decimal(n / 10) + [DigitChar(n % 10)]
  }

  /** `f'{n:02d}'`: at least two digits, padded with a leading zero. */
  function Pad2(n: nat): (s: string)
    ensures |s| >= 2
    ensures n < 100 ==> |s| == 2
    ensures s[0] == '0' <==> n < 10
  {
    if n < 10 then "0" + Decimal(n) else Decimal(n)
  }

  predicate IsDigits(s: string) {
    forall i :: 0 <= i < |s| ==> '0' <= s[i] <= '9'
  }

  /** The value of a string of decimal digits. */
  function DecimalValue(s: string): nat
    requires IsDigits(s)
  {
    if s == [] then 0 else 10 * DecimalValue(s[..|s| - 1]) + (s[|s| - 1] as int - '0' as int)
  }

  /** Reading back the digits `Decimal` writes gives the number. */
  lemma {:induction false} DecimalRoundTrip(n: nat)
    ensures IsDigits(Decimal(n))
    ensures DecimalValue(Decimal(n)) == n
  {
    if n >= 10 {
      var s := Decimal(n);
      assert s[..|s| - 1] == Decimal(n / 10);
      DecimalRoundTrip(n / 10);
      assert s == Decimal(n / 10) + [DigitChar(n % 10)];
    }
  }

  /**
   * `str(n)` is the only way to write `n` in decimal without a leading zero:
   * any such digit string is the rendering of the value it stands for.
   */
  lemma {:induction false} DecimalCanonical(s: string)
    requires IsDigits(s) && s != [] && (s[0] == '0' ==> |s| == 1)
    ensures s == Decimal(DecimalValue(s))
  {
    var n := |s|;
    var d := s[n - 1] as int - '0' as int;
    if n == 1 {
      assert s[..0] == [];
      assert DigitChar(d) == s[0];
    } else {
      var init := s[..n - 1];
      assert init[0] == s[0];
      DecimalCanonical(init);
      var v := DecimalValue(init);
      assert v != 0;
      assert (10 * v + d) / 10 == v && (10 * v + d) % 10 == d;
      assert DigitChar(d) == s[n - 1];
      assert s == init + [s[n - 1]];
    }
  }

  /** The zero padding does not change the value the digits stand for. */
  lemma {:induction false} Pad2RoundTrip(n: nat)
    ensures IsDigits(Pad2(n))
    ensures DecimalValue(Pad2(n)) == n
  {
    DecimalRoundTrip(n);
    if n < 10 {
      var s := Pad2(n);
      assert s[..1] == "0";
      assert DecimalValue(s[..1]) == 0 by {
        assert s[..1][..0] == [];
      }
    }
  }
}
