/**
 Character-level helpers shared by the decoders: Python's `str.strip()` and
 the ASCII digits accepted by `int()` and by the regular-expression class `\d`.
 */
module Text {

  /** `str.isspace()` on ASCII: HT, LF, VT, FF, CR (9..13), the separators FS..US (28..31) and space (32). */
  predicate IsSpace(c: char) {
    9 <= c as int <= 13 || 28 <= c as int <= 32
  }

  predicate AllSpace(s: string) {
    forall k :: 0 <= k < |s| ==> IsSpace(s[k])
  }

  /** Neither end of `s` is whitespace: what `strip()` leaves. */
  predicate NoEdgeSpace(s: string) {
    |s| == 0 || (!IsSpace(s[0]) && !IsSpace(s[|s| - 1]))
  }

  /** `r` is what remains of `s` once the whitespace runs before `offset`
      and after `offset + |r|` are cut off. */
  predicate IsStripOf(s: string, r: string, offset: nat) {
    && offset + |r| <= |s|
    && r == s[offset..offset + |r|]
    && (forall k :: 0 <= k < offset ==> IsSpace(s[k]))
    && (forall k :: offset + |r| <= k < |s| ==> IsSpace(s[k]))
    && NoEdgeSpace(r)
  }

  /** The end of the whitespace run starting at `i`: `str.lstrip()` keeps `s[SkipSpace(s, 0)..]`. */
  function SkipSpace(s: string, i: nat): (n: nat)
    requires i <= |s|
    ensures i <= n <= |s|
    ensures forall k :: i <= k < n ==> IsSpace(s[k])
    ensures n < |s| ==> !IsSpace(s[n])
    decreases |s| - i
  {
    if i < |s| && IsSpace(s[i]) then SkipSpace(s, i + 1) else i
  }

  /** The start of the whitespace run ending at `j`, not going below `lo`:
      `str.rstrip()` keeps `s[..BackSpace(s, 0, |s|)]`. */
  function BackSpace(s: string, lo: nat, j: nat): (n: nat)
    requires lo <= j <= |s|
    ensures lo <= n <= j
    ensures forall k :: n <= k < j ==> IsSpace(s[k])
    ensures n > lo ==> !IsSpace(s[n - 1])
    decreases j
  {
    if j > lo && IsSpace(s[j - 1]) then BackSpace(s, lo, j - 1) else j
  }

  /** `str.strip()`: the longest middle slice of `s` with no whitespace at either end. */
  function Strip(s: string): (r: string)
    ensures |r| <= |s|
    ensures IsStripOf(s, r, SkipSpace(s, 0))
  {
    var b := SkipSpace(s, 0);
    s[b..BackSpace(s, b, |s|)]
  }

  /** The characterisation `IsStripOf` has exactly one solution, so it is a
      complete description of `Strip`. */
  lemma StripUnique(s: string, r: string, offset: nat)
    requires IsStripOf(s, r, offset)
    ensures r == Strip(s)
  {
    var r', offset' := Strip(s), SkipSpace(s, 0);
    if |r| > 0 && |r'| > 0 {
      assert offset == offset' by {
        assert !IsSpace(s[offset]) by { assert s[offset] == r[0]; }
        assert !IsSpace(s[offset']) by { assert s[offset'] == r'[0]; }
      }
      assert |r| == |r'| by {
        assert !IsSpace(s[offset + |r| - 1]) by { assert s[offset + |r| - 1] == r[|r| - 1]; }
        assert !IsSpace(s[offset' + |r'| - 1]) by { assert s[offset' + |r'| - 1] == r'[|r'| - 1]; }
      }
    }
  }

  /** Stripping twice is stripping once. */
  lemma StripIdempotent(s: string)
    ensures Strip(Strip(s)) == Strip(s)
  {
    var r := Strip(s);
    assert r[0..|r|] == r;
    StripUnique(r, r, 0);
  }

  /** A string with no whitespace at its ends is its own strip. */
  lemma StripOfTrimmed(s: string)
    requires NoEdgeSpace(s)
    ensures Strip(s) == s
  {
    assert s[0..|s|] == s;
    StripUnique(s, s, 0);
  }

  /** `s.strip() == ""` exactly when `s` is all whitespace. */
  lemma StripEmpty(s: string)
    ensures Strip(s) == "" <==> AllSpace(s)
  {
    if AllSpace(s) {
      StripUnique(s, "", 0);
    } else {
      var r := Strip(s);
      var k :| 0 <= k < |s| && !IsSpace(s[k]);
    }
  }

  predicate IsDigit(c: char) {
    '0' <= c <= '9'
  }

  predicate AllDigits(s: string) {
    forall k :: 0 <= k < |s| ==> IsDigit(s[k])
  }

  function DigitValue(c: char): (d: nat)
    requires IsDigit(c)
    ensures d < 10
  {
    c as int - '0' as int
  }

  function DigitChar(d: nat): (c: char)
    requires d < 10
    ensures IsDigit(c) && DigitValue(c) == d
  {
    ('0' as int + d) as char
  }

  function Pow10(n: nat): (p: nat)
    ensures p >= 1
  {
    if n == 0 then 1 else 10 * Pow10(n - 1)
  }

  /** `int(s)` for a string of ASCII digits (leading zeros allowed). */
  function NatOf(s: string): nat
    requires AllDigits(s)
  {
    if |s| == 0 then 0 else 10 * NatOf(s[..|s| - 1]) + DigitValue(s[|s| - 1])
  }

  /** The `width`-digit zero-padded decimal rendering of `n`, as `f"{n:0{width}d}"`
      produces it when `n` fits in `width` digits. */
  function FixedDigits(n: nat, width: nat): (r: string)
    requires n < Pow10(width)
    ensures |r| == width && AllDigits(r) && NatOf(r) == n
  {
    if width == 0 then
      ""
    else
      var r := FixedDigits(n / 10, width - 1) + [DigitChar(n % 10)];
      assert r[..|r| - 1] == FixedDigits(n / 10, width - 1);
      r
  }

  /** A two-digit string denotes ten times its first digit plus its second. */
  lemma PairValue(p: string)
    requires |p| == 2 && AllDigits(p)
    ensures NatOf(p) == 10 * DigitValue(p[0]) + DigitValue(p[1])
  {
    var first := p[..1];
    assert first[..0] == [] && first[0] == p[0];
    assert NatOf(first) == DigitValue(p[0]);
    assert NatOf(p) == 10 * NatOf(first) + DigitValue(p[1]);
  }

  /** A digit string of width w denotes a number below 10^w. */
  lemma {:induction false} NatOfBound(s: string)
    requires AllDigits(s)
    ensures NatOf(s) < Pow10(|s|)
  {
    if |s| > 0 {
      NatOfBound(s[..|s| - 1]);
    }
  }

  /** Rendering the number a digit string denotes, at the string's width, gives the string back. */
  lemma {:induction false} FixedDigitsOfNatOf(s: string)
    requires AllDigits(s)
    ensures NatOf(s) < Pow10(|s|) && FixedDigits(NatOf(s), |s|) == s
  {
    NatOfBound(s);
    if |s| > 0 {
      var init := s[..|s| - 1];
      FixedDigitsOfNatOf(init);
      assert NatOf(s) / 10 == NatOf(init);
      assert NatOf(s) % 10 == DigitValue(s[|s| - 1]);
      assert DigitChar(DigitValue(s[|s| - 1])) == s[|s| - 1];
      assert s == init + [s[|s| - 1]];
    }
  }

  /** Place value: the digits of `a` count 10^|b| times what they count alone. */
  lemma {:induction false} NatOfAppend(a: string, b: string)
    requires AllDigits(a) && AllDigits(b)
    ensures AllDigits(a + b) && NatOf(a + b) == NatOf(a) * Pow10(|b|) + NatOf(b)
  {
    assert AllDigits(a + b);
    if |b| == 0 {
      assert a + b == a;
    } else {
      var b' := b[..|b| - 1];
      var d := DigitValue(b[|b| - 1]);
      assert (a + b)[..|a + b| - 1] == a + b';
      assert NatOf(a + b) == 10 * NatOf(a + b') + d;
      assert NatOf(b) == 10 * NatOf(b') + d;
      NatOfAppend(a, b');
      ShiftPlace(NatOf(a), Pow10(|b'|), NatOf(b'), d);
    }
  }

  lemma ShiftPlace(x: nat, p: nat, y: nat, d: nat)
    ensures 10 * (x * p + y) + d == x * (10 * p) + (10 * y + d)
  {
  }
}
