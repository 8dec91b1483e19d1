/**
 `valeur_formatee_vers_float`: a weight cell's text becomes a number for the
 running total. A missing or blank value is 0.0, a comma is read as the
 decimal point, and text that does not parse is 0.0.

 Python's `float()` is modelled on the decimal shapes a weight takes:
 digits, optionally split by one point ("12", "12.5", "12.", ".5"), read
 as an exact real.
 */
module Normalize {
  import opened Wrappers
  import opened Text
  import Weight

  /** `str.replace(",", ".")` */
  function ReplaceCommas(s: string): (r: string)
    ensures |r| == |s| && ',' !in r
    ensures forall k :: 0 <= k < |s| && s[k] != ',' ==> r[k] == s[k]
    ensures forall k :: 0 <= k < |s| && s[k] == ',' ==> r[k] == '.'
  {
    if |s| == 0 then ""
    else [if s[0] == ',' then '.' else s[0]] + ReplaceCommas(s[1..])
  }

  /** The first position of `c` in `s`. */
  function IndexOf(s: string, c: char): (r: Option<nat>)
    ensures r.Some? ==> r.value < |s| && s[r.value] == c && c !in s[..r.value]
    ensures r.None? ==> c !in s
  {
    if |s| == 0 then None
    else if s[0] == c then Some(0)
    else
      match IndexOf(s[1..], c)
      case None => None
      case Some(i) =>
        assert s[..i + 1] == [s[0]] + s[1..][..i];
        Some(i + 1)
  }

  /** `n` scaled down by 10^places: the number written by n's digits with a point `places` digits from the right. */
  function Scaled(n: nat, places: nat): real {
    n as real / Pow10(places) as real
  }

  /** `float(s)` on an unsigned decimal numeral: digits with at most one point and at least one digit. */
  function ParseUnsigned(s: string): Option<real>
  {
    match IndexOf(s, '.')
    case None =>
      if |s| > 0 && AllDigits(s) then Some(NatOf(s) as real) else None
    case Some(i) =>
      var whole, fraction := s[..i], s[i + 1..];
      if |whole| + |fraction| > 0 && AllDigits(whole) && AllDigits(fraction) then
        Some(NatOf(whole) as real + Scaled(NatOf(fraction), |fraction|))
      else
        None
  }

  /** Only digits and points are read as an unsigned number. */
  lemma ParseUnsignedShape(s: string)
    requires ParseUnsigned(s).Some?
    ensures |s| > 0 && forall k :: 0 <= k < |s| ==> IsDigit(s[k]) || s[k] == '.'
  {
    match IndexOf(s, '.')
    case None =>
    case Some(i) =>
      var whole, fraction := s[..i], s[i + 1..];
      assert forall k :: 0 <= k < i ==> s[k] == whole[k];
      assert forall k :: i < k < |s| ==> s[k] == fraction[k - i - 1];
  }

  /** `float(s)` on a decimal numeral with an optional leading sign. */
  function ParseDecimal(s: string): Option<real> {
    if |s| > 0 && s[0] == '-' then
      match ParseUnsigned(s[1..])
      case None => None
      case Some(x) => Some(-x)
    else if |s| > 0 && s[0] == '+' then
      ParseUnsigned(s[1..])
    else
      ParseUnsigned(s)
  }

  /** A leading '+' changes nothing and a leading '-' negates. */
  lemma SignedValue(u: string)
    requires |u| == 0 || (u[0] != '-' && u[0] != '+')
    ensures ParseDecimal("+" + u) == ParseDecimal(u)
    ensures ParseDecimal("-" + u) == if ParseDecimal(u).Some? then Some(-ParseDecimal(u).value) else None
  {
    assert ("+" + u)[1..] == u;
    assert ("-" + u)[1..] == u;
  }

  /** The number a non-blank, stripped text stands for: commas read as points, 0.0 when it does not parse. */
  function NumberOf(s: string): real {
    ParseDecimal(ReplaceCommas(s)).GetOr(0.0)
  }

  /** `valeur_formatee_vers_float` */
  function ToNumber(v: Option<string>): (r: real)
    ensures v.None? || AllSpace(v.value) ==> r == 0.0
    ensures v.Some? && !AllSpace(v.value) ==> r == NumberOf(Strip(v.value))
  {
    if v.None? then
      0.0
    else
      var s := Strip(v.value);
      StripEmpty(v.value);
      if s == "" then 0.0 else NumberOf(s)
  }

  /** Text already free of surrounding whitespace is read as it stands. */
  lemma ToNumberOfTrimmed(s: string)
    requires |s| > 0 && NoEdgeSpace(s)
    ensures ToNumber(Some(s)) == NumberOf(s)
  {
    StripOfTrimmed(s);
  }

  /** With its first point at `i`, a numeral is read as the digits before it plus those after it scaled down. */
  lemma ParseAtPoint(s: string, i: nat, whole: string, fraction: string)
    requires IndexOf(s, '.') == Some(i)
    requires whole == s[..i] && fraction == s[i + 1..]
    requires |whole| + |fraction| > 0 && AllDigits(whole) && AllDigits(fraction)
    ensures ParseUnsigned(s) == Some(NatOf(whole) as real + Scaled(NatOf(fraction), |fraction|))
  {
  }

  /** A numeral `whole.fraction` is read as its integer part plus its fraction digits over 10^|fraction|. */
  lemma ParsePointed(whole: string, fraction: string)
    requires AllDigits(whole) && AllDigits(fraction) && |whole| + |fraction| > 0
    ensures ParseUnsigned(whole + "." + fraction)
         == Some(NatOf(whole) as real + Scaled(NatOf(fraction), |fraction|))
  {
    var s := whole + ['.'] + fraction;
    assert s == whole + "." + fraction;
    assert '.' !in whole by {
      assert forall k :: 0 <= k < |whole| ==> IsDigit(whole[k]);
    }
    IndexOfFirst(whole, '.', fraction);
    assert s[..|whole|] == whole;
    assert s[|whole| + 1..] == fraction;
    ParseAtPoint(s, |whole|, whole, fraction);
  }

  /** A numeral `whole.fraction` denotes its digits read as one integer, scaled down by 10^|fraction|. */
  lemma DecimalValue(whole: string, fraction: string)
    requires AllDigits(whole) && AllDigits(fraction) && |whole| + |fraction| > 0
    ensures AllDigits(whole + fraction)
    ensures ParseUnsigned(whole + "." + fraction) == Some(Scaled(NatOf(whole + fraction), |fraction|))
  {
    ParsePointed(whole, fraction);
    NatOfAppend(whole, fraction);
    ScaleDown(NatOf(whole + fraction), NatOf(whole), |fraction|, NatOf(fraction));
  }

  /** `c` found right after a prefix free of `c`. */
  lemma {:induction false} IndexOfFirst(prefix: string, c: char, rest: string)
    requires c !in prefix
    ensures IndexOf(prefix + [c] + rest, c) == Some(|prefix|)
  {
    if |prefix| > 0 {
      assert (prefix + [c] + rest)[1..] == prefix[1..] + [c] + rest;
      IndexOfFirst(prefix[1..], c, rest);
    }
  }

  /** Scaling down distributes over the integer and fraction parts of the digits. */
  lemma ScaleDown(n: nat, x: nat, places: nat, y: nat)
    requires n == x * Pow10(places) + y
    ensures Scaled(n, places) == x as real + Scaled(y, places)
  {
    var p := Pow10(places);
    assert n as real == x as real * p as real + y as real;
  }

  /** A comma-decimal weight string reads as its digits scaled down by 10^|fraction|. */
  lemma CommaDecimalValue(whole: string, fraction: string)
    requires AllDigits(whole) && AllDigits(fraction) && |whole| > 0 && |fraction| > 0
    ensures AllDigits(whole + fraction)
    ensures NumberOf(whole + "," + fraction) == Scaled(NatOf(whole + fraction), |fraction|)
  {
    CommaToPoint(whole, fraction);
    DecimalValue(whole, fraction);
    assert (whole + "." + fraction)[0] == whole[0];
  }

  /** Replacing commas only touches commas. */
  lemma CommaToPoint(whole: string, fraction: string)
    requires AllDigits(whole) && AllDigits(fraction)
    ensures ReplaceCommas(whole + "," + fraction) == whole + "." + fraction
  {
    var w, r := whole + "," + fraction, ReplaceCommas(whole + "," + fraction);
    var expected := whole + "." + fraction;
    forall k | 0 <= k < |w|
      ensures r[k] == expected[k]
    {
      if k < |whole| {
        assert w[k] == whole[k] && expected[k] == whole[k];
      } else if k == |whole| {
        assert w[k] == ',' && expected[k] == '.';
      } else {
        assert w[k] == fraction[k - |whole| - 1] && expected[k] == fraction[k - |whole| - 1];
      }
    }
  }

  /** A run of digits reads as the integer it denotes. */
  lemma PlainDigitsValue(n: string)
    requires AllDigits(n) && |n| > 0
    ensures NumberOf(n) == NatOf(n) as real
  {
    NoCommaUnchanged(n);
    assert '.' !in n && IsDigit(n[0]);
  }

  /** A string without commas is left alone. */
  lemma NoCommaUnchanged(s: string)
    requires ',' !in s
    ensures ReplaceCommas(s) == s
  {
    var r := ReplaceCommas(s);
    assert forall k :: 0 <= k < |s| ==> r[k] == s[k];
  }

  /** The 13-character layout: the weight reads back as characters 7..11 taken as grams, in kilograms. */
  lemma ShortWeightValue(s: string)
    requires |s| == Weight.ShortLength && AllDigits(s[7..12])
    ensures Weight.DecodeWeight(s).Some?
    ensures NumberOf(Weight.DecodeWeight(s).value) == Scaled(NatOf(s[7..12]), 3)
  {
    var digits := s[7..12];
    assert s[7..9] == digits[..2] by {
      assert forall k :: 7 <= k < 9 ==> s[k] == digits[k - 7];
    }
    assert s[9..12] == digits[2..] by {
      assert forall k :: 9 <= k < 12 ==> s[k] == digits[k - 7];
    }
    SplitDigitsValue(digits, 2);
  }

  /** AI 3100: the weight reads back as the six digits, in whole kilograms. */
  lemma WholeKilogramsValue(s: string)
    requires |s| >= Weight.AiEnd && s[16..19] == Weight.NetWeightAi && s[19] == '0'
    requires AllDigits(s[20..26])
    ensures Weight.DecodeWeight(s).Some?
    ensures NumberOf(Weight.DecodeWeight(s).value) == NatOf(s[20..26]) as real
  {
    Weight.NetWeightLayout(s, 0);
    PlainDigitsValue(s[20..26]);
  }

  /** AI 310n with n in 1..5: the weight reads back as the six digits scaled down by 10^n. */
  lemma FractionalKilogramsValue(s: string, k: nat)
    requires |s| >= Weight.AiEnd && s[16..19] == Weight.NetWeightAi
    requires 0 < k <= Weight.MaxDecimals && s[19] == DigitChar(k)
    requires AllDigits(s[20..26])
    ensures Weight.DecodeWeight(s).Some?
    ensures NumberOf(Weight.DecodeWeight(s).value) == Scaled(NatOf(s[20..26]), k)
  {
    Weight.NetWeightLayout(s, k);
    SliceCut(s, 20, 26 - k, 26);
    SplitDigitsValue(s[20..26], 6 - k);
  }

  /** A run of digits with a comma inserted at `p` reads as the run scaled down by 10^(|n| - p). */
  lemma SplitDigitsValue(n: string, p: nat)
    requires AllDigits(n) && 0 < p < |n|
    ensures NumberOf(n[..p] + "," + n[p..]) == Scaled(NatOf(n), |n| - p)
  {
    var whole, fraction := n[..p], n[p..];
    SplitDigits(n, p);
    CommaDecimalValue(whole, fraction);
    assert NatOf(whole + fraction) == NatOf(n) && |fraction| == |n| - p;
  }

  /** Cutting the slice `s[lo..hi]` at `mid` gives the slices `s[lo..mid]` and `s[mid..hi]`. */
  lemma SliceCut(s: string, lo: nat, mid: nat, hi: nat)
    requires lo <= mid <= hi <= |s|
    ensures s[lo..hi][..mid - lo] == s[lo..mid] && s[lo..hi][mid - lo..] == s[mid..hi]
  {
  }

  /** Both sides of a cut through a run of digits are runs of digits. */
  lemma SplitDigits(n: string, p: nat)
    requires AllDigits(n) && p <= |n|
    ensures AllDigits(n[..p]) && AllDigits(n[p..]) && n[..p] + n[p..] == n
  {
    assert forall j :: 0 <= j < p ==> n[..p][j] == n[j];
    assert forall j :: p <= j < |n| ==> n[p..][j - p] == n[j];
  }

  /** Whitespace around a weight is stripped before it is read: " 2,345" reads as "2,345". */
  lemma PaddedExample()
    ensures ToNumber(Some(" 2,345")) == NumberOf("2,345")
  {
    assert " 2,345"[1..6] == "2,345";
    StripUnique(" 2,345", "2,345", 1);
  }

  /** "1,5" is 1.5. */
  lemma CommaExample()
    ensures ToNumber(Some("1,5")) == 1.5
  {
    assert Strip("1,5") == "1,5";
    assert ReplaceCommas("1,5") == "1.5";
    assert IndexOf("1.5", '.') == Some(1);
    assert NatOf("1") == 1 && NatOf("5") == 5;
  }

  /** A leading minus sign negates what the rest of the text reads as, 0.0 included. */
  lemma MinusNegates(w: string)
    requires |w| == 0 || (w[0] != '-' && w[0] != '+')
    ensures NumberOf("-" + w) == -NumberOf(w)
  {
    var u := ReplaceCommas(w);
    assert ReplaceCommas("-" + w) == "-" + u by {
      assert ("-" + w)[1..] == w;
    }
    SignedValue(u);
  }

  /** A negative comma-decimal weight, such as "-1,5", reads as minus its digits scaled down. */
  lemma NegativeCommaDecimalValue(whole: string, fraction: string)
    requires AllDigits(whole) && AllDigits(fraction) && |whole| > 0 && |fraction| > 0
    ensures AllDigits(whole + fraction)
    ensures NumberOf("-" + (whole + "," + fraction)) == -(Scaled(NatOf(whole + fraction), |fraction|))
  {
    CommaDecimalValue(whole, fraction);
    assert (whole + "," + fraction)[0] == whole[0];
    MinusNegates(whole + "," + fraction);
  }

  /** Blank and non-numeric text are 0.0. */
  lemma ZeroExamples()
    ensures ToNumber(None) == 0.0
    ensures ToNumber(Some("")) == 0.0
    ensures ToNumber(Some(" \t")) == 0.0
    ensures ToNumber(Some("abc")) == 0.0
  {
    assert AllSpace(" \t");
    NonNumericAt("abc");
  }

  lemma NonNumericAt(s: string)
    requires s == "abc"
    ensures ToNumber(Some(s)) == 0.0
  {
    assert !IsSpace(s[0]) && !IsSpace(s[2]);
    ToNumberOfTrimmed(s);
    NoCommaUnchanged(s);
    assert !AllDigits(s) && IndexOf(s, '.') == None;
  }
}
