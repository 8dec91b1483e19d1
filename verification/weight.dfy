/**
 The weight decoder `formater_ligne`: a scanned line becomes a weight string
 with a comma as decimal separator, or None when the layout is not recognised.

 Two layouts are known. A 13-character EAN-13 variable-measure code carries
 the weight in grams at characters 7..11. A GS1 element string of at least 26
 characters carries AI 310n (net weight in kilograms, n decimals) at
 characters 16..25: "310", the decimal-count digit n, then six digits.
 */
module Weight {
  import opened Wrappers
  import opened Text

  /** Length of the short EAN-13 variable-measure layout. */
  const ShortLength := 13
  /** The weight occupies characters 7..11 of the short layout. */
  const ShortWeightStart := 7
  const ShortWeightEnd := 12
  /** The short layout's weight has two digits before the comma (kilograms) and three after (grams). */
  const ShortIntegerDigits := 2

  /** The AI 310n segment occupies characters 16..25 of the long layout. */
  const AiStart := 16
  const AiEnd := 26
  /** AI 310n: net weight in kilograms. */
  const NetWeightAi := "310"
  /** Length of the "310n" format code. */
  const FormatCodeLength := 4
  /** AI 310n carries six digits. */
  const WeightDigits := 6
  /** The largest decimal count the decoder knows, from code "3105". */
  const MaxDecimals := 5

  /** The table of known format codes: "310n" for n in 0..5 gives n decimals. */
  function DecimalsFor(code: string): (k: Option<nat>)
    ensures k.Some? <==> |code| == FormatCodeLength && code[..3] == NetWeightAi && '0' <= code[3] <= '5'
    ensures k.Some? ==> k.value <= MaxDecimals && k.value == DigitValue(code[3])
  {
    if code == "3100" then Some(0)
    else if code == "3101" then Some(1)
    else if code == "3102" then Some(2)
    else if code == "3103" then Some(3)
    else if code == "3104" then Some(4)
    else if code == "3105" then Some(5)
    else None
  }

  /** The formatter the table selects for `k` decimals, applied to the digit run `n`:
      k = 0 keeps the run, otherwise a comma goes after its first 6 - k characters,
      provided the run is longer than that. */
  function InsertDecimal(k: nat, n: string): (r: Option<string>)
    requires k <= MaxDecimals
    ensures r.Some? <==> k == 0 || |n| > WeightDigits - k
    ensures r.Some? && k == 0 ==> r.value == n
    ensures r.Some? && k > 0 ==>
      var p := WeightDigits - k;
      && |r.value| == |n| + 1
      && r.value[p] == ','
      && r.value[..p] + r.value[p + 1..] == n
  {
    if k == 0 then
      Some(n)
    else
      var p := WeightDigits - k;
      if |n| > p then
        var w := n[..p] + "," + n[p..];
        assert w[..p] + w[p + 1..] == n[..p] + n[p..];
        assert n[..p] + n[p..] == n;
        Some(w)
      else
        None
  }

  /** `formater_ligne`: the decoded weight string of a scanned line, or None. */
  function FormatLine(line: Option<string>): (r: Option<string>)
    ensures line.None? ==> r.None?
    ensures r.Some? ==> |r.value| == WeightDigits || |r.value| == WeightDigits + 1
    ensures line.Some? && |Strip(line.value)| == ShortLength ==>
      var s := Strip(line.value);
      r == Some(s[7..9] + "," + s[9..12])
    ensures line.Some? && |Strip(line.value)| != ShortLength && |Strip(line.value)| < AiEnd ==> r.None?
    ensures line.Some? && |Strip(line.value)| >= AiEnd ==>
      var s := Strip(line.value);
      (r.Some? <==> s[16..19] == NetWeightAi && '0' <= s[19] <= '5')
  {
    if line.None? then None else DecodeWeight(Strip(line.value))
  }

  /** The layout dispatch on the stripped line `s`. */
  function DecodeWeight(s: string): (r: Option<string>)
    ensures r.Some? ==> |r.value| == WeightDigits || |r.value| == WeightDigits + 1
    ensures |s| == ShortLength ==> r == Some(s[7..9] + "," + s[9..12])
    ensures |s| != ShortLength && |s| < AiEnd ==> r.None?
    ensures |s| >= AiEnd ==> (r.Some? <==> s[16..19] == NetWeightAi && '0' <= s[19] <= '5')
  {
    if |s| == ShortLength then
      ShortWeight(s)
    else if |s| < AiEnd then
      None
    else
      NetWeight(s)
  }

  /** The 13-character branch: characters 7..11 as "xx,xxx". */
  function ShortWeight(s: string): (r: Option<string>)
    requires |s| == ShortLength
    ensures r == Some(s[7..9] + "," + s[9..12])
  {
    var extract := s[ShortWeightStart..ShortWeightEnd];
    assert extract[..ShortIntegerDigits] == s[7..9] && extract[ShortIntegerDigits..] == s[9..12];
    if |extract| >= 5 then
      Some(extract[..ShortIntegerDigits] + "," + extract[ShortIntegerDigits..])
    else
      None
  }

  /** The GS1 branch: the AI 310n segment at characters 16..25. */
  function NetWeight(s: string): (r: Option<string>)
    requires |s| >= AiEnd
    ensures r.Some? <==> s[16..19] == NetWeightAi && '0' <= s[19] <= '5'
    ensures r.Some? ==> |r.value| == WeightDigits || |r.value| == WeightDigits + 1
    ensures r.Some? ==>
      var k := DigitValue(s[19]);
      r.value == if k == 0 then s[20..26] else s[20..26 - k] + "," + s[26 - k..26]
  {
    var segment := s[AiStart..AiEnd];
    assert segment[..3] == s[16..19];
    if segment[..3] != NetWeightAi then
      None
    else
      var code := segment[..FormatCodeLength];
      var number := segment[FormatCodeLength..];
      assert code[..3] == s[16..19] && code[3] == s[19];
      assert number == s[20..26];
      match DecimalsFor(code)
      case None => None
      case Some(k) =>
        assert k > 0 ==> number[..WeightDigits - k] == s[20..26 - k] && number[WeightDigits - k..] == s[26 - k..26];
        InsertDecimal(k, number)
  }

  /** AI 310n with n decimals: the six digits after the code, with a comma
      before the last n of them (none when n = 0). */
  lemma NetWeightLayout(s: string, k: nat)
    requires |s| >= AiEnd && s[16..19] == NetWeightAi
    requires k <= MaxDecimals && s[19] == DigitChar(k)
    ensures DecodeWeight(s) == Some(if k == 0 then s[20..26] else s[20..26 - k] + "," + s[26 - k..26])
  {
  }

  /** Decoding is one-shot: a decoded weight is too short to be decoded again. */
  lemma DecodeOnce(line: Option<string>)
    requires FormatLine(line).Some?
    ensures FormatLine(FormatLine(line)) == None
  {
  }

  /** 1234567890123 decodes to 89,012: characters 7..11 are "89012". */
  lemma ShortLayoutExample()
    ensures FormatLine(Some("1234567890123")) == Some("89,012")
  {
    ShortLayoutExampleAt("1234567890123");
  }

  lemma ShortLayoutExampleAt(s: string)
    requires s == "1234567890123"
    ensures FormatLine(Some(s)) == Some("89,012")
  {
    assert Strip(s) == s by {
      assert NoEdgeSpace(s);
      StripOfTrimmed(s);
    }
    assert s[7..9] + "," + s[9..12] == "89,012";
  }

  /** AI 3103 with digits 123456 decodes to 123,456. */
  lemma NetWeightExample()
    ensures FormatLine(Some("01234567890123453103123456")) == Some("123,456")
  {
    NetWeightExampleAt("01234567890123453103123456");
  }

  lemma NetWeightExampleAt(s: string)
    requires s == "01234567890123453103123456"
    ensures FormatLine(Some(s)) == Some("123,456")
  {
    assert Strip(s) == s by {
      assert NoEdgeSpace(s);
      StripOfTrimmed(s);
    }
    assert s[16..19] == NetWeightAi;
    assert s[19] == DigitChar(3);
    assert s[20..23] + "," + s[23..26] == "123,456";
    NetWeightLayout(s, 3);
  }
}
