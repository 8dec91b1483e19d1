/**
 The expiry-date decoder `extraire_dlc_from_scan`: the best-before date of a
 GS1 element string (AI 15, YYMMDD), searched for from character 26 on and
 rendered as "DD/MM/YYYY", or None.

 The century is fixed: YY is read as 20YY. A date that does not exist on the
 calendar (month 13, 30 February, day 00) gives None, as Python's `datetime`
 constructor raising does.
 */
module Expiry {
  import opened Wrappers
  import opened Text

  /** The search for AI 15 starts at character 26, after the weight segment. */
  const SearchStart := 26
  /** YY is read as 2000 + YY. */
  const Century := 2000
  /** "15" followed by six digits. */
  const MatchLength := 8
  /** Length of "DD/MM/YYYY". */
  const RenderedLength := 10
  /** The year range Python's `datetime` accepts. */
  const MinYear := 1
  const MaxYear := 9999

  datatype Date = Date(year: int, month: int, day: int)

  /** The Gregorian leap-year rule. */
  predicate IsLeapYear(year: int) {
    year % 4 == 0 && (year % 100 != 0 || year % 400 == 0)
  }

  function DaysInMonth(year: int, month: int): (n: int)
    requires 1 <= month <= 12
    ensures 28 <= n <= 31
    ensures n == 29 <==> month == 2 && IsLeapYear(year)
    ensures n == 30 <==> month in {4, 6, 9, 11}
    ensures n == 31 <==> month in {1, 3, 5, 7, 8, 10, 12}
  {
    if month == 2 then (if IsLeapYear(year) then 29 else 28)
    else if month == 4 || month == 6 || month == 9 || month == 11 then 30
    else 31
  }

  /** The dates `datetime(year, month, day)` accepts. */
  predicate IsValidDate(d: Date) {
    && MinYear <= d.year <= MaxYear
    && 1 <= d.month <= 12
    && 1 <= d.day <= DaysInMonth(d.year, d.month)
  }

  /** Within 2000..2099 the leap years are exactly those whose YY is a multiple of 4. */
  lemma CenturyLeapYears(yy: int)
    requires 0 <= yy < 100
    ensures IsLeapYear(Century + yy) <==> yy % 4 == 0
  {
    assert (Century + yy) % 4 == yy % 4;
    if yy == 0 {
      assert (Century + yy) % 400 == 0;
    } else {
      assert (Century + yy) % 100 == yy;
    }
  }

  /** "15" followed by six ASCII digits starts at position `i` of `t` (the pattern `15(\d{6})`). */
  predicate MatchAt(t: string, i: int) {
    && 0 <= i && i + MatchLength <= |t|
    && t[i] == '1' && t[i + 1] == '5'
    && AllDigits(t[i + 2..i + MatchLength])
  }

  /** `i` is where `re.search` finds the pattern: a match with none further left. */
  predicate IsFirstMatch(t: string, i: int) {
    MatchAt(t, i) && forall j :: 0 <= j < i ==> !MatchAt(t, j)
  }

  /** The leftmost match at or after `from`. */
  function FindFrom(t: string, from: nat): (r: Option<nat>)
    ensures r.Some? ==> from <= r.value && MatchAt(t, r.value)
    ensures r.Some? ==> forall j :: from <= j < r.value ==> !MatchAt(t, j)
    ensures r.None? ==> forall j :: from <= j ==> !MatchAt(t, j)
    decreases |t| - from
  {
    if from + MatchLength > |t| then None
    else if MatchAt(t, from) then Some(from)
    else FindFrom(t, from + 1)
  }

  /** The `try` block: YYMMDD read as a date of the 2000s, if the calendar has it. */
  function DateOf(yymmdd: string): (r: Option<Date>)
    requires |yymmdd| == 6 && AllDigits(yymmdd)
    ensures r.Some? ==> IsValidDate(r.value) && Century <= r.value.year < Century + 100
  {
    var year := Century + NatOf(yymmdd[0..2]);
    var month := NatOf(yymmdd[2..4]);
    var day := NatOf(yymmdd[4..6]);
    NatOfBound(yymmdd[0..2]);
    var d := Date(year, month, day);
    if IsValidDate(d) then Some(d) else None
  }

  /** `f"{day:02d}/{month:02d}/{year:04d}"` */
  function Render(d: Date): (r: string)
    requires 0 <= d.day < 100 && 0 <= d.month < 100 && 0 <= d.year < 10000
    ensures |r| == RenderedLength && r[2] == '/' && r[5] == '/'
  {
    FixedDigits(d.day, 2) + "/" + FixedDigits(d.month, 2) + "/" + FixedDigits(d.year, 4)
  }

  /** Reads "DD/MM/YYYY" back: the inverse of `Render`. */
  function ParseRendered(s: string): (r: Option<Date>)
    ensures r.Some? ==> 0 <= r.value.day < 100 && 0 <= r.value.month < 100 && 0 <= r.value.year < 10000
  {
    if |s| == RenderedLength && s[2] == '/' && s[5] == '/'
       && AllDigits(s[0..2]) && AllDigits(s[3..5]) && AllDigits(s[6..10])
    then
      NatOfBound(s[0..2]);
      NatOfBound(s[3..5]);
      NatOfBound(s[6..10]);
      Some(Date(NatOf(s[6..10]), NatOf(s[3..5]), NatOf(s[0..2])))
    else
      None
  }

  /** Rendering loses nothing: reading the rendering back gives the date. */
  lemma RenderRoundTrip(d: Date)
    requires 0 <= d.day < 100 && 0 <= d.month < 100 && 0 <= d.year < 10000
    ensures ParseRendered(Render(d)) == Some(d)
  {
    var dd, mm, yyyy := FixedDigits(d.day, 2), FixedDigits(d.month, 2), FixedDigits(d.year, 4);
    RenderOf(d.year, d.month, d.day, yyyy, mm, dd);
    ParseJoined(dd, mm, yyyy);
  }

  /** "DD/MM/YYYY" built from digit fields reads back as those fields' numbers. */
  lemma ParseJoined(dd: string, mm: string, yyyy: string)
    requires |dd| == 2 && |mm| == 2 && |yyyy| == 4
    requires AllDigits(dd) && AllDigits(mm) && AllDigits(yyyy)
    ensures ParseRendered(dd + "/" + mm + "/" + yyyy) == Some(Date(NatOf(yyyy), NatOf(mm), NatOf(dd)))
  {
    var s := dd + "/" + mm + "/" + yyyy;
    assert |s| == RenderedLength && s[2] == '/' && s[5] == '/';
    assert s[0..2] == dd by {
      assert forall k :: 0 <= k < 2 ==> s[k] == dd[k];
    }
    assert s[3..5] == mm by {
      assert forall k :: 0 <= k < 2 ==> s[k + 3] == mm[k];
    }
    assert s[6..10] == yyyy by {
      assert forall k :: 0 <= k < 4 ==> s[k + 6] == yyyy[k];
    }
  }

  /** Reading loses nothing: every readable "DD/MM/YYYY" is the rendering of what it reads as. */
  lemma ParseRoundTrip(s: string)
    requires ParseRendered(s).Some?
    ensures Render(ParseRendered(s).value) == s
  {
    FixedDigitsOfNatOf(s[0..2]);
    FixedDigitsOfNatOf(s[3..5]);
    FixedDigitsOfNatOf(s[6..10]);
    assert s == s[0..2] + "/" + s[3..5] + "/" + s[6..10];
  }

  /** `extraire_dlc_from_scan`: the best-before date of a scanned line as "DD/MM/YYYY", or None. */
  function ExtractExpiry(text: Option<string>): (r: Option<string>)
    ensures text.None? ==> r.None?
    ensures text.Some? && |Strip(text.value)| <= SearchStart ==> r.None?
    ensures r.Some? ==>
      && |r.value| == RenderedLength
      && ParseRendered(r.value).Some?
      && IsValidDate(ParseRendered(r.value).value)
      && Century <= ParseRendered(r.value).value.year < Century + 100
  {
    if text.None? then None else ExpiryOf(Strip(text.value))
  }

  /** The decoder on a line already stripped of surrounding whitespace. */
  function ExpiryOf(s: string): (r: Option<string>)
    ensures |s| <= SearchStart ==> r.None?
    ensures r.Some? ==>
      && |r.value| == RenderedLength
      && ParseRendered(r.value).Some?
      && IsValidDate(ParseRendered(r.value).value)
      && Century <= ParseRendered(r.value).value.year < Century + 100
  {
    if |s| <= SearchStart then
      None
    else
      var rest := s[SearchStart..];
      match FindFrom(rest, 0)
      case None => None
      case Some(i) =>
        match DateOf(rest[i + 2..i + MatchLength])
        case None => None
        case Some(d) =>
          RenderRoundTrip(d);
          Some(Render(d))
  }

  /** Surrounding whitespace does not change the decoding. */
  lemma ExtractTrimmed(s: string)
    requires NoEdgeSpace(s)
    ensures ExtractExpiry(Some(s)) == ExpiryOf(s)
  {
    StripOfTrimmed(s);
  }

  /** The date a matched YYMMDD decodes to, spelled out: the pairs reordered as DD/MM/20YY
      when they form a real date, None otherwise. */
  function DecodedFields(m: string): (r: Option<string>)
    requires |m| == 6 && AllDigits(m)
    ensures r.Some? ==> |r.value| == RenderedLength
  {
    assert AllDigits(m[0..2]) && AllDigits(m[2..4]) && AllDigits(m[4..6]);
    if IsValidDate(Date(Century + NatOf(m[0..2]), NatOf(m[2..4]), NatOf(m[4..6])))
    then Some(m[4..6] + "/" + m[2..4] + "/20" + m[0..2])
    else None
  }

  /** The leftmost AI 15 match in characters 26 on decides: its digit pairs, reordered
      as DD/MM/20YY, when they form a real date, and None otherwise. */
  lemma ExpiryOfFirstMatch(s: string, i: nat)
    requires |s| > SearchStart && IsFirstMatch(s[SearchStart..], i)
    ensures ExpiryOf(s) == DecodedFields(s[SearchStart..][i + 2..i + MatchLength])
  {
    var rest := s[SearchStart..];
    assert FindFrom(rest, 0) == Some(i);
    MatchedDate(rest[i + 2..i + MatchLength]);
  }

  /** A matched YYMMDD gives DD/MM/20YY when it is a real date, and None otherwise. */
  lemma MatchedDate(m: string)
    requires |m| == 6 && AllDigits(m)
    ensures AllDigits(m[0..2]) && AllDigits(m[2..4]) && AllDigits(m[4..6])
    ensures
      var d := Date(Century + NatOf(m[0..2]), NatOf(m[2..4]), NatOf(m[4..6]));
      match DateOf(m)
      case None => !IsValidDate(d)
      case Some(e) => IsValidDate(d) && e == d && Render(e) == m[4..6] + "/" + m[2..4] + "/20" + m[0..2]
  {
    var yy, mm, dd := m[0..2], m[2..4], m[4..6];
    assert AllDigits(yy) && AllDigits(mm) && AllDigits(dd);
    RenderedPairs(yy, mm, dd, Century + NatOf(yy));
  }

  /** Rendering a date read from digit pairs gives the same pairs back. */
  lemma RenderedPairs(yy: string, mm: string, dd: string, year: nat)
    requires |yy| == 2 && |mm| == 2 && |dd| == 2
    requires AllDigits(yy) && AllDigits(mm) && AllDigits(dd)
    requires year == Century + NatOf(yy)
    ensures year < 10000 && NatOf(mm) < 100 && NatOf(dd) < 100
    ensures Render(Date(year, NatOf(mm), NatOf(dd))) == dd + "/" + mm + "/20" + yy
  {
    PairDigits(mm);
    PairDigits(dd);
    CenturyDigits(yy, year);
    RenderCentury(year, NatOf(mm), NatOf(dd), yy, mm, dd);
  }

  /** `Render` of a year of the 2000s writes "20" and the pair YY. */
  lemma RenderCentury(year: nat, month: nat, day: nat, yy: string, mm: string, dd: string)
    requires day < 100 && month < 100 && year < 10000
    requires FixedDigits(day, 2) == dd && FixedDigits(month, 2) == mm && FixedDigits(year, 4) == "20" + yy
    ensures Render(Date(year, month, day)) == dd + "/" + mm + "/20" + yy
  {
    RenderOf(year, month, day, "20" + yy, mm, dd);
    SlashCentury(dd, mm, yy);
  }

  /** `Render` places the three padded fields between slashes. */
  lemma RenderOf(year: nat, month: nat, day: nat, yyyy: string, mm: string, dd: string)
    requires day < 100 && month < 100 && year < 10000
    requires FixedDigits(day, 2) == dd && FixedDigits(month, 2) == mm && FixedDigits(year, 4) == yyyy
    ensures Render(Date(year, month, day)) == dd + "/" + mm + "/" + yyyy
  {
  }

  lemma SlashCentury(dd: string, mm: string, yy: string)
    ensures dd + "/" + mm + "/" + ("20" + yy) == dd + "/" + mm + "/20" + yy
  {
    var x := dd + "/" + mm;
    assert "/20" == "/" + "20";
    assert x + "/20" + yy == x + "/" + ("20" + yy);
  }

  /** A two-digit pair is the zero-padded rendering of the number it denotes. */
  lemma PairDigits(p: string)
    requires |p| == 2 && AllDigits(p)
    ensures NatOf(p) < 100 && FixedDigits(NatOf(p), 2) == p
  {
    assert Pow10(2) == 100;
    FixedDigitsOfNatOf(p);
  }

  /** The four-digit year 20YY is "20" followed by the pair YY. */
  lemma CenturyDigits(yy: string, year: nat)
    requires |yy| == 2 && AllDigits(yy) && year == Century + NatOf(yy)
    ensures year < 10000 && FixedDigits(year, 4) == "20" + yy
  {
    var century := "20";
    assert NatOf(century) == 20 by {
      assert century[..1] == "2";
    }
    assert Pow10(|yy|) == 100;
    NatOfAppend(century, yy);
    assert NatOf(century + yy) == year;
    FixedDigitsOfNatOf(century + yy);
  }

  /** Without an AI 15 match in characters 26 on there is no date. */
  lemma ExpiryWithoutMatch(s: string)
    requires |s| > SearchStart
    requires forall j :: !MatchAt(s[SearchStart..], j)
    ensures ExpiryOf(s) == None
  {
  }

  /** Only characters 26 on are searched: two lines that agree there decode alike. */
  lemma ExpiryIgnoresPrefix(s: string, t: string)
    requires |s| > SearchStart && |t| > SearchStart && s[SearchStart..] == t[SearchStart..]
    ensures ExpiryOf(s) == ExpiryOf(t)
  {
  }

  /** A line of 26 leading characters, then "15", six digits and any tail, is decided by those
      six digits: the first match in characters 26 on sits right at character 26. */
  lemma ExpiryAfterPrefix(p: string, m: string, tail: string)
    requires |p| == SearchStart && !IsSpace(p[0])
    requires |m| == 6 && AllDigits(m)
    requires |tail| == 0 || !IsSpace(tail[|tail| - 1])
    ensures ExtractExpiry(Some(p + ("15" + m + tail))) == DecodedFields(m)
  {
    var rest := "15" + m + tail;
    var s := p + rest;
    assert s[SearchStart..] == rest;
    assert rest[2..MatchLength] == m by {
      assert forall k :: 0 <= k < 6 ==> rest[k + 2] == m[k];
    }
    assert NoEdgeSpace(s) by {
      assert s[0] == p[0];
      assert s[|s| - 1] == rest[|rest| - 1];
      if |tail| == 0 {
        assert rest[|rest| - 1] == m[5];
      } else {
        assert rest[|rest| - 1] == tail[|tail| - 1];
      }
    }
    ExtractTrimmed(s);
    assert IsFirstMatch(rest, 0);
    ExpiryOfFirstMatch(s, 0);
  }

  /** A line too short to hold a match after character 26 has no date. */
  lemma ShortTailNoDate(s: string)
    requires NoEdgeSpace(s) && |s| < SearchStart + MatchLength
    ensures ExtractExpiry(Some(s)) == None
  {
    ExtractTrimmed(s);
  }

  /** 28 February 2023 after character 26 is found, whatever the 26 characters before it. */
  lemma ValidDateExample(p: string)
    requires |p| == SearchStart && !IsSpace(p[0])
    ensures ExtractExpiry(Some(p + "15230228")) == Some("28/02/2023")
  {
    var m := "230228";
    assert "15230228" == "15" + m + "";
    ExpiryAfterPrefix(p, m, "");
    ValidDateFields(m);
  }

  lemma ValidDateFields(m: string)
    requires m == "230228"
    ensures DecodedFields(m) == Some("28/02/2023")
  {
    PairValue("02"); PairValue("28"); PairValue("23");
    assert m[0..2] == "23" && m[2..4] == "02" && m[4..6] == "28";
    assert NatOf("23") == 23 && NatOf("02") == 2 && NatOf("28") == 28;
    assert IsValidDate(Date(2023, 2, 28));
    assert "28" + "/" + "02" + "/20" + "23" == "28/02/2023";
  }

  /** 29 February exists in 2024 (YY = 24, a multiple of 4). */
  lemma LeapDayExample(p: string)
    requires |p| == SearchStart && !IsSpace(p[0])
    ensures ExtractExpiry(Some(p + "15240229")) == Some("29/02/2024")
  {
    var m := "240229";
    assert "15240229" == "15" + m + "";
    ExpiryAfterPrefix(p, m, "");
    LeapDayFields(m);
  }

  lemma LeapDayFields(m: string)
    requires m == "240229"
    ensures DecodedFields(m) == Some("29/02/2024")
  {
    PairValue("02"); PairValue("29"); PairValue("24");
    assert m[0..2] == "24" && m[2..4] == "02" && m[4..6] == "29";
    assert NatOf("24") == 24 && NatOf("02") == 2 && NatOf("29") == 29;
    assert IsLeapYear(2024);
    assert "29" + "/" + "02" + "/20" + "24" == "29/02/2024";
  }

  /** 30 February 2023 does not exist, so there is no date. */
  lemma InvalidDateExample(p: string)
    requires |p| == SearchStart && !IsSpace(p[0])
    ensures ExtractExpiry(Some(p + "15230230")) == None
  {
    var m := "230230";
    assert "15230230" == "15" + m + "";
    ExpiryAfterPrefix(p, m, "");
    InvalidDateFields(m);
  }

  lemma InvalidDateFields(m: string)
    requires m == "230230"
    ensures DecodedFields(m) == None
  {
    assert m[0..2] == "23" && m[2..4] == "02" && m[4..6] == "30";
    PairValue("02"); PairValue("30"); PairValue("23");
    assert NatOf("23") == 23 && NatOf("02") == 2 && NatOf("30") == 30;
    assert !IsLeapYear(2023);
  }

  /** 31 April does not exist, so there is no date. */
  lemma AprilThirtyFirstExample(p: string)
    requires |p| == SearchStart && !IsSpace(p[0])
    ensures ExtractExpiry(Some(p + "15230431")) == None
  {
    var m := "230431";
    assert "15230431" == "15" + m + "";
    ExpiryAfterPrefix(p, m, "");
    AprilThirtyFirstFields(m);
  }

  lemma AprilThirtyFirstFields(m: string)
    requires m == "230431"
    ensures DecodedFields(m) == None
  {
    PairValue("04"); PairValue("31"); PairValue("23");
    assert m[0..2] == "23" && m[2..4] == "04" && m[4..6] == "31";
    assert NatOf("23") == 23 && NatOf("04") == 4 && NatOf("31") == 31;
  }

  /** Day 00 does not exist, so there is no date. */
  lemma DayZeroExample(p: string)
    requires |p| == SearchStart && !IsSpace(p[0])
    ensures ExtractExpiry(Some(p + "15230200")) == None
  {
    var m := "230200";
    assert "15230200" == "15" + m + "";
    ExpiryAfterPrefix(p, m, "");
    DayZeroFields(m);
  }

  lemma DayZeroFields(m: string)
    requires m == "230200"
    ensures DecodedFields(m) == None
  {
    PairValue("02"); PairValue("00"); PairValue("23");
    assert m[0..2] == "23" && m[2..4] == "02" && m[4..6] == "00";
    assert NatOf("23") == 23 && NatOf("02") == 2 && NatOf("00") == 0;
  }

  /** 31 May exists: May has 31 days. */
  lemma MayThirtyFirstExample(p: string)
    requires |p| == SearchStart && !IsSpace(p[0])
    ensures ExtractExpiry(Some(p + "15230531")) == Some("31/05/2023")
  {
    var m := "230531";
    assert "15230531" == "15" + m + "";
    ExpiryAfterPrefix(p, m, "");
    MayThirtyFirstFields(m);
  }

  lemma MayThirtyFirstFields(m: string)
    requires m == "230531"
    ensures DecodedFields(m) == Some("31/05/2023")
  {
    PairValue("05"); PairValue("31"); PairValue("23");
    assert m[0..2] == "23" && m[2..4] == "05" && m[4..6] == "31";
    assert NatOf("23") == 23 && NatOf("05") == 5 && NatOf("31") == 31;
    assert IsValidDate(Date(2023, 5, 31));
    assert "31" + "/" + "05" + "/20" + "23" == "31/05/2023";
  }

  /** The leftmost match decides: month 13 in the first match hides a valid date after it. */
  lemma LeftmostMatchExample(p: string)
    requires |p| == SearchStart && !IsSpace(p[0])
    ensures ExtractExpiry(Some(p + "1523130115230228")) == None
  {
    var m := "231301";
    assert "1523130115230228" == "15" + m + "15230228";
    ExpiryAfterPrefix(p, m, "15230228");
    MonthThirteenFields(m);
  }

  lemma MonthThirteenFields(m: string)
    requires m == "231301"
    ensures DecodedFields(m) == None
  {
    assert m[2..4] == "13";
    PairValue("13");
    assert NatOf("13") == 13;
  }

  /** A date pattern that starts before character 26 is not looked at, even when the line
      is long enough to hold one from character 26 on. */
  lemma EarlyMatchExample(q: string)
    requires |q| == 20 && !IsSpace(q[0])
    ensures ExtractExpiry(Some(q + "15230228" + "0000000000")) == None
  {
    var s := q + "15230228" + "0000000000";
    assert s[0] == q[0] && s[|s| - 1] == '0';
    ExtractTrimmed(s);
    var rest := s[SearchStart..];
    assert rest == "280000000000";
    forall j
      ensures !MatchAt(rest, j)
    {
      if 0 <= j < |rest| {
        assert rest[j] != '1';
      }
    }
    ExpiryWithoutMatch(s);
  }
}
