/**
 * Validation of date strings and the choice of the format that parses them.
 *
 * Three notations are recognised, each by a prefix match of its pattern:
 * ISO 8601 extended calendar dates `YYYY-MM-DD` (section 4.1.2.2 of ISO
 * 8601:2004), US `MM/DD/YYYY` and US reverse `YYYY/MM/DD`. The basic ISO 8601
 * form `YYYYMMDD` is recognised only when choosing a parser.
 */
module DateUtil {
  import opened Wrappers
  import opened JavaChars

  /** The notations, in the order they are tried. */
  datatype Notation = Iso8601 | Us | UsReverse

  const PatternArray: seq<Notation> := [Iso8601, Us, UsReverse]

  /** The shape of each pattern, `#` standing for one ASCII digit (`\d` without
      the Unicode flag). */
  function Template(p: Notation): (t: string)
    ensures |t| == 10
  {
    match p
    case Iso8601 => "####-##-##"
    case Us => "##/##/####"
    case UsReverse => "####/##/##"
  }

  predicate Fits(t: char, c: char)
  {
    if t == '#' then IsAsciiDigit(c) else c == t
  }

  /** `Matcher.lookingAt`: the pattern matches a prefix of `s`. */
  predicate LookingAt(p: Notation, s: string)
  {
    |s| >= 10 && forall k :: 0 <= k < 10 ==> Fits(Template(p)[k], s[k])
  }

  /** `Integer.parseInt` on a string of ASCII digits. */
  function Value(digits: string): (n: nat)
    requires forall k :: 0 <= k < |digits| ==> IsAsciiDigit(digits[k])
    ensures n < Pow10(|digits|)
    ensures |digits| == 1 ==> n == digits[0] as int - '0' as int
  {
    if digits == [] then 0
    else
      var last := digits[|digits| - 1];
      assert IsAsciiDigit(last);
      var prefix := Value(digits[..|digits| - 1]);
      assert prefix + 1 <= Pow10(|digits| - 1);
      10 * prefix + (last as int - '0' as int)
  }

  /** Digits written after others shift the value of the others by one place each. */
  lemma {:induction false} ValueAppend(a: string, b: string)
    requires AllDigits(a) && AllDigits(b)
    ensures AllDigits(a + b)
    ensures Value(a + b) == Value(a) * Pow10(|b|) + Value(b)
    decreases |b|
  {
    AllDigitsAppend(a, b);
    if b == [] {
      assert a + b == a;
    } else {
      var init := b[..|b| - 1];
      ValueLast(b);
      ValueAppend(a, init);
      assert (a + b)[..|a + b| - 1] == a + init;
      assert (a + b)[|a + b| - 1] == b[|b| - 1];
      ValueLast(a + b);
      ShiftPlace(Value(a), Value(init), Pow10(|init|), b[|b| - 1] as int - '0' as int);
    }
  }

  lemma AllDigitsAppend(a: string, b: string)
    requires AllDigits(a) && AllDigits(b)
    ensures AllDigits(a + b)
  {
    forall k | 0 <= k < |a + b| ensures IsAsciiDigit((a + b)[k]) {
      if k >= |a| { assert (a + b)[k] == b[k - |a|]; }
    }
  }

  lemma ValueLast(s: string)
    requires AllDigits(s) && s != []
    ensures AllDigits(s[..|s| - 1])
    ensures Value(s) == 10 * Value(s[..|s| - 1]) + (s[|s| - 1] as int - '0' as int)
  {
  }

  lemma ShiftPlace(v: int, w: int, p: int, d: int)
    ensures 10 * (v * p + w) + d == v * (10 * p) + (10 * w + d)
  {
  }

  function Pow10(n: nat): (p: nat)
    ensures p >= 1
  {
    if n == 0 then 1 else 10 * Pow10(n - 1)
  }

  /** Year, month and day as the capture groups of a match give them. */
  datatype Ymd = Ymd(year: nat, month: nat, day: nat)

  /** The group mapping: year, month, day for ISO and US reverse; month, day, year for US. */
  function Groups(p: Notation, s: string): Ymd
    requires LookingAt(p, s)
  {
    assert forall k :: 0 <= k < 10 && Template(p)[k] == '#' ==> IsAsciiDigit(s[k]);
    if p == Us then Ymd(Value(s[6..10]), Value(s[0..2]), Value(s[3..5]))
    else Ymd(Value(s[0..4]), Value(s[5..7]), Value(s[8..10]))
  }

  /** The range check: the day range does not depend on the month. */
  predicate InRange(d: Ymd)
  {
    0 <= d.year && 1 <= d.month <= 12 && 1 <= d.day <= 31
  }

  /** The index of the first pattern that matches a prefix of `t`. */
  function FirstMatch(t: string): (r: Option<nat>)
    ensures r.Some? ==> r.value < |PatternArray| && LookingAt(PatternArray[r.value], t)
    ensures r.Some? ==> forall j :: 0 <= j < r.value ==> !LookingAt(PatternArray[j], t)
    ensures r.None? ==> forall j :: 0 <= j < |PatternArray| ==> !LookingAt(PatternArray[j], t)
  {
    if LookingAt(Iso8601, t) then Some(0)
    else if LookingAt(Us, t) then Some(1)
    else if LookingAt(UsReverse, t) then Some(2)
    else None
  }

  /** `findArrayIndex`: the first pattern index whose pattern matches a prefix of `s`, or -1. */
  method FindArrayIndex(s: string) returns (idx: int)
    ensures -1 <= idx < |PatternArray|
    ensures idx == -1 <==> forall j :: 0 <= j < |PatternArray| ==> !LookingAt(PatternArray[j], s)
    ensures idx >= 0 ==> LookingAt(PatternArray[idx], s) && forall j :: 0 <= j < idx ==> !LookingAt(PatternArray[j], s)
  {
    idx := -1;
    var i := 0;
    while i < |PatternArray|
      invariant 0 <= i <= |PatternArray|
      invariant forall j :: 0 <= j < i ==> !LookingAt(PatternArray[j], s)
    {
      if LookingAt(PatternArray[i], s) {
        idx := i;
        break;
      }
      i := i + 1;
    }
  }

  /** Every character is an ASCII digit; vacuously true of the empty string. */
  predicate AllDigits(s: string)
  {
    forall k :: 0 <= k < |s| ==> IsAsciiDigit(s[k])
  }

  /** `isNumber`: stops at the first character that is not a digit. */
  method IsNumber(s: string) returns (number: bool)
    ensures number <==> AllDigits(s)
  {
    number := true;
    var i := 0;
    while i < |s|
      invariant 0 <= i <= |s|
      invariant forall k :: 0 <= k < i ==> IsAsciiDigit(s[k])
    {
      if !IsAsciiDigit(s[i]) {
        number := false;
        break;
      }
      i := i + 1;
    }
  }

  /** The check `isDate` applies to the trimmed string. */
  predicate ValidTrimmed(t: string)
  {
    var idx := FirstMatch(t);
    idx.Some? && InRange(Groups(PatternArray[idx.value], t))
  }

  /** `isDate`. */
  function IsDate(s: string): (valid: bool)
    ensures valid ==> !IsBlank(s) && |Trim(s)| >= 10
  {
    !IsBlank(s) && ValidTrimmed(Trim(s))
  }

  /** The NullPointerException a method call on a null reference throws. */
  datatype NullReference = NullPointer

  /** `isDate` on a reference that may be null, as written: `trim` is called on
      the argument whatever the blank check found, so null throws. */
  function IsDateOrNull(s: Option<string>): (r: Result<bool, NullReference>)
    ensures r.Err? <==> s.None?
    ensures r.Ok? ==> (r.value ==> !IsBlank(s.value))
  {
    if s.None? then Err(NullPointer) else Ok(IsDate(s.value))
  }

  /** `isDate` with `trim` only after the blank check has passed: null is no date. */
  function IsDateOrNullIntended(s: Option<string>): (valid: bool)
    ensures valid ==> s.Some? && !IsBlank(s.value) && |Trim(s.value)| >= 10
  {
    s.Some? && IsDate(s.value)
  }

  /** The parser `parseDate` hands the trimmed string to. */
  datatype DateFormat = BasicDate | Formatter(notation: Notation)

  /** The IllegalArgumentException `parseDate` throws. */
  datatype DateError = InvalidDateString(input: string)

  /** The dispatch of `parseDate`: blank is rejected, all digits go to the basic
      ISO format, otherwise the formatter of the first matching pattern. */
  function ParseDateFormat(s: string): (r: Result<DateFormat, DateError>)
    ensures r.Err? ==> r.error == InvalidDateString(s)
    ensures r.Ok? ==> !IsBlank(s)
  {
    if IsBlank(s) then Err(InvalidDateString(s))
    else
      var trimmed := Trim(s);
      if AllDigits(trimmed) then Ok(BasicDate)
      else
        match FirstMatch(trimmed)
        case None => Err(InvalidDateString(s))
        case Some(idx) => Ok(Formatter(PatternArray[idx]))
  }

  // ---------------------------------------------------------------------------
  // Properties
  // ---------------------------------------------------------------------------

  /** No string matches two of the patterns: the separators sit in different places. */
  lemma PatternsExclusive(p: Notation, q: Notation, s: string)
    requires p != q
    ensures !(LookingAt(p, s) && LookingAt(q, s))
  {
    if LookingAt(p, s) {
      var k := if p == Us || q == Us then 2 else 4;
      assert Fits(Template(p)[k], s[k]);
      assert !Fits(Template(q)[k], s[k]);
    }
  }

  /** `isDate` holds exactly when the string is not blank, some pattern matches a
      prefix of its trimmed form, and month and day are in range; the order the
      patterns are tried in and the year check make no difference. */
  lemma IsDateIff(s: string)
    ensures IsDate(s) <==> (!IsBlank(s) &&
      exists p: Notation :: LookingAt(p, Trim(s)) && 1 <= Groups(p, Trim(s)).month <= 12 && 1 <= Groups(p, Trim(s)).day <= 31)
  {
    var t := Trim(s);
    forall p: Notation | LookingAt(p, t)
      ensures FirstMatch(t) == Some(if p == Iso8601 then 0 else if p == Us then 1 else 2)
    {
      if p != Iso8601 { PatternsExclusive(p, Iso8601, t); }
      if p != Us { PatternsExclusive(p, Us, t); }
    }
    if IsDate(s) {
      var p := PatternArray[FirstMatch(t).value];
      assert LookingAt(p, t);
    }
  }

  /** Matching is prefix-only: whatever follows ten matched characters is ignored. */
  lemma PrefixOnly(u: string, w: string)
    requires |u| >= 10
    ensures FirstMatch(u + w) == FirstMatch(u)
    ensures ValidTrimmed(u + w) == ValidTrimmed(u)
  {
    var s := u + w;
    assert s[..10] == u[..10];
    assert forall p: Notation :: LookingAt(p, s) == LookingAt(p, u) by {
      forall p: Notation ensures LookingAt(p, s) == LookingAt(p, u) {
        assert forall k :: 0 <= k < 10 ==> s[k] == u[k];
      }
    }
    if FirstMatch(u).Some? {
      var p := PatternArray[FirstMatch(u).value];
      assert s[0..4] == u[0..4] && s[5..7] == u[5..7] && s[8..10] == u[8..10];
      assert s[6..10] == u[6..10] && s[0..2] == u[0..2] && s[3..5] == u[3..5];
      assert Groups(p, s) == Groups(p, u);
    }
  }

  /** A string of digits matches no pattern, so `isDate` rejects the basic form
      `YYYYMMDD` that `parseDate` accepts. */
  lemma DigitsAreNoPattern(s: string)
    requires AllDigits(Trim(s)) && !IsBlank(s)
    ensures !IsDate(s)
    ensures ParseDateFormat(s) == Ok(BasicDate)
  {
    DigitsMatchNothing(Trim(s));
  }

  lemma DigitsMatchNothing(t: string)
    requires AllDigits(t)
    ensures FirstMatch(t).None? && !ValidTrimmed(t)
  {
    if |t| >= 10 {
      assert IsAsciiDigit(t[2]) && IsAsciiDigit(t[4]);
      assert !Fits(Template(Iso8601)[4], t[4]);
      assert !Fits(Template(Us)[2], t[2]);
      assert !Fits(Template(UsReverse)[4], t[4]);
    }
  }

  /** What `isDate` accepts, `parseDate` hands to the formatter of the same notation. */
  lemma ParseAgreesWithIsDate(s: string)
    requires IsDate(s)
    ensures ParseDateFormat(s).Ok?
    ensures ParseDateFormat(s).value == Formatter(PatternArray[FirstMatch(Trim(s)).value])
  {
    var t := Trim(s);
    var k := if FirstMatch(t).value == 1 then 2 else 4;
    assert !IsAsciiDigit(t[k]);
  }

  /** A string that is not blank but trims to nothing (only control characters)
      is handed to the basic format, where the empty string is all digits. */
  lemma ControlsOnlyGoToBasic(s: string)
    requires !IsBlank(s) && forall k :: 0 <= k < |s| ==> s[k] <= ' '
    ensures Trim(s) == [] && ParseDateFormat(s) == Ok(BasicDate)
  {
  }

  // ---------------------------------------------------------------------------
  // The test suite's cases
  // ---------------------------------------------------------------------------

  lemma NotBlank(s: string)
    requires s != [] && s[0] > ' ' && !IsWhitespace(s[0])
    ensures !IsBlank(s)
  {
  }

  /** The ISO 8601 extended form `2012-12-25` is a date. */
  lemma IsoDateAccepted()
    ensures IsDate("2012-12-25")
  {
    DateCase("2012-12-25", Iso8601, "12", "25");
  }

  /** The US form `12/25/2012` is a date. */
  lemma UsDateAccepted()
    ensures IsDate("12/25/2012")
  {
    DateCase("12/25/2012", Us, "12", "25");
  }

  /** The US reverse form `2012/12/25` is a date. */
  lemma UsReverseDateAccepted()
    ensures IsDate("2012/12/25")
  {
    DateCase("2012/12/25", UsReverse, "12", "25");
  }

  /** The dotted form `25.12.2012` matches no pattern. */
  lemma DottedDateRejected()
    ensures !IsDate("25.12.2012")
  {
    var bad := "25.12.2012";
    TrimKeeps(bad);
    NoSeparatorNoMatch(bad);
  }

  lemma DateCase(s: string, p: Notation, month: string, day: string)
    requires |s| == 10 && s[0] > ' ' && s[9] > ' ' && !IsWhitespace(s[0])
    requires LookingAt(p, s)
    requires month == (if p == Us then s[0..2] else s[5..7])
    requires day == (if p == Us then s[3..5] else s[8..10])
    requires 1 <= Value(month) <= 12 && 1 <= Value(day) <= 31
    ensures IsDate(s)
  {
    TrimKeeps(s);
    NotBlank(s);
    IsDateIff(s);
  }

  /** The day range ignores the month: any ISO 8601 string with a month in 1..12 and
      a day in 1..31 is a date, whether or not that day exists in that month. So
      `2011-02-29` and `2012-11-31` pass, unlike what the test suite expects. */
  lemma IsoDayIgnoresMonth(y: string, m: string, d: string)
    requires |y| == 4 && |m| == 2 && |d| == 2
    requires AllDigits(y) && AllDigits(m) && AllDigits(d)
    requires 1 <= Value(m) <= 12 && 1 <= Value(d) <= 31
    ensures IsDate(y + "-" + m + "-" + d)
  {
    var s := y + "-" + m + "-" + d;
    IsoShape(y, m, d);
    DateCase(s, Iso8601, m, d);
  }

  lemma IsoShape(y: string, m: string, d: string)
    requires |y| == 4 && |m| == 2 && |d| == 2
    requires AllDigits(y) && AllDigits(m) && AllDigits(d)
    ensures var s := y + "-" + m + "-" + d;
      && |s| == 10 && LookingAt(Iso8601, s) && s[5..7] == m && s[8..10] == d
      && IsAsciiDigit(s[0]) && IsAsciiDigit(s[9])
  {
    var s := y + "-" + m + "-" + d;
    assert s[5..7] == m && s[8..10] == d;
    assert forall k :: 0 <= k < 4 ==> s[k] == y[k];
    assert forall k :: 5 <= k < 7 ==> s[k] == m[k - 5];
    assert forall k :: 8 <= k < 10 ==> s[k] == d[k - 8];
  }

  /** Blank strings are never dates and never parsed. */
  lemma BlankRejected()
    ensures !IsDate("") && !IsDate("  ")
    ensures ParseDateFormat("  ") == Err(InvalidDateString("  "))
  {
  }

  /** A null argument: the method as written throws where the test suite expects
      false; the corrected one answers false, and both agree on every non-null string. */
  lemma NullDate(s: string)
    ensures IsDateOrNull(None) == Err(NullPointer)
    ensures !IsDateOrNullIntended(None)
    ensures IsDateOrNull(Some(s)) == Ok(IsDateOrNullIntended(Some(s)))
  {
  }

  /** `20121225` is handed to the basic ISO 8601 format. */
  lemma BasicDateParsed()
    ensures ParseDateFormat("20121225") == Ok(BasicDate)
  {
    var basic := "20121225";
    TrimKeeps(basic);
    NotBlank(basic);
    assert AllDigits(basic);
  }

  /** `12.25.2012` is neither a number nor a match: `parseDate` throws. */
  lemma DottedDateNotParsed()
    ensures ParseDateFormat("12.25.2012") == Err(InvalidDateString("12.25.2012"))
  {
    var bad := "12.25.2012";
    TrimKeeps(bad);
    NotBlank(bad);
    NoSeparatorNoMatch(bad);
    assert !IsAsciiDigit(bad[2]);
  }

  /** Without `/` at index 2 and without `-` or `/` at index 4, no pattern matches. */
  lemma NoSeparatorNoMatch(t: string)
    requires |t| >= 10 && t[2] != '/' && t[4] != '-' && t[4] != '/'
    ensures FirstMatch(t).None?
  {
    assert !Fits(Template(Iso8601)[4], t[4]);
    assert !Fits(Template(Us)[2], t[2]);
    assert !Fits(Template(UsReverse)[4], t[4]);
  }
}
