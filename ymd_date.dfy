/**
 * The date check of backend/update_note.php: a supplied date is accepted
 * when `DateTime::createFromFormat('Y-m-d', $date)` succeeds and formatting
 * the result as 'Y-m-d' gives back the very same string. Parsing rolls an
 * out-of-range month or day over into the next month or year, and formatting
 * always writes a four-digit year and two-digit month and day, so the round
 * trip holds exactly for a four-digit year, a two-digit month and a two-digit
 * day that name a real date of the proleptic Gregorian calendar.
 */
module YmdDate {
  import opened Text

  predicate IsLeapYear(y: int)
  {
    y % 4 == 0 && (y % 100 != 0 || y % 400 == 0)
  }

  function DaysInMonth(y: int, m: int): (n: nat)
    requires 1 <= m <= 12
    ensures 28 <= n <= 31
    ensures n == 31 <==> m in {1, 3, 5, 7, 8, 10, 12}
    ensures n == 29 <==> m == 2 && IsLeapYear(y)
  {
    if m == 2 then (if IsLeapYear(y) then 29 else 28)
    else if m == 4 || m == 6 || m == 9 || m == 11 then 30
    else 31
  }

  /** A day of the calendar whose year 'Y' formats in four digits. */
  predicate IsCalendarDate(y: int, m: int, d: int)
  {
    0 <= y <= 9999 && 1 <= m <= 12 && 1 <= d <= DaysInMonth(y, m)
  }

  /** Four digits, a dash, two digits, a dash, two digits. */
  predicate HasYmdShape(s: string)
  {
    |s| == 10 && s[4] == '-' && s[7] == '-' &&
    AllDigits(s[..4]) && AllDigits(s[5..7]) && AllDigits(s[8..])
  }

  function YearOf(s: string): nat requires HasYmdShape(s) { DigitsValue(s[..4]) }
  function MonthOf(s: string): nat requires HasYmdShape(s) { DigitsValue(s[5..7]) }
  function DayOf(s: string): nat requires HasYmdShape(s) { DigitsValue(s[8..]) }

  /** The date check of backend/update_note.php. */
  predicate IsValidYmdDate(s: string)
  {
    HasYmdShape(s) && IsCalendarDate(YearOf(s), MonthOf(s), DayOf(s))
  }

  /** `DateTime::format('Y-m-d')` on a calendar date. */
  function FormatYmd(y: nat, m: nat, d: nat): (s: string)
    requires IsCalendarDate(y, m, d)
    ensures |s| == 10
  {
    PaddedDigits(y, 4) + "-" + PaddedDigits(m, 2) + "-" + PaddedDigits(d, 2)
  }

  lemma Pow10Widths()
    ensures Pow10(2) == 100 && Pow10(4) == 10000
  {
    assert Pow10(1) == 10;
    assert Pow10(3) == 1000;
  }

  /** Y-m-d text of a year, month and day of at most four, two and two digits. */
  function YmdText(y: nat, m: nat, d: nat): (s: string)
    ensures |s| == 10
  {
    PaddedDigits(y, 4) + "-" + PaddedDigits(m, 2) + "-" + PaddedDigits(d, 2)
  }

  /** The check's shape test accepts such a text, and reads back the three numbers it was made of. */
  lemma YmdTextReadsBack(y: nat, m: nat, d: nat)
    requires y < 10000 && m < 100 && d < 100
    ensures HasYmdShape(YmdText(y, m, d))
    ensures YearOf(YmdText(y, m, d)) == y && MonthOf(YmdText(y, m, d)) == m && DayOf(YmdText(y, m, d)) == d
  {
    var s := YmdText(y, m, d);
    assert s[..4] == PaddedDigits(y, 4) && s[4] == '-';
    assert s[5..7] == PaddedDigits(m, 2) && s[7] == '-';
    assert s[8..] == PaddedDigits(d, 2);
    Pow10Widths();
    PaddedDigitsRoundTrip(y, 4);
    PaddedDigitsRoundTrip(m, 2);
    PaddedDigitsRoundTrip(d, 2);
    SmallModIsItself(y, 10000);
    SmallModIsItself(m, 100);
    SmallModIsItself(d, 100);
  }

  /** Every calendar date formats to a string the check accepts, and that string names the same date. */
  lemma FormattedDateIsValid(y: nat, m: nat, d: nat)
    requires IsCalendarDate(y, m, d)
    ensures HasYmdShape(FormatYmd(y, m, d))
    ensures YearOf(FormatYmd(y, m, d)) == y && MonthOf(FormatYmd(y, m, d)) == m && DayOf(FormatYmd(y, m, d)) == d
    ensures IsValidYmdDate(FormatYmd(y, m, d))
  {
    assert FormatYmd(y, m, d) == YmdText(y, m, d);
    YmdTextReadsBack(y, m, d);
  }

  lemma SmallModIsItself(n: nat, p: nat)
    requires n < p
    ensures n % p == n
  {
  }

  /** Every accepted string is the formatting of the date it names: the exact re-format comparison. */
  lemma ValidDateIsFormatted(s: string)
    requires IsValidYmdDate(s)
    ensures FormatYmd(YearOf(s), MonthOf(s), DayOf(s)) == s
  {
    DigitsPaddedRoundTrip(s[..4]);
    DigitsPaddedRoundTrip(s[5..7]);
    DigitsPaddedRoundTrip(s[8..]);
    assert s == s[..4] + "-" + s[5..7] + "-" + s[8..];
  }

  /**
   * On accepted dates, comparing the strings character by character orders
   * them by year, then month, then day. This is why the home screen's
   * newest-first sort can be stated on the date strings.
   */
  lemma DateOrderIsChronological(s: string, t: string)
    requires IsValidYmdDate(s) && IsValidYmdDate(t)
    ensures LexCompare(s, t) < 0 <==>
              YearOf(s) < YearOf(t) ||
              (YearOf(s) == YearOf(t) && (MonthOf(s) < MonthOf(t) ||
                                          (MonthOf(s) == MonthOf(t) && DayOf(s) < DayOf(t))))
    ensures LexCompare(s, t) == 0 <==> s == t
  {
    LexCompareAntisymmetric(s, t);
    ShapedCompareByFields(s, t);
    DigitsOrder(s[..4], t[..4]);
    DigitsOrder(s[5..7], t[5..7]);
    DigitsOrder(s[8..], t[8..]);
  }

  /** Two dates of the same shape compare field by field: year, then month, then day. */
  lemma ShapedCompareByFields(s: string, t: string)
    requires HasYmdShape(s) && HasYmdShape(t)
    ensures LexCompare(s, t) ==
              if LexCompare(s[..4], t[..4]) != 0 then LexCompare(s[..4], t[..4])
              else if LexCompare(s[5..7], t[5..7]) != 0 then LexCompare(s[5..7], t[5..7])
              else LexCompare(s[8..], t[8..])
  {
    assert s == s[..4] + s[4..] && t == t[..4] + t[4..];
    LexCompareAppend(s[..4], s[4..], t[..4], t[4..]);
    assert s[4..][1..] == s[5..] && t[4..][1..] == t[5..];
    assert s[5..] == s[5..7] + s[7..] && t[5..] == t[5..7] + t[7..];
    LexCompareAppend(s[5..7], s[7..], t[5..7], t[7..]);
    assert s[7..][1..] == s[8..] && t[7..][1..] == t[8..];
  }

  /** 2024 is a leap year: its 29 February is accepted. */
  lemma LeapDayIsValid()
    ensures IsValidYmdDate("2024-02-29")
  {
    FormattedDateIsValid(2024, 2, 29);
    assert PaddedDigits(2024, 4) == "2024" && PaddedDigits(2, 2) == "02" && PaddedDigits(29, 2) == "29";
    assert FormatYmd(2024, 2, 29) == "2024-02-29";
  }

  /** 2023 is not: its 29 February is refused, although the string has the right shape. */
  lemma NonLeapDayIsInvalid()
    ensures HasYmdShape("2023-02-29") && !IsValidYmdDate("2023-02-29")
  {
    YmdTextReadsBack(2023, 2, 29);
    assert PaddedDigits(2023, 4) == "2023" && PaddedDigits(2, 2) == "02" && PaddedDigits(29, 2) == "29";
    assert YmdText(2023, 2, 29) == "2023-02-29";
  }

  /** A thirteenth month, and a month written with one digit, are refused. */
  lemma MalformedDateExamples()
    ensures !IsValidYmdDate("2024-13-01") && !IsValidYmdDate("2024-5-01")
  {
    assert DigitsValue("13") == 13 by { assert "13"[..1] == "1"; }
    assert "2024-13-01"[5..7] == "13";
  }
}
