/**
  The diary's key: a calendar date, and the codec between a date and the name of
  the file that holds its entry.  A file name is the date rendered by
  LocalDate.toString, in the calendar-date extended format YYYY-MM-DD of
  section 4.1.2.2 of ISO 8601:2004, followed by ".html".
*/
module DateKey {
  import opened Optional

  datatype CalendarDate = CalendarDate(year: int, month: int, day: int)

  /** Leap years of the proleptic Gregorian calendar, as java.time uses it. */
  predicate IsLeapYear(y: int) {
    y % 4 == 0 && (y % 100 != 0 || y % 400 == 0)
  }

  function DaysInMonth(y: int, m: int): (n: int)
    requires 1 <= m <= 12
    ensures 28 <= n <= 31
  {
    if m == 2 then (if IsLeapYear(y) then 29 else 28)
    else if m == 4 || m == 6 || m == 9 || m == 11 then 30
    else 31
  }

  /** The dates the model covers: those LocalDate renders with a four-digit year. */
  predicate IsValid(d: CalendarDate) {
    && 0 <= d.year <= 9999
    && 1 <= d.month <= 12
    && 1 <= d.day <= DaysInMonth(d.year, d.month)
  }

  type Date = d: CalendarDate | IsValid(d) witness CalendarDate(1970, 1, 1)

  /** A number that grows with the date: days in a month fit below 32, months below 13. */
  function Rank(d: Date): int {
    (d.year * 13 + d.month) * 32 + d.day
  }

  /** LocalDate's natural order: by year, then month, then day. */
  predicate Before(a: Date, b: Date)
    ensures Before(a, b) <==> Rank(a) < Rank(b)
  {
    || a.year < b.year
    || (a.year == b.year && a.month < b.month)
    || (a.year == b.year && a.month == b.month && a.day < b.day)
  }

  lemma BeforeIsStrictTotalOrder(a: Date, b: Date, c: Date)
    ensures !Before(a, a)
    ensures Before(a, b) ==> !Before(b, a)
    ensures Before(a, b) && Before(b, c) ==> Before(a, c)
    ensures a == b || Before(a, b) || Before(b, a)
  {
  }

  // ---------------------------------------------------------------- encoding

  predicate IsDigit(c: char) {
    '0' <= c <= '9'
  }

  function DigitChar(n: int): (c: char)
    requires 0 <= n <= 9
    ensures IsDigit(c)
  {
    (48 + n) as char
  }

  function DigitValue(c: char): (n: int)
    requires IsDigit(c)
    ensures 0 <= n <= 9
  {
    c as int - 48
  }

  /** A number below 100 with one leading zero when it is below 10. */
  function TwoDigits(n: int): (s: string)
    requires 0 <= n <= 99
    ensures |s| == 2 && IsDigit(s[0]) && IsDigit(s[1])
  {
    [DigitChar(n / 10), DigitChar(n % 10)]
  }

  /** A year of 0..9999 padded with zeros to four digits. */
  function FourDigits(n: int): (s: string)
    requires 0 <= n <= 9999
    ensures |s| == 4 && forall i :: 0 <= i < 4 ==> IsDigit(s[i])
  {
    TwoDigits(n / 100) + TwoDigits(n % 100)
  }

  /** LocalDate.toString for a year of 0..9999. */
  function Format(d: Date): (s: string)
    ensures |s| == 10
  {
    FourDigits(d.year) + "-" + TwoDigits(d.month) + "-" + TwoDigits(d.day)
  }

  /** Years below 1000 and one-digit months and days are padded with zeros. */
  lemma FormatPads(d: Date)
    ensures d.year < 1000 ==> Format(d)[0] == '0'
    ensures d.year < 100 ==> Format(d)[..2] == "00"
    ensures d.year < 10 ==> Format(d)[..3] == "000"
    ensures d.month < 10 ==> Format(d)[5] == '0'
    ensures d.day < 10 ==> Format(d)[8] == '0'
  {
  }

  // ---------------------------------------------------------------- decoding

  /** The shape YYYY-MM-DD: ten characters, dashes at 4 and 7, digits elsewhere. */
  predicate HasIsoShape(s: string) {
    && |s| == 10
    && s[4] == '-' && s[7] == '-'
    && IsDigit(s[0]) && IsDigit(s[1]) && IsDigit(s[2]) && IsDigit(s[3])
    && IsDigit(s[5]) && IsDigit(s[6]) && IsDigit(s[8]) && IsDigit(s[9])
  }

  function PairValue(a: char, b: char): (n: int)
    requires IsDigit(a) && IsDigit(b)
    ensures 0 <= n <= 99
  {
    DigitValue(a) * 10 + DigitValue(b)
  }

  lemma {:induction false} PairOfTwoDigits(n: int)
    requires 0 <= n <= 99
    ensures PairValue(TwoDigits(n)[0], TwoDigits(n)[1]) == n
  {
    assert DigitValue(DigitChar(n / 10)) == n / 10;
    assert DigitValue(DigitChar(n % 10)) == n % 10;
  }

  lemma {:induction false} TwoDigitsOfPair(a: char, b: char)
    requires IsDigit(a) && IsDigit(b)
    ensures TwoDigits(PairValue(a, b)) == [a, b]
  {
    var n := PairValue(a, b);
    assert n / 10 == DigitValue(a) && n % 10 == DigitValue(b);
    assert DigitChar(DigitValue(a)) == a && DigitChar(DigitValue(b)) == b;
  }

  /** Parsing undoes formatting. */
  lemma {:induction false} ParseFormat(d: Date)
    ensures Parse(Format(d)) == Some(d)
  {
    var s := Format(d);
    assert s[..2] == TwoDigits(d.year / 100) && s[2..4] == TwoDigits(d.year % 100);
    assert s[5..7] == TwoDigits(d.month) && s[8..10] == TwoDigits(d.day);
    PairOfTwoDigits(d.year / 100);
    PairOfTwoDigits(d.year % 100);
    PairOfTwoDigits(d.month);
    PairOfTwoDigits(d.day);
    assert HasIsoShape(s);
  }

  /**
    LocalDate.parse with the strict ISO local-date format: the text must have
    the exact shape and name a date that exists in the calendar.  Only the
    canonical text of a date parses: the parsed date formats back to the input.
  */
  function Parse(s: string): (r: Option<Date>)
    ensures r.Some? ==> Format(r.value) == s
  {
    if !HasIsoShape(s) then None
    else
      var d := CalendarDate(PairValue(s[0], s[1]) * 100 + PairValue(s[2], s[3]),
                            PairValue(s[5], s[6]), PairValue(s[8], s[9]));
      if IsValid(d) then
        CanonicalText(s);
        Some(d)
      else None
  }

  lemma {:induction false} CanonicalText(s: string)
    requires HasIsoShape(s)
    ensures var y := PairValue(s[0], s[1]) * 100 + PairValue(s[2], s[3]);
            FourDigits(y) + "-" + TwoDigits(PairValue(s[5], s[6])) + "-" + TwoDigits(PairValue(s[8], s[9])) == s
  {
    var hi, lo := PairValue(s[0], s[1]), PairValue(s[2], s[3]);
    var y := hi * 100 + lo;
    assert y / 100 == hi && y % 100 == lo;
    TwoDigitsOfPair(s[0], s[1]);
    TwoDigitsOfPair(s[2], s[3]);
    TwoDigitsOfPair(s[5], s[6]);
    TwoDigitsOfPair(s[8], s[9]);
    assert FourDigits(y) == [s[0], s[1]] + [s[2], s[3]];
    assert FourDigits(y) + "-" + TwoDigits(PairValue(s[5], s[6])) + "-" + TwoDigits(PairValue(s[8], s[9]))
        == [s[0], s[1]] + [s[2], s[3]] + "-" + [s[5], s[6]] + "-" + [s[8], s[9]];
  }

  // -------------------------------------------------------------- file names

  const Extension: string := ".html"

  /** The name of the file that holds the entry for d: date + ".html". */
  function FileName(d: Date): (name: string)
    ensures MatchesHtmlGlob(name)
    ensures name[..|name| - 5] == Format(d)
    ensures DecodeFileName(name) == Some(d)
  {
    var name := Format(d) + Extension;
    assert name[..|name| - 5] == Format(d);
    assert name[|name| - 5..] == Extension;
    ParseFormat(d);
    name
  }

  /** The directory listing's glob "*.html". */
  predicate MatchesHtmlGlob(name: string) {
    |name| >= |Extension| && name[|name| - |Extension|..] == Extension
  }

  /**
    LocalDate.parse(name.substring(0, name.length() - 5)); a name too short for the
    substring, like a stem that does not parse, yields no date.
  */
  function StemDate(name: string): Option<Date> {
    if |name| < 5 then None else Parse(name[..|name| - 5])
  }

  /** The date a listed file stands for, if any. */
  function DecodeFileName(name: string): (r: Option<Date>)
    ensures r.Some? ==> MatchesHtmlGlob(name) && name[..|name| - 5] == Format(r.value)
  {
    if MatchesHtmlGlob(name) then StemDate(name) else None
  }

  /** A name decodes to d exactly when it is d's file name. */
  lemma {:induction false} DecodeFileNameIff(name: string, d: Date)
    ensures DecodeFileName(name) == Some(d) <==> name == FileName(d)
  {
    if DecodeFileName(name) == Some(d) {
      assert name == name[..|name| - 5] + name[|name| - 5..];
    }
  }

  /** Distinct dates never share a file. */
  lemma {:induction false} FileNameInjective(d: Date, e: Date)
    ensures FileName(d) == FileName(e) ==> d == e
  {
  }
}
