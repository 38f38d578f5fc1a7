/** The calendar date the frame carries and the English date token built from
    it (`Form.__format_date_english`). */
module Calendar {
  import opened Options
  import opened Strings
  import opened Decimal

  /** A date as Python's `datetime.date` holds it. */
  datatype Date = Date(year: int, month: int, day: int)

  predicate IsLeapYear(y: int) {
    y % 4 == 0 && (y % 100 != 0 || y % 400 == 0)
  }

  function DaysInMonth(y: int, m: int): int
    requires 1 <= m <= 12
  {
    if m == 2 then (if IsLeapYear(y) then 29 else 28)
    else if m == 4 || m == 6 || m == 9 || m == 11 then 30
    else 31
  }

  /** Each field in its widest range: years 1 to 9999, months 1 to 12,
      days 1 to 31. This is all the date token needs. */
  predicate InRange(d: Date) {
    && 1 <= d.year <= 9999
    && 1 <= d.month <= 12
    && 1 <= d.day <= 31
  }

  /** The dates `datetime.date` can represent: years 1 to 9999 of the
      proleptic Gregorian calendar. */
  predicate ValidDate(d: Date) {
    InRange(d) && d.day <= DaysInMonth(d.year, d.month)
  }

  predicate IsUpperLetter(c: char) {
    'A' <= c <= 'Z'
  }

  /** The twelve English month abbreviations, January first. */
  const MonthTable: seq<string> :=
    ["JAN", "FEB", "MAR", "APR", "MAY", "JUN", "JUL", "AUG", "SEP", "OCT", "NOV", "DEC"]

  /** The month table lookup: total on 1..12, three upper-case letters each. */
  function MonthAbbrev(m: int): (r: string)
    requires 1 <= m <= 12
    ensures |r| == 3
    ensures forall i :: 0 <= i < |r| ==> IsUpperLetter(r[i])
  {
    MonthTable[m - 1]
  }

  /** Three-letter comparison, character by character. */
  predicate SameAbbrev(a: string, s: string)
    requires |a| == 3
  {
    |s| == 3 && a[0] == s[0] && a[1] == s[1] && a[2] == s[2]
  }

  lemma SameAbbrevIsEqual(a: string, s: string)
    requires |a| == 3
    ensures SameAbbrev(a, s) <==> a == s
  {
    if SameAbbrev(a, s) {
      assert a == [a[0], a[1], a[2]];
      assert s == [s[0], s[1], s[2]];
    }
  }

  /** The reverse lookup of the month table, searching from month `from`. */
  function MonthFrom(s: string, from: int): (r: Option<int>)
    requires 1 <= from <= 13
    ensures r.Some? ==> from <= r.value <= 12 && MonthAbbrev(r.value) == s
    ensures r.None? ==> forall m :: from <= m <= 12 ==> MonthAbbrev(m) != s
    decreases 13 - from
  {
    if from == 13 then None
    else if SameAbbrev(MonthAbbrev(from), s) then
      SameAbbrevIsEqual(MonthAbbrev(from), s);
      Some(from)
    else
      SameAbbrevIsEqual(MonthAbbrev(from), s);
      MonthFrom(s, from + 1)
  }

  /** The month whose abbreviation is `s`, if any. */
  function MonthNumber(s: string): (r: Option<int>)
    ensures r.Some? ==> 1 <= r.value <= 12 && MonthAbbrev(r.value) == s
    ensures r.None? ==> forall m :: 1 <= m <= 12 ==> MonthAbbrev(m) != s
  {
    MonthFrom(s, 1)
  }

  /** No two months share an abbreviation, so the table can be read backwards. */
  lemma MonthTableInjective(m: int)
    requires 1 <= m <= 12
    ensures MonthNumber(MonthAbbrev(m)) == Some(m)
  {
  }

  /** Digits, then letters, then digits: only digits and upper-case letters. */
  lemma TokenCharacters(a: string, m: int, b: string)
    requires AllDigits(a) && AllDigits(b) && 1 <= m <= 12
    ensures forall i :: 0 <= i < |a + MonthAbbrev(m) + b| ==>
      IsDigit((a + MonthAbbrev(m) + b)[i]) || IsUpperLetter((a + MonthAbbrev(m) + b)[i])
  {
    var s := a + MonthAbbrev(m) + b;
    forall i | 0 <= i < |s|
      ensures IsDigit(s[i]) || IsUpperLetter(s[i])
    {
      if i < |a| {
        assert s[i] == a[i];
      } else if i < |a| + 3 {
        assert s[i] == MonthAbbrev(m)[i - |a|];
      } else {
        assert s[i] == b[i - |a| - 3];
      }
    }
  }

  /** The f-string of `__format_date_english`: the day of the month
      without a leading zero, the month abbreviation and the last two
      characters of the year. */
  function DateText(d: Date): string
    requires InRange(d)
  {
    NatToString(d.day) + MonthAbbrev(d.month) + LastTwo(NatToString(d.year))
  }

  /** `__format_date_english`: the f-string passed through `upper()`. */
  function DateToken(d: Date): string
    requires InRange(d)
  {
    Upper(DateText(d))
  }

  /** The f-string is five to seven characters long: one or two day digits,
      three letters, and one year digit for years 1 to 9, two from year 10 on. */
  lemma DateTextLength(d: Date)
    requires InRange(d)
    ensures 5 <= |DateText(d)| <= 7
    ensures |DateText(d)| == (if d.day < 10 then 1 else 2) + 3 + (if d.year < 10 then 1 else 2)
  {
    NatToStringLength(d.day);
    NatToStringLength(d.year);
  }

  /** The f-string holds only digits and upper-case letters. */
  lemma DateTextAlphabet(d: Date)
    requires InRange(d)
    ensures forall i :: 0 <= i < |DateText(d)| ==> IsDigit(DateText(d)[i]) || IsUpperLetter(DateText(d)[i])
  {
    LastTwoDigits(d.year);
    TokenCharacters(NatToString(d.day), d.month, LastTwo(NatToString(d.year)));
  }

  /** `upper()` at the end of `__format_date_english` changes nothing: the
      token is the f-string as it is. */
  lemma DateTokenParts(d: Date)
    requires InRange(d)
    ensures DateToken(d) == DateText(d)
  {
    DateTextAlphabet(d);
    UpperIdentity(DateText(d));
  }

  /** The token is five to seven characters long; from year 10 on it is six
      characters for days 1 to 9 and seven for days 10 to 31, and for years
      1 to 9 one character shorter. */
  lemma DateTokenLength(d: Date)
    requires InRange(d)
    ensures 5 <= |DateToken(d)| <= 7
    ensures |DateToken(d)| == (if d.day < 10 then 1 else 2) + 3 + (if d.year < 10 then 1 else 2)
  {
    DateTokenParts(d);
    DateTextLength(d);
  }

  /** The token never holds a `|`, so it cannot shift the fields of the frame. */
  lemma DateTokenNoDelimiter(d: Date)
    requires InRange(d)
    ensures '|' !in DateToken(d)
  {
    DateTokenParts(d);
    DateTextAlphabet(d);
  }

  /** Number of decimal digits at the start of `s`. */
  function LeadingDigits(s: string): (k: nat)
    ensures k <= |s|
  {
    if |s| > 0 && IsDigit(s[0]) then 1 + LeadingDigits(s[1..]) else 0
  }

  lemma {:induction false} LeadingDigitsOfConcat(a: string, b: string)
    requires AllDigits(a)
    requires b == [] || !IsDigit(b[0])
    ensures LeadingDigits(a + b) == |a|
    decreases |a|
  {
    if |a| > 0 {
      assert (a + b)[0] == a[0];
      assert (a + b)[1..] == a[1..] + b;
      LeadingDigitsOfConcat(a[1..], b);
    } else {
      assert a + b == b;
    }
  }

  /** The three numbers a date token carries: day, month, and the year's last
      two decimal digits as a number. */
  datatype TokenParts = TokenParts(day: int, month: int, yearDigits: int)

  /** The three pieces of a date token as text: the leading digits, a month
      abbreviation, then at least one trailing digit. */
  datatype TokenText = TokenText(dayText: string, month: int, yearText: string)

  /** How a receiver cuts a date token into its three pieces: the leading
      digits, the three characters after them, which must name a month, and
      the rest, which must be at least one digit. */
  function SplitToken(t: string): Option<TokenText> {
    SplitAt(t, LeadingDigits(t))
  }

  function SplitAt(t: string, k: nat): Option<TokenText>
    requires k <= |t|
  {
    if k == 0 || |t| < k + 4 then None else Pieces(t[..k], t[k..k + 3], t[k + 3..])
  }

  function Pieces(dayText: string, monthText: string, yearText: string): Option<TokenText> {
    match MonthNumber(monthText)
    case None => None
    case Some(m) => if AllDigits(yearText) then Some(TokenText(dayText, m, yearText)) else None
  }

  /** How a receiver reads a date token back as numbers. */
  function ParseDateToken(t: string): Option<TokenParts> {
    match SplitToken(t)
    case None => None
    case Some(p) => Some(TokenParts(Value(p.dayText), p.month, Value(p.yearText)))
  }

  lemma SliceThree(a: string, b: string, c: string)
    ensures (a + b + c)[..|a|] == a
    ensures (a + b + c)[|a|..|a| + |b|] == b
    ensures (a + b + c)[|a| + |b|..] == c
  {
  }

  /** Cutting a token built from digits, a month abbreviation and at least
      one digit gives back those three pieces. */
  lemma SplitParts(dayText: string, m: int, yearText: string)
    requires 1 <= |dayText| && AllDigits(dayText)
    requires 1 <= m <= 12
    requires 1 <= |yearText| && AllDigits(yearText)
    ensures SplitToken(dayText + MonthAbbrev(m) + yearText) == Some(TokenText(dayText, m, yearText))
  {
    var mon := MonthAbbrev(m);
    var t := dayText + mon + yearText;
    assert t == dayText + (mon + yearText);
    assert (mon + yearText)[0] == mon[0];
    LeadingDigitsOfConcat(dayText, mon + yearText);
    SliceThree(dayText, mon, yearText);
    assert SplitAt(t, |dayText|) == Pieces(dayText, mon, yearText);
    MonthTableInjective(m);
  }

  /** Reading back the three parts of a token built from digits, a month
      abbreviation and at least one digit. */
  lemma ParseParts(dayText: string, m: int, yearText: string)
    requires 1 <= |dayText| && AllDigits(dayText)
    requires 1 <= m <= 12
    requires 1 <= |yearText| && AllDigits(yearText)
    ensures ParseDateToken(dayText + MonthAbbrev(m) + yearText)
         == Some(TokenParts(Value(dayText), m, Value(yearText)))
  {
    SplitParts(dayText, m, yearText);
  }

  /** The token loses nothing but the century: it reads back as the day, the
      month and the year modulo 100. */
  lemma DateTokenRoundTrip(d: Date)
    requires InRange(d)
    ensures ParseDateToken(DateToken(d)) == Some(TokenParts(d.day, d.month, d.year % 100))
  {
    DateTokenParts(d);
    LastTwoDigits(d.year);
    ValueOfNatToString(d.day);
    ParseParts(NatToString(d.day), d.month, LastTwo(NatToString(d.year)));
  }

  /** Example: 5 July 2024 gives `5JUL24`. */
  lemma DateTokenExample()
    ensures DateToken(Date(2024, 7, 5)) == "5JUL24"
  {
    DateTokenParts(Date(2024, 7, 5));
    assert NatToString(2024) == "2024";
    assert NatToString(5) == "5";
  }
}
