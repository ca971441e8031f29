// Days of the proleptic Gregorian calendar, as Go's time package counts them in UTC.
// Day 0 is Monday, 1 January of year 1; the Monday 4 March 2024 is day 738948.
module Calendar {
  import opened Decimals
  import opened Options

  datatype Date = Date(year: nat, month: nat, day: nat) {
    predicate Valid() {
      year >= 1 && 1 <= month <= 12 && 1 <= day <= MonthDays(year, month)
    }

    /** Months since the start of year 0. */
    function MonthIndex(): int {
      year * 12 + month - 1
    }
  }

  predicate Leap(y: nat) {
    y % 4 == 0 && (y % 100 != 0 || y % 400 == 0)
  }

  function MonthDays(y: nat, m: nat): nat
    requires 1 <= m <= 12
  {
    if m == 2 then (if Leap(y) then 29 else 28)
    else if m == 4 || m == 6 || m == 9 || m == 11 then 30
    else 31
  }

  function NextDay(d: Date): (r: Date)
    requires d.Valid()
    ensures r.Valid()
    ensures d.MonthIndex() <= r.MonthIndex() <= d.MonthIndex() + 1
    ensures r.MonthIndex() > d.MonthIndex() <==> r.day == 1
  {
    if d.day < MonthDays(d.year, d.month) then d.(day := d.day + 1)
    else if d.month < 12 then Date(d.year, d.month + 1, 1)
    else Date(d.year + 1, 1, 1)
  }

  /** The date of day n. */
  function CivilOf(n: nat): (d: Date)
    ensures d.Valid()
  {
    if n == 0 then Date(1, 1, 1) else NextDay(CivilOf(n - 1))
  }

  const DAYS_BEFORE: seq<nat> := [0, 31, 59, 90, 120, 151, 181, 212, 243, 273, 304, 334]

  /** Leap years up to and including y. */
  function LeapDays(y: nat): nat {
    y / 4 - y / 100 + y / 400
  }

  /** The number of a date, counted in whole years, months and days. */
  function DayNumber(d: Date): nat
    requires d.Valid()
  {
    (d.year - 1) * 365 + LeapDays(d.year - 1)
    + DAYS_BEFORE[d.month - 1] + (if d.month > 2 && Leap(d.year) then 1 else 0) + d.day - 1
  }

  lemma FourthYear(y: nat)
    requires y >= 1
    ensures y / 4 == (y - 1) / 4 + (if y % 4 == 0 then 1 else 0)
    ensures y % 100 == 0 ==> y % 4 == 0
  {
    if y % 100 == 0 {
      assert y == 4 * (25 * (y / 100));
    }
  }

  lemma HundredthYear(y: nat)
    requires y >= 1
    ensures y / 100 == (y - 1) / 100 + (if y % 100 == 0 then 1 else 0)
    ensures y % 400 == 0 ==> y % 100 == 0
  {
    if y % 400 == 0 {
      assert y == 100 * (4 * (y / 400));
    }
  }

  lemma FourHundredthYear(y: nat)
    requires y >= 1
    ensures y / 400 == (y - 1) / 400 + (if y % 400 == 0 then 1 else 0)
  {
  }

  function One(b: bool): nat {
    if b then 1 else 0
  }

  /** The three cycles of the calendar, as counts. */
  lemma CyclesNest(q: nat, c: nat, f: nat, q0: nat, c0: nat, f0: nat, by4: bool, by100: bool, by400: bool)
    requires q == q0 + One(by4) && c == c0 + One(by100) && f == f0 + One(by400)
    requires (by100 ==> by4) && (by400 ==> by100)
    ensures q - c + f == q0 - c0 + f0 + One(by4 && (!by100 || by400))
  {
  }

  lemma LeapYearAdds(y: nat)
    requires y >= 1
    ensures LeapDays(y) == LeapDays(y - 1) + One(Leap(y))
  {
    FourthYear(y);
    HundredthYear(y);
    FourHundredthYear(y);
    CyclesNest(y / 4, y / 100, y / 400, (y - 1) / 4, (y - 1) / 100, (y - 1) / 400,
               y % 4 == 0, y % 100 == 0, y % 400 == 0);
  }

  lemma NextMonthNumber(y: nat, m: nat)
    requires 1 <= m < 12
    ensures DAYS_BEFORE[m] + (if m + 1 > 2 && Leap(y) then 1 else 0)
            == DAYS_BEFORE[m - 1] + (if m > 2 && Leap(y) then 1 else 0) + MonthDays(y, m)
  {
  }

  lemma YearEnds(y: nat)
    requires y >= 1
    ensures DayNumber(Date(y + 1, 1, 1)) == DayNumber(Date(y, 12, 31)) + 1
  {
    hide LeapDays;
    LeapYearAdds(y);
  }

  lemma NextDayNumber(d: Date)
    requires d.Valid()
    ensures DayNumber(NextDay(d)) == DayNumber(d) + 1
  {
    if d.day == MonthDays(d.year, d.month) {
      if d.month == 12 {
        YearEnds(d.year);
      } else {
        NextMonthNumber(d.year, d.month);
      }
    }
  }

  /** Counting day by day and counting in years and months agree on every day. */
  lemma {:induction false} CivilRoundTrip(n: nat)
    ensures DayNumber(CivilOf(n)) == n
  {
    if n > 0 {
      CivilRoundTrip(n - 1);
      NextDayNumber(CivilOf(n - 1));
    }
  }

  lemma {:induction false} MonthsAscend(m: nat, n: nat)
    requires m <= n
    ensures CivilOf(m).MonthIndex() <= CivilOf(n).MonthIndex()
    ensures CivilOf(m).year <= CivilOf(n).year
  {
    if m < n {
      MonthsAscend(m, n - 1);
    }
  }

  /** Between two days every month is met. */
  lemma {:induction false} MonthMet(m: nat, n: nat, month: int) returns (k: nat)
    requires m <= n && CivilOf(m).MonthIndex() <= month <= CivilOf(n).MonthIndex()
    ensures m <= k <= n && CivilOf(k).MonthIndex() == month
  {
    if month == CivilOf(n).MonthIndex() {
      k := n;
    } else {
      k := MonthMet(m, n - 1, month);
    }
  }

  // ---- Labels ----

  function Two(n: nat): (s: string)
    requires n < 100
    ensures |s| == 2
  {
    [Digit(n / 10), Digit(n % 10)]
  }

  /** Four digits, or more from year 10000 on. */
  function YearText(y: nat): string {
    if y < 10000 then Two(y / 100) + Two(y % 100) else Decimal(y)
  }

  function DateText(d: Date): string
    requires d.Valid()
  {
    YearText(d.year) + "-" + Two(d.month) + "-" + Two(d.day)
  }

  function MonthText(year: nat, month: nat): string
    requires 1 <= month <= 12
  {
    YearText(year) + "-" + Two(month)
  }

  predicate TwoDigits(s: string, i: nat)
    requires i + 1 < |s|
  {
    IsDigit(s[i]) && IsDigit(s[i + 1])
  }

  function TwoAt(s: string, i: nat): nat
    requires i + 1 < |s| && TwoDigits(s, i)
  {
    (s[i] as int - '0' as int) * 10 + (s[i + 1] as int - '0' as int)
  }

  /** Go's Parse with the layout 2006-01-02. */
  function ParseDate(s: string): Option<Date> {
    if |s| != 10 || s[4] != '-' || s[7] != '-' || !TwoDigits(s, 0) || !TwoDigits(s, 2) || !TwoDigits(s, 5) || !TwoDigits(s, 8)
    then None
    else
      var d := Date(TwoAt(s, 0) * 100 + TwoAt(s, 2), TwoAt(s, 5), TwoAt(s, 8));
      if d.Valid() then Some(d) else None
  }

  lemma TwoReads(n: nat)
    requires n < 100
    ensures TwoDigits(Two(n), 0) && TwoAt(Two(n), 0) == n
  {
  }

  /** Four digits of year, two of month and two of day, with dashes between. */
  lemma DateParts(d: Date)
    requires d.Valid() && d.year < 10000
    ensures d.day < 100
    ensures var s := DateText(d);
            && |s| == 10 && s[4] == '-' == s[7]
            && s[..4] == Two(d.year / 100) + Two(d.year % 100) && s[5..7] == Two(d.month) && s[8..] == Two(d.day)
  {
    hide Digit;
  }

  lemma SameAt(s: string, i: nat, t: string)
    requires |t| == 2 && i + 2 <= |s| && s[i..i + 2] == t
    ensures TwoDigits(s, i) <==> TwoDigits(t, 0)
    ensures TwoDigits(t, 0) ==> TwoAt(s, i) == TwoAt(t, 0)
  {
    assert s[i] == t[0] && s[i + 1] == t[1];
  }

  lemma DateRoundTrip(d: Date)
    requires d.Valid() && d.year < 10000
    ensures ParseDate(DateText(d)) == Some(d)
  {
    DateParts(d);
    TwoReads(d.year / 100);
    TwoReads(d.year % 100);
    TwoReads(d.month);
    TwoReads(d.day);
    hide DateText, MonthDays, Two, TwoDigits, TwoAt;
    var s := DateText(d);
    assert s[0..2] == s[..4][..2] && s[2..4] == s[..4][2..];
    SameAt(s, 0, Two(d.year / 100));
    SameAt(s, 2, Two(d.year % 100));
    SameAt(s, 5, Two(d.month));
    SameAt(s, 8, Two(d.day));
  }

  /** Up to year 9999 a week label names one day, and a month label one month. */
  lemma LabelsTellApart(m: nat, n: nat)
    requires CivilOf(m).year < 10000 && CivilOf(n).year < 10000
    ensures DateText(CivilOf(m)) == DateText(CivilOf(n)) ==> m == n
  {
    DateRoundTrip(CivilOf(m));
    DateRoundTrip(CivilOf(n));
    CivilRoundTrip(m);
    CivilRoundTrip(n);
  }

  lemma ValueNext(a: string, c: char)
    requires IsDigit(c) && forall k :: 0 <= k < |a| ==> IsDigit(a[k])
    ensures forall k :: 0 <= k < |a + [c]| ==> IsDigit((a + [c])[k])
    ensures Value(a + [c]) == Value(a) * 10 + (c as int - '0' as int)
  {
    assert (a + [c])[..|a|] == a;
  }

  lemma EmptyIsZero()
    ensures Value("") == 0
  {
  }

  lemma DigitReads(d: nat)
    requires d < 10
    ensures IsDigit(Digit(d)) && Digit(d) as int - '0' as int == d
  {
  }

  lemma ValueAppendsTwo(a: string, n: nat)
    requires n < 100 && forall k :: 0 <= k < |a| ==> IsDigit(a[k])
    ensures IsDigit(Two(n)[0]) && IsDigit(Two(n)[1])
    ensures Value(a + Two(n)) == Value(a) * 100 + n
  {
    DigitReads(n / 10);
    DigitReads(n % 10);
    var c, d := Digit(n / 10), Digit(n % 10);
    hide Digit, IsDigit, Value;
    ValueNext(a, c);
    ValueNext(a + [c], d);
    assert a + Two(n) == a + [c] + [d];
  }

  lemma TwoIsNumber(n: nat)
    requires n < 100
    ensures (forall k :: 0 <= k < 2 ==> IsDigit(Two(n)[k])) && Value(Two(n)) == n
  {
    hide Digit, IsDigit;
    EmptyIsZero();
    ValueAppendsTwo("", n);
    assert "" + Two(n) == Two(n);
  }

  ghost predicate Reads(s: string, n: nat) {
    (forall k :: 0 <= k < |s| ==> IsDigit(s[k])) && Value(s) == n
  }

  /** A date's text reads as its year, its month and its day. */
  lemma DateReads(d: Date)
    requires d.Valid() && d.year < 10000
    ensures var s := DateText(d);
            && |s| == 10 && s[4] == '-' == s[7]
            && Reads(s[..4], d.year) && Reads(s[5..7], d.month) && Reads(s[8..], d.day)
  {
    DateParts(d);
    TwoIsNumber(d.year / 100);
    TwoIsNumber(d.month);
    TwoIsNumber(d.day);
    ValueAppendsTwo(Two(d.year / 100), d.year % 100);
    hide DateText, MonthDays, IsDigit, Value, Digit;
  }

  /** A month's text is what the texts of its dates begin with. */
  lemma MonthBeginsDate(d: Date)
    requires d.Valid() && d.year < 10000
    ensures MonthText(d.year, d.month) == DateText(d)[..7]
  {
    assert |YearText(d.year)| == 4;
  }

  lemma MonthTextsTellApart(y: nat, m: nat, z: nat, n: nat)
    requires y < 10000 && z < 10000 && 1 <= m <= 12 && 1 <= n <= 12
    requires MonthText(y, m) == MonthText(z, n)
    ensures y == z && m == n
  {
    TwoReads(y / 100);
    TwoReads(y % 100);
    TwoReads(m);
    TwoReads(z / 100);
    TwoReads(z % 100);
    TwoReads(n);
    var s, t := MonthText(y, m), MonthText(z, n);
    assert s[0] == t[0] && s[1] == t[1] && s[2] == t[2] && s[3] == t[3] && s[5] == t[5] && s[6] == t[6];
  }
}
