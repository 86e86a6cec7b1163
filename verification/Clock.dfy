/** The clock floor: crates/plexos-init/src/clock.rs. Calendar arithmetic, the build stamp in
    `VERSION_ID`, and the correction made from it. */
module Clock {
  import opened Wrappers
  import opened Text

  /** Division as the source's language does it: towards zero. */
  function TruncDiv(a: int, b: int): int
    requires b > 0
  {
    if a >= 0 then a / b else -((-a) / b)
  }

  function DaysFromCivil(year: int, month: int, day: int): int {
    var y := if month <= 2 then year - 1 else year;
    var era := TruncDiv(if y >= 0 then y else y - 399, 400);
    var yearOfEra := y - era * 400;
    var dayOfYear := TruncDiv(153 * (if month > 2 then month - 3 else month + 9) + 2, 5) + day - 1;
    var dayOfEra := yearOfEra * 365 + TruncDiv(yearOfEra, 4) - TruncDiv(yearOfEra, 100) + dayOfYear;
    era * 146_097 + dayOfEra - 719_468
  }

  // ----- The calendar, one day at a time -----

  datatype Date = Date(year: int, month: int, day: int)

  predicate LeapYear(year: int) {
    year % 4 == 0 && (year % 100 != 0 || year % 400 == 0)
  }

  function DaysInMonth(year: int, month: int): int {
    if month == 2 then (if LeapYear(year) then 29 else 28)
    else if month == 4 || month == 6 || month == 9 || month == 11 then 30
    else 31
  }

  predicate RealDate(d: Date) {
    1 <= d.month <= 12 && 1 <= d.day <= DaysInMonth(d.year, d.month)
  }

  function Tomorrow(d: Date): Date {
    if d.day < DaysInMonth(d.year, d.month) then Date(d.year, d.month, d.day + 1)
    else if d.month < 12 then Date(d.year, d.month + 1, 1)
    else Date(d.year + 1, 1, 1)
  }

  function Yesterday(d: Date): Date {
    if d.day > 1 then Date(d.year, d.month, d.day - 1)
    else if d.month > 1 then Date(d.year, d.month - 1, DaysInMonth(d.year, d.month - 1))
    else Date(d.year - 1, 12, 31)
  }

  /** The date `n` days after 1970-01-01, or before it when `n` is negative, found by counting. */
  function Count(n: int): Date
    decreases if n >= 0 then n else -n
  {
    if n == 0 then Date(1970, 1, 1)
    else if n > 0 then Tomorrow(Count(n - 1))
    else Yesterday(Count(n + 1))
  }

  // ----- The closed form -----

  /** Days before 1 March of a year that starts in March, counted from 1 March of year 0. */
  function MarchStart(y: int): int {
    365 * y + y / 4 - y / 100 + y / 400
  }

  /** Days from 1 March to the first of a month, counted in a year that starts in March. */
  function MonthStart(m: int): int
    requires 1 <= m <= 12
  {
    (153 * (if m > 2 then m - 3 else m + 9) + 2) / 5
  }

  lemma DaysAreClosed(year: int, month: int, day: int)
    requires 1 <= month <= 12
    ensures DaysFromCivil(year, month, day)
         == MarchStart(if month <= 2 then year - 1 else year) + MonthStart(month) + day - 1 - 719_468
  {
    var y := if month <= 2 then year - 1 else year;
    var era := TruncDiv(if y >= 0 then y else y - 399, 400);
    EraIsFloor(y);
    assert era == y / 400;
    var yoe := y - era * 400;
    QuartersOfEra(y, era, yoe);
  }

  lemma EraIsFloor(y: int)
    ensures TruncDiv(if y >= 0 then y else y - 399, 400) == y / 400
  {
    if y < 0 {
      var q := y / 400;
      assert 400 * q <= y < 400 * q + 400;
      assert (399 - y) / 400 == -q;
    }
  }

  lemma QuartersOfEra(y: int, era: int, yoe: int)
    requires era == y / 400 && yoe == y - era * 400
    ensures 0 <= yoe < 400
    ensures y / 4 == era * 100 + yoe / 4 && y / 100 == era * 4 + yoe / 100
  {
  }

  lemma NextQuotients(y: int)
    ensures (y + 1) / 4 == y / 4 + (if (y + 1) % 4 == 0 then 1 else 0)
    ensures (y + 1) / 100 == y / 100 + (if (y + 1) % 100 == 0 then 1 else 0)
    ensures (y + 1) / 400 == y / 400 + (if (y + 1) % 400 == 0 then 1 else 0)
  {
    NextQuotient(y, 4);
    NextQuotient(y, 100);
    NextQuotient(y, 400);
  }

  lemma NextQuotient(y: int, k: int)
    requires k > 1
    ensures (y + 1) / k == y / k + (if (y + 1) % k == 0 then 1 else 0)
  {
    var q, r := y / k, y % k;
    assert y + 1 == k * q + (r + 1);
    if r + 1 < k {
      QuotientIs(y + 1, k, q, r + 1);
    } else {
      assert y + 1 == k * (q + 1);
      QuotientIs(y + 1, k, q + 1, 0);
    }
  }

  lemma QuotientIs(x: int, k: int, q: int, r: int)
    requires k > 0 && 0 <= r < k && x == k * q + r
    ensures x / k == q && x % k == r
  {
    var d := x / k - q;
    assert k * d == r - x % k;
    MultiplesOf(k, d);
  }

  lemma MultiplesOf(k: int, d: int)
    requires k > 0
    ensures d >= 1 ==> k * d >= k
    ensures d <= -1 ==> k * d <= -k
  {
  }

  lemma LeapQuotients(y: int)
    ensures y % 400 == 0 ==> y % 100 == 0
    ensures y % 100 == 0 ==> y % 4 == 0
  {
    if y % 400 == 0 {
      QuotientIs(y, 100, 4 * (y / 400), 0);
    }
    if y % 100 == 0 {
      QuotientIs(y, 4, 25 * (y / 100), 0);
    }
  }

  /** A year that starts in March is a day longer when its February is in a leap year. */
  lemma MarchYearLength(y: int)
    ensures MarchStart(y + 1) == MarchStart(y) + (if LeapYear(y + 1) then 366 else 365)
  {
    NextQuotients(y);
    LeapQuotients(y + 1);
  }

  lemma MonthStarts()
    ensures MonthStart(3) == 0 && MonthStart(4) == 31 && MonthStart(5) == 61 && MonthStart(6) == 92
    ensures MonthStart(7) == 122 && MonthStart(8) == 153 && MonthStart(9) == 184 && MonthStart(10) == 214
    ensures MonthStart(11) == 245 && MonthStart(12) == 275 && MonthStart(1) == 306 && MonthStart(2) == 337
  {
  }

  lemma MonthStep(m: int)
    requires 1 <= m <= 12 && m != 2
    ensures MonthStart(if m < 12 then m + 1 else 1) == MonthStart(m) + DaysInMonth(0, m)
  {
    MonthStarts();
  }

  /** The first of the month after. */
  lemma MonthLength(year: int, m: int)
    requires 1 <= m <= 12
    ensures DaysFromCivil(if m < 12 then year else year + 1, if m < 12 then m + 1 else 1, 1)
         == DaysFromCivil(year, m, 1) + DaysInMonth(year, m)
  {
    DaysAreClosed(year, m, 1);
    DaysAreClosed(if m < 12 then year else year + 1, if m < 12 then m + 1 else 1, 1);
    if m == 2 {
      MonthStarts();
      MarchYearLength(year - 1);
    } else {
      MonthStep(m);
    }
  }

  lemma DaysFromTheFirst(year: int, month: int, day: int)
    requires 1 <= month <= 12
    ensures DaysFromCivil(year, month, day) == DaysFromCivil(year, month, 1) + day - 1
  {
    DaysAreClosed(year, month, day);
    DaysAreClosed(year, month, 1);
  }

  /** Counting one day on the calendar is counting one day in the formula. */
  lemma TomorrowIsOneMore(d: Date)
    requires RealDate(d)
    ensures RealDate(Tomorrow(d))
    ensures DaysFromCivil(Tomorrow(d).year, Tomorrow(d).month, Tomorrow(d).day)
         == DaysFromCivil(d.year, d.month, d.day) + 1
  {
    DaysFromTheFirst(d.year, d.month, d.day);
    DaysFromTheFirst(d.year, d.month, d.day + 1);
    MonthLength(d.year, d.month);
  }

  lemma YesterdayOfTomorrow(d: Date)
    requires RealDate(d)
    ensures Yesterday(Tomorrow(d)) == d
    ensures RealDate(Yesterday(d)) && Tomorrow(Yesterday(d)) == d
  {
  }

  predicate Earlier(a: Date, b: Date) {
    a.year < b.year || (a.year == b.year && (a.month < b.month || (a.month == b.month && a.day < b.day)))
  }

  /** The first day of a month comes after every day of an earlier month of that year. */
  lemma {:induction false} LaterMonth(year: int, m: int, day: int, n: int)
    requires 1 <= m < n <= 12 && 1 <= day <= DaysInMonth(year, m)
    ensures DaysFromCivil(year, m, day) < DaysFromCivil(year, n, 1)
    decreases n - m
  {
    DaysFromTheFirst(year, m, day);
    MonthLength(year, m);
    if m + 1 < n {
      LaterMonth(year, m + 1, 1, n);
    }
  }

  lemma {:induction false} LaterYear(year: int, later: int)
    requires year <= later
    ensures DaysFromCivil(year, 12, 31) < DaysFromCivil(later + 1, 1, 1)
    decreases later - year
  {
    DaysFromTheFirst(later, 12, 31);
    MonthLength(later, 12);
    if year < later {
      LaterYear(year, later - 1);
      LaterMonth(later, 1, 1, 12);
    }
  }

  lemma EarlierIsLess(a: Date, b: Date)
    requires RealDate(a) && RealDate(b) && Earlier(a, b)
    ensures DaysFromCivil(a.year, a.month, a.day) < DaysFromCivil(b.year, b.month, b.day)
  {
    if a.year < b.year {
      EarlierYearIsLess(a, b);
    } else {
      DaysFromTheFirst(a.year, a.month, a.day);
      DaysFromTheFirst(b.year, b.month, b.day);
      if a.month < b.month { LaterMonth(a.year, a.month, a.day, b.month); }
    }
  }

  lemma EarlierYearIsLess(a: Date, b: Date)
    requires RealDate(a) && RealDate(b) && a.year < b.year
    ensures DaysFromCivil(a.year, a.month, a.day) < DaysFromCivil(b.year, b.month, b.day)
  {
    LaterYear(a.year, b.year - 1);
    FromNewYear(b);
    UntilNewYear(a);
  }

  lemma FromNewYear(d: Date)
    requires RealDate(d)
    ensures DaysFromCivil(d.year, 1, 1) <= DaysFromCivil(d.year, d.month, d.day)
  {
    DaysFromTheFirst(d.year, d.month, d.day);
    if d.month > 1 { LaterMonth(d.year, 1, 1, d.month); }
  }

  lemma UntilNewYear(d: Date)
    requires RealDate(d)
    ensures DaysFromCivil(d.year, d.month, d.day) <= DaysFromCivil(d.year, 12, 31)
  {
    DaysFromTheFirst(d.year, d.month, d.day);
    DaysFromTheFirst(d.year, 12, 31);
    if d.month < 12 { LaterMonth(d.year, d.month, d.day, 12); }
  }

  /** For every real date, before or after 1970, counting that many days arrives at it. */
  lemma CountArrives(d: Date)
    requires RealDate(d)
    ensures Count(DaysFromCivil(d.year, d.month, d.day)) == d
  {
    CountArrivesAt(d, DaysFromCivil(d.year, d.month, d.day));
  }

  lemma {:induction false} CountArrivesAt(d: Date, n: int)
    requires RealDate(d) && n == DaysFromCivil(d.year, d.month, d.day)
    ensures Count(n) == d
    decreases if n >= 0 then n else -n
  {
    YesterdayOfTomorrow(d);
    if n > 0 {
      TomorrowIsOneMore(Yesterday(d));
      CountArrivesAt(Yesterday(d), n - 1);
    } else if n < 0 {
      TomorrowIsOneMore(d);
      CountArrivesAt(Tomorrow(d), n + 1);
    } else {
      OnlyTheEpochIsZero(d);
    }
  }

  lemma OnlyTheEpochIsZero(d: Date)
    requires RealDate(d) && DaysFromCivil(d.year, d.month, d.day) == 0
    ensures d == Date(1970, 1, 1)
  {
    var epoch := Date(1970, 1, 1);
    assert DaysFromCivil(1970, 1, 1) == 0;
    if Earlier(d, epoch) {
      EarlierIsLess(d, epoch);
    } else if Earlier(epoch, d) {
      EarlierIsLess(epoch, d);
    }
  }

  lemma {:induction false} CountIsReal(n: int)
    ensures RealDate(Count(n))
    decreases if n >= 0 then n else -n
  {
    if n > 0 { CountIsReal(n - 1); }
    if n < 0 { CountIsReal(n + 1); }
  }

  /** Of the dates the stamp's range check lets through, exactly the real ones name their own day:
      the 31st of a shorter month is silently read as a day of the next. */
  lemma OnlyRealDatesNameTheirDay(d: Date)
    requires 1 <= d.month <= 12 && 1 <= d.day <= 31
    ensures Count(DaysFromCivil(d.year, d.month, d.day)) == d <==> RealDate(d)
  {
    CountIsReal(DaysFromCivil(d.year, d.month, d.day));
    if RealDate(d) { CountArrives(d); }
  }

  // ----- The build stamp -----

  datatype Stamp = Stamp(date: Date, hour: int, minute: int)

  function Number(s: string, from: nat, to: nat): int
    requires from <= to <= |s| && AllDigits(s)
  {
    Value(s[from..to])
  }

  /** The fourth dotted component, when it is exactly twelve digits. */
  function ReadStamp(versionId: string): Option<Stamp> {
    var parts := Split(versionId, '.');
    if |parts| <= 3 || |parts[3]| != 12 || !AllDigits(parts[3]) then None
    else
      var s := parts[3];
      Some(Stamp(Date(Number(s, 0, 4), Number(s, 4, 6), Number(s, 6, 8)), Number(s, 8, 10), Number(s, 10, 12)))
  }

  predicate InRange(s: Stamp) {
    1 <= s.date.month <= 12 && 1 <= s.date.day <= 31 && 0 <= s.hour <= 23 && 0 <= s.minute <= 59
  }

  function StampSeconds(s: Stamp): int {
    DaysFromCivil(s.date.year, s.date.month, s.date.day) * 86_400 + s.hour * 3_600 + s.minute * 60
  }

  function BuildTime(versionId: string): Option<int> {
    var s :- ReadStamp(versionId);
    if InRange(s) then Some(StampSeconds(s)) else None
  }

  /** Days since 1 January of the same year. */
  function DayOfYear(d: Date): int
    requires 1 <= d.month
    decreases d.month
  {
    if d.month == 1 then d.day - 1
    else DaysInMonth(d.year, d.month - 1) + DayOfYear(Date(d.year, d.month - 1, d.day))
  }

  /** Seconds since the Epoch, as section 4.16 of the POSIX.1-2017 Base Definitions gives them. */
  function PosixSeconds(s: Stamp): int
    requires 1 <= s.date.month
  {
    var tm_year := s.date.year - 1900;
    s.minute * 60 + s.hour * 3_600 + DayOfYear(s.date) * 86_400
    + (tm_year - 70) * 31_536_000 + TruncDiv(tm_year - 69, 4) * 86_400
    - TruncDiv(tm_year - 1, 100) * 86_400 + TruncDiv(tm_year + 299, 400) * 86_400
  }

  lemma SameDayLastMonth(year: int, month: int, day: int)
    requires 1 < month <= 12
    ensures DaysFromCivil(year, month, day) == DaysFromCivil(year, month - 1, day) + DaysInMonth(year, month - 1)
  {
    DaysFromTheFirst(year, month, day);
    DaysFromTheFirst(year, month - 1, day);
    MonthLength(year, month - 1);
  }

  lemma {:induction false} DayOfYearCounts(year: int, month: int, day: int)
    requires 1 <= month <= 12
    ensures DaysFromCivil(year, month, day) == DaysFromCivil(year, 1, 1) + DayOfYear(Date(year, month, day))
    decreases month
  {
    if month > 1 {
      SameDayLastMonth(year, month, day);
      DayOfYearCounts(year, month - 1, day);
    } else {
      DaysFromTheFirst(year, 1, day);
    }
  }

  lemma NewYearByPosix(year: int)
    requires year >= 1970
    ensures DaysFromCivil(year, 1, 1)
         == (year - 1970) * 365 + (year - 1969) / 4 - (year - 1901) / 100 + (year - 1601) / 400
  {
    DaysAreClosed(year, 1, 1);
    var y := year - 1;
    assert (y - 1968) / 4 == y / 4 - 492;
    assert (y - 1900) / 100 == y / 100 - 19;
    assert (y - 1600) / 400 == y / 400 - 4;
  }

  /** From 1970 on the stamp's value is the one POSIX defines. */
  lemma StampIsPosix(s: Stamp)
    requires InRange(s) && s.date.year >= 1970
    ensures StampSeconds(s) == PosixSeconds(s)
  {
    DayOfYearCounts(s.date.year, s.date.month, s.date.day);
    NewYearByPosix(s.date.year);
  }

  predicate EarlierStamp(a: Stamp, b: Stamp) {
    || Earlier(a.date, b.date)
    || (a.date == b.date && (a.hour < b.hour || (a.hour == b.hour && a.minute < b.minute)))
  }

  /** A later real stamp is a later time, and an equal time is the same stamp. */
  lemma LaterStampIsLater(a: Stamp, b: Stamp)
    requires InRange(a) && InRange(b) && RealDate(a.date) && RealDate(b.date)
    ensures StampSeconds(a) < StampSeconds(b) <==> EarlierStamp(a, b)
    ensures StampSeconds(a) == StampSeconds(b) <==> a == b
  {
    if Earlier(a.date, b.date) {
      EarlierIsLess(a.date, b.date);
    } else if Earlier(b.date, a.date) {
      EarlierIsLess(b.date, a.date);
    }
  }

  // ----- The version string -----

  function DigitChar(v: nat): (c: char)
    requires v <= 9
    ensures IsDigit(c) && DigitValue(c) == v
  {
    ('0' as int + v) as char
  }

  /** A number in a field of fixed width, with leading zeroes. */
  function Padded(n: nat, width: nat): (s: string)
    ensures |s| == width && AllDigits(s)
  {
    if width == 0 then "" else Padded(n / 10, width - 1) + [DigitChar(n % 10)]
  }

  lemma {:induction false} ValueOfPadded(n: nat, width: nat)
    requires n < PowerOfTen(width)
    ensures Value(Padded(n, width)) == n
    decreases width
  {
    if width > 0 {
      ValueOfPadded(n / 10, width - 1);
      assert Padded(n, width)[..width - 1] == Padded(n / 10, width - 1);
    }
  }

  lemma {:induction false} PaddedValue(s: string)
    requires AllDigits(s)
    ensures Value(s) < PowerOfTen(|s|) && Padded(Value(s), |s|) == s
    decreases |s|
  {
    if s != "" {
      var front, last := s[..|s| - 1], s[|s| - 1];
      PaddedValue(front);
      assert Value(s) / 10 == Value(front) && Value(s) % 10 == DigitValue(last);
      assert front + [last] == s;
    }
  }

  lemma {:induction false} ValueOfConcat(a: string, b: string)
    requires AllDigits(a) && AllDigits(b)
    ensures AllDigits(a + b) && Value(a + b) == Value(a) * PowerOfTen(|b|) + Value(b)
    decreases |b|
  {
    if b == "" {
      assert a + b == a;
    } else {
      var front := b[..|b| - 1];
      ValueOfConcat(a, front);
      assert (a + b)[..|a + b| - 1] == a + front;
      TenTimes(Value(a), PowerOfTen(|front|), Value(front));
    }
  }

  lemma TenTimes(v: nat, p: nat, w: nat)
    ensures 10 * (v * p + w) == v * (10 * p) + 10 * w
  {
  }

  /** `date -u +%Y%m%d%H%M`, for a year of four digits. */
  function Print(s: Stamp): (text: string)
    requires Printable(s)
    ensures |text| == 12 && AllDigits(text)
  {
    Padded(s.date.year, 4) + Padded(s.date.month, 2) + Padded(s.date.day, 2) + Padded(s.hour, 2) + Padded(s.minute, 2)
  }

  /** Four digits of year, a month and a day of at most 31, an hour and a minute. */
  predicate Printable(s: Stamp) {
    && 0 <= s.date.year <= 9_999 && 1 <= s.date.month <= 12 && 1 <= s.date.day <= 31
    && 0 <= s.hour <= 23 && 0 <= s.minute <= 59
  }

  lemma PrintedFields(s: Stamp)
    requires Printable(s)
    ensures var text := Print(s);
            && Number(text, 0, 4) == s.date.year && Number(text, 4, 6) == s.date.month
            && Number(text, 6, 8) == s.date.day
            && Number(text, 8, 10) == s.hour && Number(text, 10, 12) == s.minute
  {
    var text := Print(s);
    TwoAndFour();
    ValueOfPadded(s.date.year, 4);
    ValueOfPadded(s.date.month, 2);
    ValueOfPadded(s.date.day, 2);
    ValueOfPadded(s.hour, 2);
    ValueOfPadded(s.minute, 2);
    assert text[0..4] == Padded(s.date.year, 4) && text[4..6] == Padded(s.date.month, 2);
    assert text[6..8] == Padded(s.date.day, 2) && text[8..10] == Padded(s.hour, 2);
    assert text[10..12] == Padded(s.minute, 2);
  }

  lemma TwoAndFour()
    ensures PowerOfTen(2) == 100 && PowerOfTen(4) == 10_000
  {
    assert PowerOfTen(2) == 100;
  }

  /** The text read as one number of twelve digits. */
  lemma PrintedNumber(s: Stamp)
    requires Printable(s)
    ensures Value(Print(s))
         == (((s.date.year * 100 + s.date.month) * 100 + s.date.day) * 100 + s.hour) * 100 + s.minute
  {
    TwoAndFour();
    ValueOfPadded(s.date.year, 4);
    ValueOfPadded(s.date.month, 2);
    ValueOfPadded(s.date.day, 2);
    ValueOfPadded(s.hour, 2);
    ValueOfPadded(s.minute, 2);
    var a := Padded(s.date.year, 4) + Padded(s.date.month, 2);
    var b := a + Padded(s.date.day, 2);
    ValueOfConcat(Padded(s.date.year, 4), Padded(s.date.month, 2));
    ValueOfConcat(a, Padded(s.date.day, 2));
    ValueOfConcat(b, Padded(s.hour, 2));
    ValueOfConcat(b + Padded(s.hour, 2), Padded(s.minute, 2));
  }

  /** A version of four dotted components, the last of them `text`, or of more. */
  function Version(a: string, b: string, c: string, text: string, more: Option<string>): string {
    a + "." + (b + "." + (c + "." + (if more.Some? then text + "." + more.value else text)))
  }

  predicate NoDots(a: string, b: string, c: string, text: string) {
    '.' !in a && '.' !in b && '.' !in c && '.' !in text
  }

  lemma FourthComponent(a: string, b: string, c: string, text: string, more: Option<string>)
    requires NoDots(a, b, c, text)
    ensures var parts := Split(Version(a, b, c, text, more), '.'); |parts| > 3 && parts[3] == text
  {
    var tail := if more.Some? then text + "." + more.value else text;
    if more.Some? {
      SplitCons(text, more.value, '.');
    } else {
      SplitWhole(text, '.');
    }
    SplitRest(a, b, c, tail, '.');
  }

  lemma SplitRest(a: string, b: string, c: string, tail: string, sep: char)
    requires sep !in a && sep !in b && sep !in c
    ensures Split(a + [sep] + (b + [sep] + (c + [sep] + tail)), sep) == [a, b, c] + Split(tail, sep)
  {
    SplitCons(c, tail, sep);
    SplitCons(b, c + [sep] + tail, sep);
    SplitCons(a, b + [sep] + (c + [sep] + tail), sep);
  }

  lemma DigitsHaveNoDot(text: string)
    requires AllDigits(text)
    ensures '.' !in text
  {
  }

  /** Every stamp the range check lets through is read from where it stands in a version, and gives
      its seconds. */
  lemma BuildTimeOfVersion(a: string, b: string, c: string, s: Stamp, more: Option<string>)
    requires NoDots(a, b, c, "") && Printable(s)
    ensures BuildTime(Version(a, b, c, Print(s), more)) == Some(StampSeconds(s))
  {
    DigitsHaveNoDot(Print(s));
    FourthComponent(a, b, c, Print(s), more);
    PrintedFields(s);
  }

  /** And nothing else is read: a version with a build time is one of those. */
  lemma OnlyVersionsHaveBuildTimes(versionId: string)
    requires BuildTime(versionId).Some?
    ensures exists a, b, c, s, more ::
              NoDots(a, b, c, "") && Printable(s) && versionId == Version(a, b, c, Print(s), more)
  {
    var parts := Split(versionId, '.');
    var text := parts[3];
    var s := ReadStamp(versionId).value;
    JoinSplit(versionId, '.');
    ReadIsPrinted(text, s);
    assert NoDots(parts[0], parts[1], parts[2], "");
    JoinOfFour(parts, '.');
    var more := if |parts| == 4 then None else Some(Join(parts[4..], '.'));
    assert versionId == Version(parts[0], parts[1], parts[2], Print(s), more);
  }

  lemma ReadIsPrinted(text: string, s: Stamp)
    requires |text| == 12 && AllDigits(text) && InRange(s)
    requires s.date == Date(Number(text, 0, 4), Number(text, 4, 6), Number(text, 6, 8))
    requires s.hour == Number(text, 8, 10) && s.minute == Number(text, 10, 12)
    ensures Printable(s) && Print(s) == text
  {
    TwoAndFour();
    FieldIsPadded(text, 0, 4);
    FieldIsPadded(text, 4, 6);
    FieldIsPadded(text, 6, 8);
    FieldIsPadded(text, 8, 10);
    FieldIsPadded(text, 10, 12);
    FiveFields(text);
  }

  lemma FieldIsPadded(text: string, from: nat, to: nat)
    requires from <= to <= |text| && AllDigits(text)
    ensures 0 <= Number(text, from, to) < PowerOfTen(to - from)
    ensures Padded(Number(text, from, to), to - from) == text[from..to]
  {
    PaddedValue(text[from..to]);
  }

  lemma FiveFields(text: string)
    requires |text| == 12
    ensures text == text[0..4] + text[4..6] + text[6..8] + text[8..10] + text[10..12]
  {
  }

  lemma JoinOfFour(parts: seq<string>, sep: char)
    requires |parts| > 3
    ensures var tail := if |parts| == 4 then parts[3] else parts[3] + [sep] + Join(parts[4..], sep);
            Join(parts, sep) == parts[0] + [sep] + (parts[1] + [sep] + (parts[2] + [sep] + tail))
  {
    JoinDrop(parts, 0, sep);
    JoinDrop(parts, 1, sep);
    JoinDrop(parts, 2, sep);
    JoinDrop(parts, 3, sep);
    assert parts[0..] == parts;
    JoinRest(parts[0], parts[1], parts[2], Join(parts[3..], sep), Join(parts[2..], sep), Join(parts[1..], sep), sep);
  }

  lemma JoinDrop(parts: seq<string>, i: nat, sep: char)
    requires i < |parts|
    ensures Join(parts[i..], sep)
         == if i == |parts| - 1 then parts[i] else parts[i] + [sep] + Join(parts[i + 1..], sep)
  {
    assert parts[i..][0] == parts[i];
    if i < |parts| - 1 { assert parts[i..][1..] == parts[i + 1..]; }
  }

  lemma JoinRest(a: string, b: string, c: string, tail: string, third: string, second: string, sep: char)
    requires third == c + [sep] + tail && second == b + [sep] + third
    ensures a + [sep] + second == a + [sep] + (b + [sep] + (c + [sep] + tail))
  {
  }

  /** From 1970 on, the build time of a version that carries a real date is the one POSIX defines. */
  lemma BuildTimeIsPosix(a: string, b: string, c: string, s: Stamp, more: Option<string>)
    requires NoDots(a, b, c, "") && Printable(s) && RealDate(s.date) && s.date.year >= 1970
    ensures BuildTime(Version(a, b, c, Print(s), more)) == Some(PosixSeconds(s))
  {
    BuildTimeOfVersion(a, b, c, s, more);
    StampIsPosix(s);
  }

  lemma EarlierIsSmaller(s: Stamp, t: Stamp)
    requires Printable(s) && Printable(t)
    ensures Value(Print(s)) < Value(Print(t)) <==> EarlierStamp(s, t)
  {
    PrintedNumber(s);
    PrintedNumber(t);
  }

  /** Between two versions with real dates, whatever else they say, the one whose twelve digits are
      the larger number has the later build time, and equal times come from equal digits. */
  lemma LaterVersionIsLater(v: string, w: string, s: Stamp, t: Stamp)
    requires Carries(v, s) && Carries(w, t) && RealDate(s.date) && RealDate(t.date)
    ensures BuildTime(v).Some? && BuildTime(w).Some?
    ensures BuildTime(v).value < BuildTime(w).value <==> Value(Print(s)) < Value(Print(t))
    ensures BuildTime(v).value == BuildTime(w).value <==> Print(s) == Print(t)
  {
    CarriedIsRead(v, s);
    CarriedIsRead(w, t);
    LaterStampIsLater(s, t);
    EarlierIsSmaller(s, t);
    PrintedFields(s);
    PrintedFields(t);
  }

  ghost predicate Carries(v: string, s: Stamp) {
    Printable(s) && exists a, b, c, more :: NoDots(a, b, c, "") && v == Version(a, b, c, Print(s), more)
  }

  lemma CarriedIsRead(v: string, s: Stamp)
    requires Carries(v, s)
    ensures BuildTime(v) == Some(StampSeconds(s))
  {
    var a, b, c, more :| NoDots(a, b, c, "") && v == Version(a, b, c, Print(s), more);
    BuildTimeOfVersion(a, b, c, s, more);
  }

  /** The day a date that does not exist is taken for. */
  function Spilled(d: Date): Date
    requires d.month < 12
  {
    Date(d.year, d.month + 1, d.day - DaysInMonth(d.year, d.month))
  }

  lemma SameDaySpilled(d: Date)
    requires 1 <= d.month <= 12 && 1 <= d.day <= 31 && !RealDate(d)
    ensures d.month < 12 && RealDate(Spilled(d)) && Spilled(d).day <= 31
    ensures DaysFromCivil(d.year, d.month, d.day)
         == DaysFromCivil(Spilled(d).year, Spilled(d).month, Spilled(d).day)
  {
    DaysFromTheFirst(d.year, d.month, d.day);
    DaysFromTheFirst(d.year, d.month + 1, d.day - DaysInMonth(d.year, d.month));
    MonthLength(d.year, d.month);
  }

  /** A day past the end of its month is accepted, and the version has the build time of one that
      says so many days into the next month. */
  lemma UnrealDateSpills(a: string, b: string, c: string, s: Stamp, more: Option<string>)
    requires NoDots(a, b, c, "") && Printable(s) && !RealDate(s.date)
    ensures s.date.month < 12 && RealDate(Spilled(s.date)) && Printable(s.(date := Spilled(s.date)))
    ensures BuildTime(Version(a, b, c, Print(s), more))
         == BuildTime(Version(a, b, c, Print(s.(date := Spilled(s.date))), more))
  {
    SameDaySpilled(s.date);
    SpillTo(a, b, c, s, s.(date := Spilled(s.date)), more);
  }

  lemma SpillTo(a: string, b: string, c: string, s: Stamp, t: Stamp, more: Option<string>)
    requires NoDots(a, b, c, "") && Printable(s) && Printable(t) && StampSeconds(s) == StampSeconds(t)
    ensures BuildTime(Version(a, b, c, Print(s), more)) == BuildTime(Version(a, b, c, Print(t), more))
  {
    BuildTimeOfVersion(a, b, c, s, more);
    BuildTimeOfVersion(a, b, c, t, more);
  }

  lemma OneMoreDigit(text: string, from: nat, to: nat)
    requires from < to <= |text| && AllDigits(text)
    ensures Number(text, from, to) == 10 * Number(text, from, to - 1) + DigitValue(text[to - 1])
  {
    assert text[from..to][..to - from - 1] == text[from..to - 1];
  }

  lemma TwoDigits(text: string, at: nat)
    requires at + 2 <= |text| && AllDigits(text)
    ensures Number(text, at, at + 2) == 10 * DigitValue(text[at]) + DigitValue(text[at + 1])
  {
    OneMoreDigit(text, at, at + 2);
    OneMoreDigit(text, at, at + 1);
    assert Number(text, at, at) == 0;
  }

  /** The date and the midnight that twelve digits spell. */
  predicate Spells(text: string, d: Date)
    requires |text| == 12 && AllDigits(text)
  {
    && 100 * (10 * DigitValue(text[0]) + DigitValue(text[1])) + 10 * DigitValue(text[2]) + DigitValue(text[3]) == d.year
    && 10 * DigitValue(text[4]) + DigitValue(text[5]) == d.month
    && 10 * DigitValue(text[6]) + DigitValue(text[7]) == d.day
    && text[8] == text[9] == text[10] == text[11] == '0'
  }

  lemma ReadAt(a: string, b: string, c: string, text: string, d: Date)
    requires NoDots(a, b, c, "") && |text| == 12 && AllDigits(text) && Spells(text, d) && InRange(Stamp(d, 0, 0))
    ensures BuildTime(Version(a, b, c, text, None)) == Some(StampSeconds(Stamp(d, 0, 0)))
  {
    DigitsHaveNoDot(text);
    FourthComponent(a, b, c, text, None);
    TwoDigits(text, 0);
    OneMoreDigit(text, 0, 3);
    OneMoreDigit(text, 0, 4);
    TwoDigits(text, 4);
    TwoDigits(text, 6);
    TwoDigits(text, 8);
    TwoDigits(text, 10);
  }

  lemma SpelledDates(text: string, other: string)
    requires text == "202602310000" && other == "202603030000"
    ensures |text| == 12 && AllDigits(text) && Spells(text, Date(2026, 2, 31))
    ensures |other| == 12 && AllDigits(other) && Spells(other, Date(2026, 3, 3))
  {
  }

  /** 31 February 2026 is accepted, as 3 March. */
  lemma FebruaryThirtyFirst(v: string, w: string)
    requires v == "0.1.0.202602310000" && w == "0.1.0.202603030000"
    ensures BuildTime(v).Some? && BuildTime(v) == BuildTime(w)
  {
    SpelledDates(v[6..], w[6..]);
    SameMidnight(v, v[6..], Date(2026, 2, 31), w, w[6..], Date(2026, 3, 3));
  }

  lemma SameMidnight(v: string, text: string, d: Date, w: string, other: string, e: Date)
    requires |v| >= 6 && v[..6] == "0.1.0." && text == v[6..] && |w| >= 6 && w[..6] == "0.1.0." && other == w[6..]
    requires |text| == 12 && AllDigits(text) && Spells(text, d) && |other| == 12 && AllDigits(other) && Spells(other, e)
    requires InRange(Stamp(d, 0, 0)) && !RealDate(d) && d.month < 12 && e == Spilled(d)
    ensures BuildTime(v).Some? && BuildTime(v) == BuildTime(w)
  {
    var t := SpilledMidnight(d, e);
    MidnightOf(v, text, d, t);
    MidnightOf(w, other, e, t);
  }

  lemma SpilledMidnight(d: Date, e: Date) returns (t: int)
    requires InRange(Stamp(d, 0, 0)) && !RealDate(d) && d.month < 12 && e == Spilled(d)
    ensures t == StampSeconds(Stamp(d, 0, 0)) == StampSeconds(Stamp(e, 0, 0)) && InRange(Stamp(e, 0, 0))
  {
    SameDaySpilled(d);
    t := StampSeconds(Stamp(d, 0, 0));
  }

  lemma MidnightOf(v: string, text: string, d: Date, t: int)
    requires |v| >= 6 && v[..6] == "0.1.0." && text == v[6..]
    requires |text| == 12 && AllDigits(text) && Spells(text, d)
    requires InRange(Stamp(d, 0, 0)) && t == StampSeconds(Stamp(d, 0, 0))
    ensures BuildTime(v) == Some(t)
  {
    assert v == Version("0", "1", "0", text, None);
    ReadAt("0", "1", "0", text, d);
  }

  // ----- The correction -----

  function Correction(now: int, floor: int): Option<int> {
    if now < floor then Some(floor) else None
  }

  function Corrected(now: int, floor: int): int {
    match Correction(now, floor)
    case Some(t) => t
    case None => now
  }

  /** The clock never moves back, ends at or after the floor, is left alone when it was already
      there, and a second correction finds nothing to do. */
  lemma CorrectionIsAFloor(now: int, floor: int)
    ensures Corrected(now, floor) >= now && Corrected(now, floor) >= floor
    ensures Corrected(now, floor) == now || Corrected(now, floor) == floor
    ensures Correction(Corrected(now, floor), floor).None?
  {
  }
}
