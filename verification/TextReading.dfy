/** What the printed timestamps say: reading one back gives the instant, and the calendar agrees with the closed formulas. */
module TextReading {
  import opened Common
  import opened TextTime

  // ---------------------------------------------------------------- the calendar in closed form

  /** Days from the start of year 0 to the start of year `y`. */
  function YearStart(y: nat): int {
    if y == 0 then 0 else 365 * y + 1 + (y - 1) / 4 - (y - 1) / 100 + (y - 1) / 400
  }

  predicate Leap(y: nat) {
    (y % 4 == 0 && y % 100 != 0) || y % 400 == 0
  }

  const MONTH_START := [0, 31, 59, 90, 120, 151, 181, 212, 243, 273, 304, 334]

  /** Days from the start of a year to the start of a month. */
  function MonthStart(leap: bool, month: nat): int
    requires 1 <= month <= 12
  {
    MONTH_START[month - 1] + if leap && month > 2 then 1 else 0
  }

  /** The number of a day, counted from 0000-01-01. */
  function DayNumber(year: nat, month: nat, day: nat): int
    requires 1 <= month <= 12
  {
    YearStart(year) + MonthStart(Leap(year), month) + day - 1
  }

  lemma Fourth(y: nat)
    requires y > 0
    ensures y / 4 == (y - 1) / 4 + if y % 4 == 0 then 1 else 0
  {
  }

  lemma Hundredth(y: nat)
    requires y > 0
    ensures y / 100 == (y - 1) / 100 + if y % 100 == 0 then 1 else 0
  {
  }

  lemma FourHundredth(y: nat)
    requires y > 0
    ensures y / 400 == (y - 1) / 400 + if y % 400 == 0 then 1 else 0
  {
  }

  lemma CenturiesAreFourths(y: nat)
    ensures (y % 100 == 0 ==> y % 4 == 0) && (y % 400 == 0 ==> y % 100 == 0)
  {
    assert y % 100 == 0 ==> y == 4 * (25 * (y / 100));
    assert y % 400 == 0 ==> y == 100 * (4 * (y / 400));
  }

  lemma LeapIsLeap(y: nat)
    ensures IsLeap(y) <==> Leap(y)
  {
    CenturiesAreFourths(y);
  }

  lemma NextYear(y: nat)
    ensures YearStart(y + 1) == YearStart(y) + if Leap(y) then 366 else 365
  {
    CenturiesAreFourths(y);
    if y > 0 {
      Fourth(y);
      Hundredth(y);
      FourHundredth(y);
    }
  }

  lemma NextMonth(year: nat, month: nat)
    requires 1 <= month <= 12
    ensures MonthStart(Leap(year), month) + DaysInMonth(year, month)
         == if month < 12 then MonthStart(Leap(year), month + 1) else if Leap(year) then 366 else 365
  {
    LeapIsLeap(year);
    hide Leap, IsLeap;
  }

  lemma NextDayNumber(d: Date)
    requires IsDate(d)
    ensures DayNumber(NextDay(d).year, NextDay(d).month, NextDay(d).day) == DayNumber(d.year, d.month, d.day) + 1
  {
    NextYear(d.year);
    NextMonth(d.year, d.month);
    hide YearStart, Leap, DaysInMonth;
    assert MonthStart(Leap(d.year + 1), 1) == 0;
    hide MonthStart;
  }

  /** The date of the n-th day has number n. */
  lemma {:induction false} DateHasNumber(n: nat)
    ensures DayNumber(DateOf(n).year, DateOf(n).month, DateOf(n).day) == n
  {
    if n > 0 {
      DateHasNumber(n - 1);
      NextDayNumber(DateOf(n - 1));
      hide DayNumber, NextDay;
    }
  }

  // ---------------------------------------------------------------- reading digits

  lemma {:induction false} DigitsRead(n: nat, w: nat)
    requires n < Pow10(w)
    ensures DecimalValue(Digits(n, w)) == n
  {
    if w > 0 {
      DigitsRead(n / 10, w - 1);
      assert Digits(n, w)[..w - 1] == Digits(n / 10, w - 1);
    }
  }

  /** The printed digits of a fraction, scaled to `w` places, give it back; the last of them is not zero. */
  lemma {:induction false} TrimmedReads(f: nat, w: nat)
    requires f < Pow10(w)
    ensures DecimalValue(Trimmed(f, w)) * Pow10(w - |Trimmed(f, w)|) == f
    ensures Trimmed(f, w) != "" ==> Trimmed(f, w)[|Trimmed(f, w)| - 1] != '0'
    ensures Trimmed(f, w) == "" <==> f == 0
  {
    if w > 0 && f % 10 == 0 {
      TrimmedReads(f / 10, w - 1);
      var t := Trimmed(f / 10, w - 1);
      assert Trimmed(f, w) == t;
      OneZeroMore(DecimalValue(t), w - 1 - |t|);
      hide DecimalValue, Pow10, Trimmed;
    } else if w > 0 {
      DigitsRead(f, w);
      assert Trimmed(f, w) == Digits(f, w) && Digits(f, w)[w - 1] == Digit(f % 10);
    }
  }

  lemma OneZeroMore(v: int, k: nat)
    ensures v * Pow10(k + 1) == 10 * (v * Pow10(k))
  {
    assert Pow10(k + 1) == 10 * Pow10(k);
  }

  lemma FieldParts(a: string, b: string, c: string, sep: char)
    requires |b| == 2 && |c| == 2
    ensures var s, n := a + ([sep] + b) + ([sep] + c), |a|;
      && |s| == n + 6 && s[..n] == a && s[n] == sep && s[n + 1..n + 3] == b && s[n + 3] == sep && s[n + 4..n + 6] == c
  {
  }

  lemma FieldsRead(x: nat, width: nat, y: nat, z: nat, sep: char)
    requires x < Pow10(width) && y < 100 && z < 100
    ensures var s := Fields(x, width, y, z, sep);
      && DecimalValue(s[..width]) == x && s[width] == sep && DecimalValue(s[width + 1..width + 3]) == y
      && s[width + 3] == sep && DecimalValue(s[width + 4..width + 6]) == z
  {
    assert Pow10(2) == 100;
    hide Digits, DecimalValue, Pow10;
    DigitsRead(x, width);
    DigitsRead(y, 2);
    DigitsRead(z, 2);
    FieldParts(Digits(x, width), Digits(y, 2), Digits(z, 2), sep);
    assert Fields(x, width, y, z, sep) == Digits(x, width) + ([sep] + Digits(y, 2)) + ([sep] + Digits(z, 2));
    hide Fields;
  }

  // ---------------------------------------------------------------- reading a timestamp

  /** `s` is a date and a time of day that name the second `n`. */
  ghost predicate NamesSecond(s: string, n: nat) {
    && |s| == 19 && s[4] == '-' && s[7] == '-' && s[10] == 'T' && s[13] == ':' && s[16] == ':'
    && var year, month, day := DecimalValue(s[..4]), DecimalValue(s[5..7]), DecimalValue(s[8..10]);
       && year >= 0 && 1 <= month <= 12 && day >= 1
       && var hour, minute, second := DecimalValue(s[11..13]), DecimalValue(s[14..16]), DecimalValue(s[17..19]);
          && 0 <= hour < 24 && 0 <= minute < 60 && 0 <= second < 60
          && n == ((DayNumber(year, month, day) * 24 + hour) * 60 + minute) * 60 + second
  }

  /** `s` is empty for a whole second, and else a point and at most nine digits that name the nanoseconds, the last not zero. */
  ghost predicate NamesFraction(s: string, f: nat) {
    if f == 0 then s == ""
    else
      && 2 <= |s| <= 10 && s[0] == '.' && s[|s| - 1] != '0'
      && DecimalValue(s[1..]) * Pow10(10 - |s|) == f
  }

  lemma DateReads(d: Date)
    requires IsDate(d) && d.year <= 9999
    ensures var s := DateText(d);
      && DecimalValue(s[..4]) == d.year && s[4] == '-' && DecimalValue(s[5..7]) == d.month && s[7] == '-' && DecimalValue(s[8..10]) == d.day
  {
    assert Pow10(2) == 100 && Pow10(4) == 100 * Pow10(2);
    FieldsRead(d.year, 4, d.month, d.day, '-');
  }

  lemma ClockReads(s: nat)
    requires s < DAY_SECONDS
    ensures var t := ClockText(s);
      && t[2] == ':' && t[5] == ':'
      && DecimalValue(t[..2]) == s / 60 / 60 < 24 && DecimalValue(t[3..5]) == s / 60 % 60 && DecimalValue(t[6..8]) == s % 60
  {
    assert Pow10(2) == 100;
    FieldsRead(s / 60 / 60, 2, s / 60 % 60, s % 60, ':');
  }

  lemma SecondReads(n: nat)
    requires DateOf(n / DAY_SECONDS).year <= 9999
    ensures NamesSecond(SecondText(n), n)
  {
    var d, c := DateOf(n / DAY_SECONDS), n % DAY_SECONDS;
    DateReads(d);
    ClockReads(c);
    DateHasNumber(n / DAY_SECONDS);
    hide DecimalValue, DateText, ClockText, DayNumber, DateOf;
    StampParts(DateText(d), ClockText(c));
    SecondParts(n);
    assert SecondText(n) == DateText(d) + ("T" + ClockText(c));
    hide SecondText;
  }

  lemma StampParts(a: string, b: string)
    requires |a| == 10 && |b| == 8
    ensures var s := a + ("T" + b);
      && |s| == 19 && s[4] == a[4] && s[7] == a[7] && s[10] == 'T' && s[13] == b[2] && s[16] == b[5]
      && s[..4] == a[..4] && s[5..7] == a[5..7] && s[8..10] == a[8..10]
      && s[11..13] == b[..2] && s[14..16] == b[3..5] && s[17..19] == b[6..8]
  {
  }

  lemma SecondParts(n: nat)
    ensures var c := n % DAY_SECONDS; n == ((n / DAY_SECONDS * 24 + c / 60 / 60) * 60 + c / 60 % 60) * 60 + c % 60
  {
  }

  lemma FractionReads(f: nat)
    requires f < SECOND
    ensures NamesFraction(FractionText(f), f)
  {
    NineDigits();
    TrimmedIsTrimZeros(f, 9);
    TrimmedReads(f, 9);
    hide DecimalValue, Trimmed, Pow10, TrimZeros;
    var t := Trimmed(f, 9);
    assert ("." + t)[1..] == t;
  }

  /** Every stored timestamp names its instant: date, time of day, and the nanoseconds without trailing zeros. */
  lemma TimestampReads(t: Time)
    ensures var s := Format(t);
      && |s| >= 20 && s[|s| - 1] == 'Z'
      && NamesSecond(s[..19], t / SECOND) && NamesFraction(s[19..|s| - 1], t % SECOND)
  {
    assert Printable(t);
    SecondReads(t / SECOND);
    FractionReads(t % SECOND);
    hide SecondText, FractionText, NamesSecond, NamesFraction;
    var s, a, f := Format(t), SecondText(t / SECOND), FractionText(t % SECOND);
    assert s[..19] == a && s[19..|s| - 1] == f;
  }
}
