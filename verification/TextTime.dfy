/** The timestamps of the transfer table: instants printed as RFC 3339 text with nanoseconds
    and compared as text.

    The printed form drops the trailing zeros of the fraction (and the whole fraction when it
    is zero), so the order of two texts is not always the order of the two instants.
    `TextOrder` says exactly when it is. */
module TextTime {

  // ---------------------------------------------------------------- text order

  /** The byte order that SQLite applies to TEXT columns. */
  predicate TextLe(a: string, b: string) {
    if a == "" then true
    else if b == "" then false
    else if a[0] != b[0] then a[0] < b[0]
    else TextLe(a[1..], b[1..])
  }

  predicate TextLess(a: string, b: string) {
    TextLe(a, b) && a != b
  }

  lemma {:induction false} TextLeTotal(a: string, b: string)
    ensures TextLe(a, b) || TextLe(b, a)
    ensures TextLe(a, b) && TextLe(b, a) ==> a == b
  {
    if a != "" && b != "" && a[0] == b[0] {
      TextLeTotal(a[1..], b[1..]);
      assert a == [a[0]] + a[1..] && b == [b[0]] + b[1..];
    }
  }

  lemma {:induction false} TextLeTransitive(a: string, b: string, c: string)
    requires TextLe(a, b) && TextLe(b, c)
    ensures TextLe(a, c)
  {
    if a != "" && a[0] == b[0] && b[0] == c[0] {
      TextLeTransitive(a[1..], b[1..], c[1..]);
    }
  }

  /** A common prefix does not matter. */
  lemma {:induction false} TextLeCommonPrefix(p: string, a: string, b: string)
    ensures TextLe(p + a, p + b) == TextLe(a, b)
  {
    if p == "" {
      assert p + a == a && p + b == b;
    } else {
      TextLeCommonPrefix(p[1..], a, b);
      assert (p + a)[1..] == p[1..] + a && (p + b)[1..] == p[1..] + b;
    }
  }

  /** Two different prefixes of the same length decide, whatever follows. */
  lemma {:induction false} TextLessPrefixDecides(p: string, q: string, a: string, b: string)
    requires |p| == |q| && TextLess(p, q)
    ensures TextLess(p + a, q + b)
  {
    assert p != "";
    assert (p + a)[0] == p[0] && (q + b)[0] == q[0];
    if p[0] == q[0] {
      assert p == [p[0]] + p[1..] && q == [q[0]] + q[1..];
      TextLessPrefixDecides(p[1..], q[1..], a, b);
      assert (p + a)[1..] == p[1..] + a && (q + b)[1..] == q[1..] + b;
    }
  }

  // ---------------------------------------------------------------- fixed-width decimals

  function Pow10(w: nat): (p: nat)
    ensures p >= 1
  {
    if w == 0 then 1 else 10 * Pow10(w - 1)
  }

  function Digit(d: nat): (c: char)
    requires d < 10
    ensures '0' <= c <= '9'
  {
    '0' + d as char
  }

  /** The last `w` decimal digits of `n`, most significant first. */
  function Digits(n: nat, w: nat): (s: string)
    ensures |s| == w
  {
    if w == 0 then "" else Digits(n / 10, w - 1) + [Digit(n % 10)]
  }

  lemma {:induction false} DigitsOrder(m: nat, n: nat, w: nat)
    requires m < n < Pow10(w)
    ensures TextLess(Digits(m, w), Digits(n, w))
  {
    if m / 10 < n / 10 {
      DigitsOrder(m / 10, n / 10, w - 1);
      TextLessPrefixDecides(Digits(m / 10, w - 1), Digits(n / 10, w - 1), [Digit(m % 10)], [Digit(n % 10)]);
    } else {
      assert m % 10 < n % 10;
      TextLeCommonPrefix(Digits(m / 10, w - 1), [Digit(m % 10)], [Digit(n % 10)]);
      assert Digits(m, w)[w - 1] != Digits(n, w)[w - 1];
    }
  }

  // ---------------------------------------------------------------- fractions without trailing zeros

  function TrimZeros(s: string): string {
    if s != "" && s[|s| - 1] == '0' then TrimZeros(s[..|s| - 1]) else s
  }

  /** The digits of a fraction without its trailing zeros, found from the number. */
  function Trimmed(f: nat, w: nat): (s: string)
    ensures |s| <= w
  {
    if w > 0 && f % 10 == 0 then Trimmed(f / 10, w - 1) else Digits(f, w)
  }

  lemma {:induction false} TrimLastDigit(init: string, d: nat)
    requires d < 10
    ensures TrimZeros(init + [Digit(d)]) == if d == 0 then TrimZeros(init) else init + [Digit(d)]
  {
    assert (init + [Digit(d)])[..|init|] == init;
  }

  lemma {:induction false} TrimmedIsTrimZeros(f: nat, w: nat)
    ensures TrimZeros(Digits(f, w)) == Trimmed(f, w)
  {
    if w > 0 {
      var s, init := Digits(f, w), Digits(f / 10, w - 1);
      assert s == init + [Digit(f % 10)];
      TrimLastDigit(init, f % 10);
      TrimmedIsTrimZeros(f / 10, w - 1);
      hide TrimZeros;
    }
  }

  /** The value of one unit of the last digit that `Trimmed(f, w)` keeps. */
  function DigitWeight(f: nat, w: nat): (u: nat)
    ensures u >= 1
  {
    if w > 0 && f % 10 == 0 then 10 * DigitWeight(f / 10, w - 1) else 1
  }

  lemma {:induction false} DigitWeightFits(f: nat, w: nat)
    requires f < Pow10(w)
    ensures f + DigitWeight(f, w) <= Pow10(w)
  {
    if w > 0 && f % 10 == 0 {
      DigitWeightFits(f / 10, w - 1);
    }
  }

  /** An untrimmed smaller number stays below a trimmed larger one, whatever follows it. */
  lemma {:induction false} UntrimmedBelowTrimmed(x: nat, y: nat, w: nat, tail: string)
    requires x < y < Pow10(w)
    ensures TextLe(Digits(x, w) + tail, Trimmed(y, w) + "Z")
  {
    if y % 10 == 0 {
      UntrimmedBelowTrimmed(x / 10, y / 10, w - 1, [Digit(x % 10)] + tail);
      assert Digits(x, w) + tail == Digits(x / 10, w - 1) + ([Digit(x % 10)] + tail);
    } else {
      DigitsOrder(x, y, w);
      TextLessPrefixDecides(Digits(x, w), Digits(y, w), tail, "Z");
    }
  }

  /** A trimmed number against an untrimmed one that a further digit follows. */
  lemma {:induction false} TrimmedAgainstUntrimmed(a: nat, b: nat, w: nat, tail: string)
    requires a <= b < Pow10(w)
    requires tail != "" && tail[0] < 'Z'
    ensures TextLe(Trimmed(a, w) + "Z", Digits(b, w) + tail) <==> a + DigitWeight(a, w) <= b
  {
    if w > 0 && a % 10 == 0 {
      TrimmedAgainstUntrimmed(a / 10, b / 10, w - 1, [Digit(b % 10)] + tail);
      assert Digits(b, w) + tail == Digits(b / 10, w - 1) + ([Digit(b % 10)] + tail);
    } else if a < b {
      DigitsOrder(a, b, w);
      TextLessPrefixDecides(Digits(a, w), Digits(b, w), "Z", tail);
    } else {
      TextLeCommonPrefix(Digits(a, w), "Z", tail);
    }
  }

  /** The order of two trimmed fractions of one second. */
  lemma {:induction false} TrimmedOrder(a: nat, b: nat, w: nat)
    requires a < b < Pow10(w)
    ensures TextLe(Trimmed(a, w) + "Z", Trimmed(b, w) + "Z") <==> a + DigitWeight(a, w) <= b
  {
    if a % 10 != 0 {
      UntrimmedBelowTrimmed(a, b, w, "Z");
    } else if b % 10 == 0 {
      TrimmedOrder(a / 10, b / 10, w - 1);
    } else {
      TrimmedAgainstUntrimmed(a / 10, b / 10, w - 1, [Digit(b % 10)] + "Z");
      assert Trimmed(b, w) + "Z" == Digits(b / 10, w - 1) + ([Digit(b % 10)] + "Z");
    }
  }

  lemma {:induction false} TrimmedInjective(a: nat, b: nat, w: nat)
    requires a < b < Pow10(w)
    ensures Trimmed(a, w) != Trimmed(b, w)
  {
    if a % 10 == 0 && b % 10 == 0 {
      TrimmedInjective(a / 10, b / 10, w - 1);
    } else if a % 10 != 0 && b % 10 != 0 {
      DigitsOrder(a, b, w);
    }
  }

  lemma {:induction false} ZeroTrims(w: nat)
    ensures Trimmed(0, w) == "" && DigitWeight(0, w) == Pow10(w)
  {
    if w > 0 {
      ZeroTrims(w - 1);
    }
  }

  // ---------------------------------------------------------------- the calendar

  datatype Date = Date(year: nat, month: nat, day: nat)

  predicate IsDate(d: Date) {
    1 <= d.month <= 12 && 1 <= d.day <= DaysInMonth(d.year, d.month)
  }

  predicate IsLeap(year: nat) {
    year % 4 == 0 && (year % 100 != 0 || year % 400 == 0)
  }

  function DaysInMonth(year: nat, month: nat): (n: nat)
    ensures 28 <= n <= 31
  {
    if month == 2 then (if IsLeap(year) then 29 else 28)
    else if month in {4, 6, 9, 11} then 30
    else 31
  }

  function NextDay(d: Date): (n: Date)
    requires IsDate(d)
    ensures IsDate(n)
  {
    if d.day < DaysInMonth(d.year, d.month) then d.(day := d.day + 1)
    else if d.month < 12 then Date(d.year, d.month + 1, 1)
    else Date(d.year + 1, 1, 1)
  }

  /** The UTC date of the n-th day, counted from 0000-01-01 in the Gregorian calendar. */
  function DateOf(n: nat): (d: Date)
    ensures IsDate(d)
  {
    if n == 0 then Date(0, 1, 1) else NextDay(DateOf(n - 1))
  }

  /** Three zero-padded numbers with a separator: a date or a time of day. */
  function Fields(x: nat, width: nat, y: nat, z: nat, sep: char): (s: string)
    ensures |s| == width + 6
  {
    Digits(x, width) + ([sep] + Digits(y, 2)) + ([sep] + Digits(z, 2))
  }

  lemma FieldsOrder(x: nat, y: nat, z: nat, x': nat, y': nat, z': nat, width: nat, sep: char)
    requires x' < Pow10(width) && y < 100 && z < 100 && y' < 100 && z' < 100
    requires x < x' || (x == x' && (y < y' || (y == y' && z < z')))
    ensures TextLess(Fields(x, width, y, z, sep), Fields(x', width, y', z', sep))
  {
    assert Pow10(2) == 100;
    var dy, dy' := [sep] + Digits(y, 2), [sep] + Digits(y', 2);
    var dz, dz' := [sep] + Digits(z, 2), [sep] + Digits(z', 2);
    if x < x' {
      DigitsOrder(x, x', width);
      TextLessPrefixDecides(Digits(x, width), Digits(x', width), dy, dy');
      TextLessPrefixDecides(Digits(x, width) + dy, Digits(x', width) + dy', dz, dz');
    } else if y < y' {
      DigitsOrder(y, y', 2);
      SameStart(Digits(x, width), [sep], Digits(y, 2), Digits(y', 2));
      TextLessPrefixDecides(Digits(x, width) + dy, Digits(x', width) + dy', dz, dz');
    } else {
      DigitsOrder(z, z', 2);
      SameStart(Digits(x, width) + dy, [sep], Digits(z, 2), Digits(z', 2));
    }
  }

  lemma SameStart(p: string, q: string, a: string, b: string)
    requires TextLess(a, b)
    ensures TextLess(p + (q + a), p + (q + b))
  {
    TextLeCommonPrefix(q, a, b);
    TextLeCommonPrefix(p, q + a, q + b);
    assert (q + a)[|q|..] == a && (q + b)[|q|..] == b;
    assert (p + (q + a))[|p|..] == q + a && (p + (q + b))[|p|..] == q + b;
  }

  function DateText(d: Date): (s: string)
    ensures |s| == 10
  {
    Fields(d.year, 4, d.month, d.day, '-')
  }

  lemma NextDayIsLater(d: Date)
    requires IsDate(d) && NextDay(d).year <= 9999
    ensures TextLess(DateText(d), DateText(NextDay(d)))
  {
    assert Pow10(2) == 100 && Pow10(4) == 100 * Pow10(2);
    var n := NextDay(d);
    FieldsOrder(d.year, d.month, d.day, n.year, n.month, n.day, 4, '-');
  }

  lemma {:induction false} DateOrder(m: nat, n: nat)
    requires m < n && DateOf(n).year <= 9999
    ensures TextLess(DateText(DateOf(m)), DateText(DateOf(n)))
    decreases n - m
  {
    var before := DateOf(n - 1);
    NextDayIsLater(before);
    assert DateOf(n) == NextDay(before) && before.year <= DateOf(n).year;
    hide DateOf, DateText, NextDay, TextLe;
    if m < n - 1 {
      DateOrder(m, n - 1);
      TextLeTransitive(DateText(DateOf(m)), DateText(before), DateText(DateOf(n)));
      TextLeTotal(DateText(before), DateText(DateOf(n)));
    }
  }

  // ---------------------------------------------------------------- whole timestamps

  const SECOND: nat := 1_000_000_000
  const DAY_SECONDS: nat := 86_400

  /** Instants are nanoseconds since 0000-01-01T00:00:00Z; the text form has four year digits. */
  predicate Printable(t: nat) {
    DateOf(t / SECOND / DAY_SECONDS).year <= 9999
  }

  function ClockText(s: nat): (t: string)
    ensures |t| == 8
  {
    Fields(s / 60 / 60, 2, s / 60 % 60, s % 60, ':')
  }

  function SecondText(s: nat): (t: string)
    ensures |t| == 19
  {
    DateText(DateOf(s / DAY_SECONDS)) + ("T" + ClockText(s % DAY_SECONDS))
  }

  function FractionText(f: nat): string {
    if f == 0 then "" else "." + TrimZeros(Digits(f, 9))
  }

  function Format(t: nat): string {
    SecondText(t / SECOND) + (FractionText(t % SECOND) + "Z")
  }

  /** How far the last printed digit of an instant reaches: one second when no fraction is printed. */
  function Reach(t: nat): (u: nat)
    ensures u >= 1
  {
    DigitWeight(t % SECOND, 9)
  }

  lemma ClockOrder(s: nat, t: nat)
    requires s < t < DAY_SECONDS
    ensures TextLess(ClockText(s), ClockText(t))
  {
    assert Pow10(2) == 100;
    var qs, qt := s / 60, t / 60;
    assert s == 60 * qs + s % 60 && t == 60 * qt + t % 60;
    assert qs < qt || (qs == qt && s % 60 < t % 60);
    assert qs == 60 * (qs / 60) + qs % 60 && qt == 60 * (qt / 60) + qt % 60;
    FieldsOrder(qs / 60, qs % 60, s % 60, qt / 60, qt % 60, t % 60, 2, ':');
  }

  lemma SecondOrder(s: nat, t: nat)
    requires s < t && DateOf(t / DAY_SECONDS).year <= 9999
    ensures TextLess(SecondText(s), SecondText(t))
  {
    var m, n := s / DAY_SECONDS, t / DAY_SECONDS;
    var i, j := s % DAY_SECONDS, t % DAY_SECONDS;
    assert s == DAY_SECONDS * m + i && t == DAY_SECONDS * n + j;
    DayAndClockOrder(m, i, n, j);
  }

  lemma DayAndClockOrder(m: nat, i: nat, n: nat, j: nat)
    requires DateOf(n).year <= 9999 && j < DAY_SECONDS
    requires m < n || (m == n && i < j)
    ensures TextLess(DateText(DateOf(m)) + ("T" + ClockText(i)), DateText(DateOf(n)) + ("T" + ClockText(j)))
  {
    if m < n {
      DateOrder(m, n);
      TextLessPrefixDecides(DateText(DateOf(m)), DateText(DateOf(n)), "T" + ClockText(i), "T" + ClockText(j));
    } else {
      ClockOrder(i, j);
      SameStart(DateText(DateOf(m)), "T", ClockText(i), ClockText(j));
    }
  }

  lemma NineDigits()
    ensures Pow10(9) == SECOND
  {
    assert Pow10(3) == 1000;
    assert Pow10(6) == 1000 * Pow10(3);
    assert Pow10(9) == 1000 * Pow10(6);
  }

  lemma FractionOrder(a: nat, b: nat)
    requires a < b < SECOND
    ensures TextLe(FractionText(a) + "Z", FractionText(b) + "Z") <==> a + DigitWeight(a, 9) <= b
    ensures FractionText(a) + "Z" != FractionText(b) + "Z"
  {
    NineDigits();
    TrimmedIsTrimZeros(a, 9);
    TrimmedIsTrimZeros(b, 9);
    if a == 0 {
      ZeroTrims(9);
      assert (FractionText(a) + "Z")[0] == 'Z' && (FractionText(b) + "Z")[0] == '.';
    } else {
      FractionOrderNonZero(a, b);
    }
  }

  lemma FractionOrderNonZero(a: nat, b: nat)
    requires 0 < a < b < Pow10(9)
    ensures TextLe("." + Trimmed(a, 9) + "Z", "." + Trimmed(b, 9) + "Z") <==> a + DigitWeight(a, 9) <= b
    ensures "." + Trimmed(a, 9) + "Z" != "." + Trimmed(b, 9) + "Z"
  {
    var ta, tb := Trimmed(a, 9), Trimmed(b, 9);
    TrimmedOrder(a, b, 9);
    TrimmedInjective(a, b, 9);
    TextLeCommonPrefix(".", ta + "Z", tb + "Z");
    assert "." + ta + "Z" == "." + (ta + "Z") && "." + tb + "Z" == "." + (tb + "Z");
    assert ("." + ta + "Z")[1..|ta| + 1] == ta && ("." + tb + "Z")[1..|tb| + 1] == tb;
  }

  lemma ReachStaysInSecond(t: nat)
    ensures t + Reach(t) <= (t / SECOND + 1) * SECOND
  {
    NineDigits();
    DigitWeightFits(t % SECOND, 9);
  }

  /** The text of an earlier instant sorts first exactly when the later instant lies beyond the
      reach of the earlier one's last printed digit. */
  lemma TextOrder(a: nat, b: nat)
    requires a < b && Printable(b)
    ensures TextLe(Format(a), Format(b)) <==> a + Reach(a) <= b
    ensures Format(a) != Format(b)
  {
    var sa, sb, x, y := a / SECOND, b / SECOND, a % SECOND, b % SECOND;
    assert a == SECOND * sa + x && b == SECOND * sb + y;
    if sa < sb {
      ReachStaysInSecond(a);
    }
    SecondAndFractionOrder(sa, x, sb, y);
    hide SecondText, FractionText, TextLe, DigitWeight;
  }

  lemma SecondAndFractionOrder(s: nat, x: nat, t: nat, y: nat)
    requires DateOf(t / DAY_SECONDS).year <= 9999 && y < SECOND
    requires s < t || (s == t && x < y)
    ensures var a, b := SecondText(s) + (FractionText(x) + "Z"), SecondText(t) + (FractionText(y) + "Z");
      a != b && (TextLess(a, b) <==> s < t || x + DigitWeight(x, 9) <= y)
  {
    var fa, fb := FractionText(x) + "Z", FractionText(y) + "Z";
    if s < t {
      SecondOrder(s, t);
      TextLessPrefixDecides(SecondText(s), SecondText(t), fa, fb);
    } else {
      FractionOrder(x, y);
      TextLeCommonPrefix(SecondText(s), fa, fb);
      assert (SecondText(s) + fa)[19..] == fa && (SecondText(s) + fb)[19..] == fb;
    }
    hide SecondText, FractionText, TextLe;
  }

  // ---------------------------------------------------------------- stored timestamps

  /** An instant that the table can hold. */
  type Time = t: nat | Printable(t) witness 0

  /** The comparison that the table's queries make. */
  predicate StoredLe(a: Time, b: Time) {
    TextLe(Format(a), Format(b))
  }

  /** The stored order in terms of the instants, for every pair. */
  lemma StoredOrder(a: Time, b: Time)
    ensures StoredLe(a, b) <==> if a <= b then a == b || a + Reach(a) <= b else a < b + Reach(b)
    ensures StoredLe(a, b) && StoredLe(b, a) ==> a == b
  {
    TextLeTotal(Format(a), Format(b));
    if a < b {
      TextOrder(a, b);
    } else if b < a {
      TextOrder(b, a);
    }
  }

  /** The stored order is off by less than one second, and never across a change of second. */
  lemma StoredSkew(a: Time, b: Time)
    ensures StoredLe(a, b) ==> a / SECOND <= b / SECOND
    ensures a / SECOND < b / SECOND ==> StoredLe(a, b) && !StoredLe(b, a)
    ensures StoredLe(a, b) ==> a < b + SECOND
  {
    StoredOrder(a, b);
    StoredOrder(b, a);
    ReachStaysInSecond(a);
    ReachStaysInSecond(b);
  }

  lemma StoredLeOrders(a: Time, b: Time, c: Time)
    ensures StoredLe(a, a)
    ensures StoredLe(a, b) || StoredLe(b, a)
    ensures StoredLe(a, b) && StoredLe(b, c) ==> StoredLe(a, c)
  {
    TextLeTotal(Format(a), Format(a));
    TextLeTotal(Format(a), Format(b));
    if StoredLe(a, b) && StoredLe(b, c) {
      TextLeTransitive(Format(a), Format(b), Format(c));
    }
  }

  /** Text order is not time order: the text of every whole second sorts after that of every instant inside it. */
  lemma StoredOrderIsNotTimeOrder(second: Time, inside: Time)
    requires second % SECOND == 0 && second < inside < second + SECOND
    ensures StoredLe(inside, second) && !StoredLe(second, inside)
  {
    WholeSecondReach(second);
    hide StoredLe, Reach;
    StoredOrder(second, inside);
    StoredOrder(inside, second);
  }

  lemma {:induction false} WholeSecondReach(t: nat)
    requires t % SECOND == 0
    ensures Reach(t) == SECOND
  {
    NineDigits();
    ZeroWeight(9);
  }

  lemma {:induction false} ZeroWeight(w: nat)
    ensures DigitWeight(0, w) == Pow10(w)
  {
    if w > 0 {
      ZeroWeight(w - 1);
    }
  }
}
