/**
 Times as the store keeps them: text of a fixed width, which SQL orders as strings and everything
 else as instants. The two orders agree on the years the format was made for, and exactly there does
 a time read back as the one written. internal/store/store.go:158-190.
 */
module StoredTimes {
  import opened Basics

  // ---- The calendar ----

  /** A UTC time broken down, in the proleptic Gregorian calendar. */
  datatype Stamp = Stamp(year: int, month: int, day: int, hour: int, minute: int, second: int, nanos: int)

  const SECOND: Time := 1_000_000_000
  const DAY: Time := 24 * HOUR

  predicate IsLeap(year: int) {
    year % 4 == 0 && (year % 100 != 0 || year % 400 == 0)
  }

  function DaysIn(year: int, month: int): int {
    if month == 2 then (if IsLeap(year) then 29 else 28)
    else if month == 4 || month == 6 || month == 9 || month == 11 then 30
    else 31
  }

  function YearLength(year: int): int {
    if IsLeap(year) then 366 else 365
  }

  // Days from the first of January of year 1.
  function DaysBeforeYear(year: int): int {
    365 * (year - 1) + (year - 1) / 4 - (year - 1) / 100 + (year - 1) / 400
  }

  function DaysBeforeMonth(year: int, month: int): int
    requires 1 <= month <= 13
    decreases month
  {
    if month == 1 then 0 else DaysBeforeMonth(year, month - 1) + DaysIn(year, month - 1)
  }

  predicate ValidStamp(s: Stamp) {
    && 1 <= s.month <= 12 && 1 <= s.day <= DaysIn(s.year, s.month)
    && 0 <= s.hour < 24 && 0 <= s.minute < 60 && 0 <= s.second < 60 && 0 <= s.nanos < SECOND
  }

  function DayOf(s: Stamp): int
    requires ValidStamp(s)
  {
    DaysBeforeYear(s.year) + DaysBeforeMonth(s.year, s.month) + s.day - 1
  }

  function NanosOfDay(s: Stamp): int {
    ((s.hour * 60 + s.minute) * 60 + s.second) * SECOND + s.nanos
  }

  // The instant a stamp names; Go's zero time is the start of year 1.
  function Instant(s: Stamp): Time
    requires ValidStamp(s)
  {
    DayOf(s) * DAY + NanosOfDay(s)
  }

  // ---- Earlier fields decide ----

  lemma EveryFourth(year: int)
    ensures year / 4 == (year - 1) / 4 + if year % 4 == 0 then 1 else 0
  {
  }

  lemma EveryHundredth(year: int)
    ensures year / 100 == (year - 1) / 100 + if year % 100 == 0 then 1 else 0
    ensures year % 100 == 0 ==> year % 4 == 0
  {
  }

  lemma EveryFourHundredth(year: int)
    ensures year / 400 == (year - 1) / 400 + if year % 400 == 0 then 1 else 0
    ensures year % 400 == 0 ==> year % 100 == 0
  {
  }

  lemma YearsFollowOn(year: int)
    ensures DaysBeforeYear(year + 1) == DaysBeforeYear(year) + YearLength(year)
  {
    EveryFourth(year);
    EveryHundredth(year);
    EveryFourHundredth(year);
    LeapDays(year, year % 4 == 0, year % 100 == 0, year % 400 == 0);
  }

  lemma LeapDays(year: int, fourth: bool, hundredth: bool, fourHundredth: bool)
    requires fourth == (year % 4 == 0) && hundredth == (year % 100 == 0) && fourHundredth == (year % 400 == 0)
    requires fourHundredth ==> hundredth
    requires hundredth ==> fourth
    ensures YearLength(year)
         == 365 + (if fourth then 1 else 0) - (if hundredth then 1 else 0) + (if fourHundredth then 1 else 0)
  {
  }

  lemma {:induction false} YearsGrow(a: int, b: int)
    requires a < b
    ensures DaysBeforeYear(a) + YearLength(a) <= DaysBeforeYear(b)
    decreases b - a
  {
    YearsFollowOn(b - 1);
    if a < b - 1 {
      YearsGrow(a, b - 1);
    }
  }

  lemma {:induction false} MonthsGrow(year: int, a: int, b: int)
    requires 1 <= a < b <= 13
    ensures DaysBeforeMonth(year, a) + DaysIn(year, a) <= DaysBeforeMonth(year, b)
    decreases b - a
  {
    if a < b - 1 {
      MonthsGrow(year, a, b - 1);
    }
  }

  lemma MonthsFillTheYear(year: int)
    ensures DaysBeforeMonth(year, 13) == YearLength(year)
  {
    var half := DaysBeforeMonth(year, 5);
    assert DaysBeforeMonth(year, 3) == 31 + DaysIn(year, 2);
    assert half == 31 + DaysIn(year, 2) + 61;
    assert DaysBeforeMonth(year, 7) == half + 61;
    assert DaysBeforeMonth(year, 9) == half + 61 + 62;
    assert DaysBeforeMonth(year, 11) == half + 61 + 62 + 61;
  }

  lemma DayIsInItsYear(s: Stamp)
    requires ValidStamp(s)
    ensures DaysBeforeYear(s.year) <= DayOf(s) < DaysBeforeYear(s.year) + YearLength(s.year)
  {
    MonthsFillTheYear(s.year);
    if s.month < 13 {
      MonthsGrow(s.year, s.month, 13);
    }
    if s.month > 1 {
      MonthsGrow(s.year, 1, s.month);
    }
  }

  // The date decides before the time of day, the year before the month, the month before the day.
  predicate DateBelow(a: Stamp, b: Stamp) {
    || a.year < b.year
    || (a.year == b.year && (a.month < b.month || (a.month == b.month && a.day < b.day)))
  }

  lemma DatesGrow(a: Stamp, b: Stamp)
    requires ValidStamp(a) && ValidStamp(b) && DateBelow(a, b)
    ensures DayOf(a) < DayOf(b)
  {
    if a.year < b.year {
      DayIsInItsYear(a);
      DayIsInItsYear(b);
      YearsGrow(a.year, b.year);
    } else if a.month < b.month {
      MonthsGrow(a.year, a.month, b.month);
    }
  }

  // The fields, most significant first.
  predicate StampBelow(a: Stamp, b: Stamp) {
    DateBelow(a, b) || (SameDate(a, b) && NanosOfDay(a) < NanosOfDay(b))
  }

  predicate SameDate(a: Stamp, b: Stamp) {
    a.year == b.year && a.month == b.month && a.day == b.day
  }

  lemma NanosFillTheDay(s: Stamp)
    requires ValidStamp(s)
    ensures 0 <= NanosOfDay(s) < DAY
  {
  }

  lemma NanosAreTheFields(a: Stamp, b: Stamp)
    requires ValidStamp(a) && ValidStamp(b)
    ensures NanosOfDay(a) < NanosOfDay(b) <==>
      || a.hour < b.hour
      || (a.hour == b.hour && (a.minute < b.minute
          || (a.minute == b.minute && (a.second < b.second || (a.second == b.second && a.nanos < b.nanos)))))
    ensures NanosOfDay(a) == NanosOfDay(b) ==>
      a.hour == b.hour && a.minute == b.minute && a.second == b.second && a.nanos == b.nanos
  {
  }

  lemma SameDay(a: Stamp, b: Stamp)
    requires ValidStamp(a) && ValidStamp(b) && SameDate(a, b)
    ensures DayOf(a) == DayOf(b)
  {
  }

  lemma DayDecides(d: int, n: int, e: int, m: int)
    requires 0 <= n < DAY && 0 <= m < DAY
    ensures d * DAY + n < e * DAY + m <==> d < e || (d == e && n < m)
    ensures d * DAY + n == e * DAY + m ==> d == e && n == m
  {
  }

  /** Stamps and instants are in the same order, and distinct stamps are distinct instants. */
  lemma InstantsAreOrderedAsStamps(a: Stamp, b: Stamp)
    requires ValidStamp(a) && ValidStamp(b)
    ensures Instant(a) < Instant(b) <==> StampBelow(a, b)
    ensures Instant(a) == Instant(b) ==> a == b
  {
    hide DayOf, NanosOfDay;
    NanosFillTheDay(a);
    NanosFillTheDay(b);
    NanosAreTheFields(a, b);
    DayDecides(DayOf(a), NanosOfDay(a), DayOf(b), NanosOfDay(b));
    if SameDate(a, b) {
      SameDay(a, b);
    } else if DateBelow(a, b) {
      DatesGrow(a, b);
    } else if DateBelow(b, a) {
      DatesGrow(b, a);
    }
  }

  // ---- Every instant has a stamp ----

  // Looking from a year for the one a day is in.
  function YearFrom(year: int, day: int): (found: int)
    requires DaysBeforeYear(year) <= day
    ensures DaysBeforeYear(found) <= day < DaysBeforeYear(found + 1)
    decreases day - DaysBeforeYear(year)
  {
    YearsFollowOn(year);
    if day < DaysBeforeYear(year + 1) then year else YearFrom(year + 1, day)
  }

  function YearDownTo(year: int, day: int): (found: int)
    requires day < DaysBeforeYear(year + 1)
    ensures DaysBeforeYear(found) <= day < DaysBeforeYear(found + 1)
    decreases DaysBeforeYear(year + 1) - day
  {
    YearsFollowOn(year);
    if DaysBeforeYear(year) <= day then year else YearDownTo(year - 1, day)
  }

  function MonthFrom(year: int, month: int, day: int): (found: int)
    requires 1 <= month <= 12 && DaysBeforeMonth(year, month) <= day < YearLength(year)
    ensures 1 <= found <= 12
    ensures DaysBeforeMonth(year, found) <= day < DaysBeforeMonth(year, found) + DaysIn(year, found)
    decreases 12 - month
  {
    MonthsFillTheYear(year);
    if day < DaysBeforeMonth(year, month + 1) then month else MonthFrom(year, month + 1, day)
  }

  // A date and how far into it, field by field.
  function StampAt(year: int, month: int, day: int, rest: int): Stamp {
    var seconds := rest / SECOND;
    Stamp(year, month, day, seconds / 3600, seconds / 60 % 60, seconds % 60, rest % SECOND)
  }

  lemma StampAtNames(year: int, month: int, day: int, rest: int)
    requires 1 <= month <= 12 && 1 <= day <= DaysIn(year, month) && 0 <= rest < DAY
    ensures var s := StampAt(year, month, day, rest);
      ValidStamp(s) && NanosOfDay(s) == rest
      && DayOf(s) == DaysBeforeYear(year) + DaysBeforeMonth(year, month) + day - 1
  {
    SecondsOfTheDay(rest, rest / SECOND);
  }

  lemma DaysAndTheRest(t: Time)
    ensures t == t / DAY * DAY + t % DAY && 0 <= t % DAY < DAY
  {
  }

  /** An instant broken down in UTC; every instant is, and comes back from it. */
  function StampOf(t: Time): (s: Stamp)
    ensures ValidStamp(s) && Instant(s) == t
  {
    hide DaysBeforeYear, DaysBeforeMonth, DaysIn, YearLength, NanosOfDay, StampAt, DayOf, ValidStamp;
    DaysAndTheRest(t);
    var day := t / DAY;
    var year := if day >= 0 then YearFrom(1, day) else YearDownTo(0, day);
    YearsFollowOn(year);
    var into := day - DaysBeforeYear(year);
    var month := MonthFrom(year, 1, into);
    StampAtNames(year, month, into - DaysBeforeMonth(year, month) + 1, t % DAY);
    StampAt(year, month, into - DaysBeforeMonth(year, month) + 1, t % DAY)
  }

  lemma SecondsOfTheDay(rest: int, seconds: int)
    requires 0 <= rest < DAY && seconds == rest / SECOND
    ensures 0 <= seconds < 86_400 && rest == seconds * SECOND + rest % SECOND
    ensures 0 <= seconds / 3600 < 24
    ensures seconds == (seconds / 3600 * 60 + seconds / 60 % 60) * 60 + seconds % 60
  {
  }

  // ---- Text ----

  // SQLite's order on text: the first place they differ decides, and a prefix comes first.
  predicate TextBelow(a: string, b: string) {
    if b == "" then false
    else if a == "" then true
    else a[0] < b[0] || (a[0] == b[0] && TextBelow(a[1..], b[1..]))
  }

  function Digit(n: int): char
    requires 0 <= n < 10
  {
    '0' + (n as char)
  }

  function Power(width: nat): nat {
    if width == 0 then 1 else 10 * Power(width - 1)
  }

  // A number in a field of its width, padded with zeros.
  function Digits(n: nat, width: nat): (text: string)
    ensures |text| == width
  {
    if width == 0 then "" else Digits(n / 10, width - 1) + [Digit(n % 10)]
  }

  // How many digits a year takes: four, or as many more as it needs.
  function YearWidth(n: nat): (width: nat)
    ensures width >= 4 && (width == 4 <==> n < 10_000)
  {
    if n < 10_000 then 4 else YearWidth(n / 10) + 1
  }

  function YearText(year: int): string {
    if year < 0 then "-" + Digits(-year, YearWidth(-year)) else Digits(year, YearWidth(year))
  }

  function StampText(s: Stamp): string
    requires ValidStamp(s)
  {
    YearText(s.year) + AfterYear(s)
  }

  function AfterYear(s: Stamp): string
    requires ValidStamp(s)
  {
    "-" + (Digits(s.month, 2) + ("-" + (Digits(s.day, 2) + ("T" + ClockText(s)))))
  }

  function ClockText(s: Stamp): string
    requires ValidStamp(s)
  {
    Digits(s.hour, 2) + (":" + (Digits(s.minute, 2) + (":" + (Digits(s.second, 2) + ("." + (Digits(s.nanos, 9) + "Z"))))))
  }

  function FormatTime(t: Time): string {
    StampText(StampOf(t))
  }

  // ---- The order of text ----

  lemma {:induction false} FieldDecides(a: string, b: string, x: string, y: string)
    requires |a| == |b|
    ensures TextBelow(a + x, b + y) <==> TextBelow(a, b) || (a == b && TextBelow(x, y))
    decreases |a|
  {
    if a == "" {
      assert a + x == x && b + y == y;
    } else {
      assert (a + x)[1..] == a[1..] + x && (b + y)[1..] == b[1..] + y;
      assert a == b <==> a[0] == b[0] && a[1..] == b[1..] by {
        assert a == [a[0]] + a[1..] && b == [b[0]] + b[1..];
      }
      FieldDecides(a[1..], b[1..], x, y);
    }
  }

  lemma {:induction false} DigitsInOrder(n: nat, m: nat, width: nat)
    requires n < Power(width) && m < Power(width)
    ensures TextBelow(Digits(n, width), Digits(m, width)) <==> n < m
    ensures Digits(n, width) == Digits(m, width) ==> n == m
  {
    if width > 0 {
      DigitsInOrder(n / 10, m / 10, width - 1);
      FieldDecides(Digits(n / 10, width - 1), Digits(m / 10, width - 1), [Digit(n % 10)], [Digit(m % 10)]);
      DigitBelow(n % 10, m % 10);
      if Digits(n, width) == Digits(m, width) {
        assert Digits(n, width)[..width - 1] == Digits(n / 10, width - 1);
        assert Digits(m, width)[..width - 1] == Digits(m / 10, width - 1);
        assert Digits(n, width)[width - 1] == Digits(m, width)[width - 1];
      }
    }
  }

  lemma DigitBelow(n: nat, m: nat)
    requires n < 10 && m < 10
    ensures TextBelow([Digit(n)], [Digit(m)]) <==> n < m
    ensures Digit(n) == Digit(m) ==> n == m
  {
    assert [Digit(n)][1..] == "" && [Digit(m)][1..] == "";
  }

  // A numeric field, what separates it from the next, and the rest.
  lemma FieldThenRest(n: nat, m: nat, width: nat, mark: string, x: string, y: string)
    requires n < Power(width) && m < Power(width)
    ensures TextBelow(Digits(n, width) + (mark + x), Digits(m, width) + (mark + y))
      <==> n < m || (n == m && TextBelow(x, y))
  {
    DigitsInOrder(n, m, width);
    FieldDecides(Digits(n, width), Digits(m, width), mark + x, mark + y);
    FieldDecides(mark, mark, x, y);
    NotBelowItself(mark);
  }

  lemma {:induction false} NotBelowItself(s: string)
    ensures !TextBelow(s, s)
    decreases |s|
  {
    if s != "" {
      NotBelowItself(s[1..]);
    }
  }

  lemma ClocksInOrder(a: Stamp, b: Stamp)
    requires ValidStamp(a) && ValidStamp(b)
    ensures TextBelow(ClockText(a), ClockText(b)) <==> NanosOfDay(a) < NanosOfDay(b)
  {
    hide TextBelow, Digits;
    assert Power(2) == 100 && Power(9) == SECOND by {
      assert Power(3) == 1000 && Power(6) == 1_000_000;
    }
    NanosAreTheFields(a, b);
    var x, y := Digits(a.nanos, 9), Digits(b.nanos, 9);
    NotBelowItself("Z");
    FieldDecides(x, y, "Z", "Z");
    DigitsInOrder(a.nanos, b.nanos, 9);
    FieldThenRest(a.second, b.second, 2, ".", x + "Z", y + "Z");
    var x', y' := Digits(a.second, 2) + ("." + (x + "Z")), Digits(b.second, 2) + ("." + (y + "Z"));
    FieldThenRest(a.minute, b.minute, 2, ":", x', y');
    FieldThenRest(a.hour, b.hour, 2, ":", Digits(a.minute, 2) + (":" + x'), Digits(b.minute, 2) + (":" + y'));
  }

  lemma RestInOrder(a: Stamp, b: Stamp)
    requires ValidStamp(a) && ValidStamp(b) && a.year == b.year
    ensures TextBelow(AfterYear(a), AfterYear(b)) <==> StampBelow(a, b)
  {
    hide TextBelow, Digits, ClockText, NanosOfDay;
    assert Power(2) == 100;
    ClocksInOrder(a, b);
    FieldThenRest(a.day, b.day, 2, "T", ClockText(a), ClockText(b));
    FieldThenRest(a.month, b.month, 2, "-", Digits(a.day, 2) + ("T" + ClockText(a)), Digits(b.day, 2) + ("T" + ClockText(b)));
    var x := Digits(a.month, 2) + ("-" + (Digits(a.day, 2) + ("T" + ClockText(a))));
    var y := Digits(b.month, 2) + ("-" + (Digits(b.day, 2) + ("T" + ClockText(b))));
    NotBelowItself("-");
    FieldDecides("-", "-", x, y);
  }

  // The years four digits hold, and the one before them, whose sign sorts before every digit.
  predicate InFourDigits(year: int) {
    -1 <= year <= 9999
  }

  lemma StampsInOrder(a: Stamp, b: Stamp)
    requires ValidStamp(a) && ValidStamp(b) && InFourDigits(a.year) && InFourDigits(b.year)
    ensures TextBelow(StampText(a), StampText(b)) <==> StampBelow(a, b)
  {
    hide AfterYear, NanosOfDay;
    if a.year < 0 && b.year < 0 {
      RestInOrder(a, b);
      FieldDecides(YearText(-1), YearText(-1), AfterYear(a), AfterYear(b));
      NotBelowItself(YearText(-1));
    } else if a.year < 0 || b.year < 0 {
      SignSortsFirst(a.year, b.year, AfterYear(a), AfterYear(b));
    } else {
      assert Power(4) == 10_000;
      if a.year == b.year {
        RestInOrder(a, b);
      }
      FieldThenRest(a.year, b.year, 4, "", AfterYear(a), AfterYear(b));
      assert "" + AfterYear(a) == AfterYear(a) && "" + AfterYear(b) == AfterYear(b);
    }
  }

  lemma SignSortsFirst(a: int, b: int, x: string, y: string)
    requires (a < 0 && 0 <= b <= 9999) || (b < 0 && 0 <= a <= 9999)
    ensures TextBelow(YearText(a) + x, YearText(b) + y) <==> a < b
  {
    OnlyDigits(if a < 0 then b else a, 4, 0);
  }

  lemma {:induction false} OnlyDigits(n: nat, width: nat, i: nat)
    requires i < width
    ensures '0' <= Digits(n, width)[i] <= '9'
    decreases width
  {
    if i < width - 1 {
      OnlyDigits(n / 10, width - 1, i);
    }
  }

  /**
   Lexical order and chronological order are the same thing: two stored times compare as text the
   way their instants do, and no two instants are stored alike.
   */
  lemma StoredOrderIsTimeOrder(s: Time, t: Time)
    requires InFourDigits(StampOf(s).year) && InFourDigits(StampOf(t).year)
    ensures TextBelow(FormatTime(s), FormatTime(t)) <==> s < t
    ensures FormatTime(s) == FormatTime(t) ==> s == t
  {
    StampsInOrder(StampOf(s), StampOf(t));
    InstantsAreOrderedAsStamps(StampOf(s), StampOf(t));
    StampsInOrder(StampOf(t), StampOf(s));
    InstantsAreOrderedAsStamps(StampOf(t), StampOf(s));
    NotBelowItself(FormatTime(s));
  }

  // The orders agree on every time of these years.
  ghost predicate OrdersAgreeOn(first: int, last: int) {
    forall s, t :: first <= StampOf(s).year <= last && first <= StampOf(t).year <= last ==>
      (TextBelow(FormatTime(s), FormatTime(t)) <==> s < t)
  }

  function NewYear(year: int): Stamp {
    Stamp(year, 1, 1, 0, 0, 0, 0)
  }

  lemma NewYearsDay(year: int) returns (t: Time)
    ensures StampOf(t) == NewYear(year)
  {
    t := Instant(NewYear(year));
    InstantsAreOrderedAsStamps(StampOf(t), NewYear(year));
  }

  /** Which spans of years that reach into the four-digit ones are ordered alike: exactly these. */
  lemma OrdersAgreeExactly(first: int, last: int)
    requires first <= last && first <= 9999 && last >= 0
    ensures OrdersAgreeOn(first, last) <==> InFourDigits(first) && InFourDigits(last)
  {
    hide TextBelow, StampText, Instant, StampOf;
    if InFourDigits(first) && InFourDigits(last) {
      forall s, t | first <= StampOf(s).year <= last && first <= StampOf(t).year <= last
        ensures TextBelow(FormatTime(s), FormatTime(t)) <==> s < t
      {
        StoredOrderIsTimeOrder(s, t);
      }
    } else if last > 9999 {
      var s := NewYearsDay(9999);
      var t := NewYearsDay(10_000);
      InstantsAreOrderedAsStamps(StampOf(s), StampOf(t));
      TenThousandSortsEarly();
    } else {
      var s := NewYearsDay(-2);
      var t := NewYearsDay(-1);
      InstantsAreOrderedAsStamps(StampOf(s), StampOf(t));
      MinusTwoSortsLate();
    }
  }

  lemma TenThousandSortsEarly()
    ensures !TextBelow(StampText(NewYear(9999)), StampText(NewYear(10_000)))
  {
    var a, b := YearText(9999), YearText(10_000);
    assert Digits(9999, 4)[0] == '9' && Digits(10_000, 5)[0] == '1' by {
      assert Digits(9999, 4) == Digits(999, 3) + "9" && Digits(999, 3) == Digits(99, 2) + "9" && Digits(99, 2) == "99";
      assert Digits(10_000, 5) == Digits(1000, 4) + "0" && Digits(1000, 4) == Digits(100, 3) + "0";
      assert Digits(100, 3) == Digits(10, 2) + "0" && Digits(10, 2) == "10";
    }
    assert YearWidth(10_000) == 5;
  }

  lemma MinusTwoSortsLate()
    ensures !TextBelow(StampText(NewYear(-2)), StampText(NewYear(-1)))
  {
    assert Power(4) == 10_000;
    DigitsInOrder(2, 1, 4);
    FieldDecides("-", "-", Digits(2, 4), Digits(1, 4));
    FieldDecides(YearText(-2), YearText(-1), AfterYear(NewYear(-2)), AfterYear(NewYear(-1)));
  }

  // ---- Reading back ----

  function Number(text: string): Option<nat> {
    if text == "" then Some(0)
    else
      var last := text[|text| - 1];
      match Number(text[..|text| - 1])
      case None => None
      case Some(n) => if '0' <= last <= '9' then Some(10 * n + (last as int - '0' as int)) else None
  }

  // A numeric field of a width, the mark that ends it, and what comes after.
  function Field(text: string, width: nat, mark: char): Option<(nat, string)> {
    if |text| <= width || text[width] != mark then None
    else
      match Number(text[..width])
      case None => None
      case Some(n) => Some((n, text[width + 1..]))
  }

  function ParseClock(text: string): Option<(nat, nat, nat, nat)> {
    match Field(text, 2, ':') case None => None case Some((hour, a)) =>
    match Field(a, 2, ':') case None => None case Some((minute, b)) =>
    match Field(b, 2, '.') case None => None case Some((second, c)) =>
    match Field(c, 9, 'Z') case None => None case Some((nanos, rest)) =>
    if rest == "" then Some((hour, minute, second, nanos)) else None
  }

  // Text of the one form the store writes, as the time it names.
  function ParseStamp(text: string): Option<Stamp> {
    match Field(text, 4, '-') case None => None case Some((year, a)) =>
    match Field(a, 2, '-') case None => None case Some((month, b)) =>
    match Field(b, 2, 'T') case None => None case Some((day, c)) =>
    match ParseClock(c) case None => None case Some((hour, minute, second, nanos)) =>
    var s := Stamp(year, month, day, hour, minute, second, nanos);
    if ValidStamp(s) then Some(s) else None
  }

  // The column a time is written to: NULL for no date.
  function Stored(t: Time): Option<string> {
    if IsZero(t) then None else Some(FormatTime(t))
  }

  // What the column reads back as: text that will not parse is no date either.
  function ReadBack(stored: Option<string>): Time {
    match stored
    case None => 0
    case Some(text) => match ParseStamp(text) case None => 0 case Some(s) => Instant(s)
  }

  lemma {:induction false} NumberOfDigits(n: nat, width: nat)
    requires n < Power(width)
    ensures Number(Digits(n, width)) == Some(n)
  {
    if width > 0 {
      NumberOfDigits(n / 10, width - 1);
      assert Digits(n, width)[..width - 1] == Digits(n / 10, width - 1);
    }
  }

  lemma FieldReads(n: nat, width: nat, mark: string, rest: string)
    requires n < Power(width) && |mark| == 1
    ensures Field(Digits(n, width) + (mark + rest), width, mark[0]) == Some((n, rest))
  {
    var text := Digits(n, width) + (mark + rest);
    NumberOfDigits(n, width);
    assert text[..width] == Digits(n, width);
    assert text[width + 1..] == rest;
  }

  lemma ClockReads(s: Stamp)
    requires ValidStamp(s)
    ensures ParseClock(ClockText(s)) == Some((s.hour, s.minute, s.second, s.nanos))
  {
    hide Digits, Field;
    assert Power(2) == 100 && Power(9) == SECOND by {
      assert Power(3) == 1000 && Power(6) == 1_000_000;
    }
    var x := Digits(s.nanos, 9) + "Z";
    FieldReads(s.nanos, 9, "Z", "");
    assert "Z" + "" == "Z";
    FieldReads(s.second, 2, ".", x);
    var y := Digits(s.second, 2) + ("." + x);
    FieldReads(s.minute, 2, ":", y);
    FieldReads(s.hour, 2, ":", Digits(s.minute, 2) + (":" + y));
  }

  lemma StampReads(s: Stamp)
    requires ValidStamp(s) && 0 <= s.year <= 9999
    ensures ParseStamp(StampText(s)) == Some(s)
  {
    hide Digits, Field, ParseClock, ClockText;
    assert Power(2) == 100 && Power(4) == 10_000;
    ClockReads(s);
    FieldReads(s.day, 2, "T", ClockText(s));
    var x := Digits(s.day, 2) + ("T" + ClockText(s));
    FieldReads(s.month, 2, "-", x);
    FieldReads(s.year, 4, "-", Digits(s.month, 2) + ("-" + x));
  }

  lemma {:induction false} NoNumber(text: string)
    requires text != "" && !('0' <= text[0] <= '9')
    ensures Number(text) == None
    decreases |text|
  {
    if |text| > 1 {
      NoNumber(text[..|text| - 1]);
    }
  }

  lemma OtherYearsDoNotRead(s: Stamp)
    requires ValidStamp(s) && !(0 <= s.year <= 9999)
    ensures ParseStamp(StampText(s)) == None
  {
    var text := StampText(s);
    if s.year < 0 {
      assert text[..4][0] == '-';
      NoNumber(text[..4]);
    } else {
      OnlyDigits(s.year, YearWidth(s.year), 4);
      assert text[4] == Digits(s.year, YearWidth(s.year))[4];
    }
  }

  /** A time reads back as itself exactly if it is no date or of a year from 0 to 9999. */
  lemma ReadsBackExactly(t: Time)
    ensures ReadBack(Stored(t)) == t <==> IsZero(t) || 0 <= StampOf(t).year <= 9999
  {
    hide StampText, ParseStamp, Instant, StampOf;
    var s := StampOf(t);
    if 0 <= s.year <= 9999 {
      StampReads(s);
    } else {
      OtherYearsDoNotRead(s);
    }
  }
}
