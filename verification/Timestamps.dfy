/** RFC 3339 timestamps from src/core/run_documents.rs: calendar conversion by
    nested loops, checked against a closed formula for the proleptic Gregorian
    day count. */
module Timestamps {
  import opened Integers
  import opened Lexicographic
  import opened Wrappers
  import Pointers

  /** The first second of the year 10000. */
  const FIRST_UNSUPPORTED_SECOND: int := 253402300800

  datatype SystemTime =
    | BeforeEpoch
    | SinceEpoch(seconds: nat, nanoseconds: nat)

  datatype Civil = Civil(year: nat, month: nat, day: nat, hour: nat, minute: nat, second: nat, nanosecond: nat)

  predicate LeapYear(year: nat) {
    year % 4 == 0 && (year % 100 != 0 || year % 400 == 0)
  }

  function YearLength(year: nat): nat {
    if LeapYear(year) then 366 else 365
  }

  /** The length of a month counted from zero. */
  function MonthLength(year: nat, month: nat): nat
    requires month < 12
  {
    [31, if LeapYear(year) then 29 else 28, 31, 30, 31, 30, 31, 31, 30, 31, 30, 31][month]
  }

  // ----- the reference: a closed formula for the day number -----

  /** Days from 1970-01-01 in the proleptic Gregorian calendar, counting years
      from March so that the leap day comes last. */
  function DayNumber(year: nat, month: nat, day: nat): int
    requires 1 <= month <= 12 && year > 0
  {
    var y := if month <= 2 then year - 1 else year;
    var m := if month <= 2 then month + 9 else month - 3;
    365 * y + LeapYearsThrough(y) + (153 * m + 2) / 5 + day - 1 - 719468
  }

  function LeapYearsThrough(year: nat): int {
    year / 4 - year / 100 + year / 400
  }

  function SecondsOf(c: Civil): int
    requires 1 <= c.month <= 12 && c.year > 0
  {
    DayNumber(c.year, c.month, c.day) * 86400 + c.hour * 3600 + c.minute * 60 + c.second
  }

  predicate IsValid(c: Civil) {
    && 1970 <= c.year <= 9999
    && 1 <= c.month <= 12
    && 1 <= c.day <= MonthLength(c.year, c.month - 1)
    && c.hour < 24 && c.minute < 60 && c.second < 60 && c.nanosecond < 1_000_000_000
  }

  // ----- the text -----

  /** A number in decimal, padded with zeros to the width. */
  function Pad(n: nat, width: nat): (digits: string)
    ensures |digits| == width
  {
    if width == 0 then "" else Pad(n / 10, width - 1) + [Digit(n % 10)]
  }

  function Digit(d: nat): char
    requires d < 10
  {
    '0' + d as char
  }

  function Format(c: Civil): string {
    Pad(c.year, 4) +
    ("-" + (Pad(c.month, 2) + ("-" + (Pad(c.day, 2) + ("T" + (Pad(c.hour, 2) + (":" + (Pad(c.minute, 2) +
    (":" + (Pad(c.second, 2) + ("." + (Pad(c.nanosecond, 9) + "Z"))))))))))))
  }

  // ----- the conversion -----

  /** Days before the month counted from zero, within its year. */
  function DaysBeforeMonth(year: nat, month: nat): nat
    requires month <= 12
  {
    if month == 0 then 0 else DaysBeforeMonth(year, month - 1) + MonthLength(year, month - 1)
  }

  lemma MonthStarts(year: nat)
    ensures
      var leap := if LeapYear(year) then 1 else 0;
      && DaysBeforeMonth(year, 0) == 0
      && DaysBeforeMonth(year, 1) == 31
      && DaysBeforeMonth(year, 2) == 59 + leap
      && DaysBeforeMonth(year, 3) == 90 + leap
      && DaysBeforeMonth(year, 4) == 120 + leap
      && DaysBeforeMonth(year, 5) == 151 + leap
      && DaysBeforeMonth(year, 6) == 181 + leap
      && DaysBeforeMonth(year, 7) == 212 + leap
      && DaysBeforeMonth(year, 8) == 243 + leap
      && DaysBeforeMonth(year, 9) == 273 + leap
      && DaysBeforeMonth(year, 10) == 304 + leap
      && DaysBeforeMonth(year, 11) == 334 + leap
      && DaysBeforeMonth(year, 12) == 365 + leap == YearLength(year)
  {
    hide LeapYear;
    assert DaysBeforeMonth(year, 1) == MonthLength(year, 0);
    assert DaysBeforeMonth(year, 2) == DaysBeforeMonth(year, 1) + MonthLength(year, 1);
    assert DaysBeforeMonth(year, 3) == DaysBeforeMonth(year, 2) + MonthLength(year, 2);
    assert DaysBeforeMonth(year, 4) == DaysBeforeMonth(year, 3) + MonthLength(year, 3);
    assert DaysBeforeMonth(year, 5) == DaysBeforeMonth(year, 4) + MonthLength(year, 4);
    assert DaysBeforeMonth(year, 6) == DaysBeforeMonth(year, 5) + MonthLength(year, 5);
    assert DaysBeforeMonth(year, 7) == DaysBeforeMonth(year, 6) + MonthLength(year, 6);
    assert DaysBeforeMonth(year, 8) == DaysBeforeMonth(year, 7) + MonthLength(year, 7);
    assert DaysBeforeMonth(year, 9) == DaysBeforeMonth(year, 8) + MonthLength(year, 8);
    assert DaysBeforeMonth(year, 10) == DaysBeforeMonth(year, 9) + MonthLength(year, 9);
    assert DaysBeforeMonth(year, 11) == DaysBeforeMonth(year, 10) + MonthLength(year, 10);
    assert DaysBeforeMonth(year, 12) == DaysBeforeMonth(year, 11) + MonthLength(year, 11);
  }

  lemma QuotientStep(year: nat, k: nat)
    requires k > 1 && year > 0
    ensures year / k == (year - 1) / k + (if year % k == 0 then 1 else 0)
  {
    var q, r := year / k, year % k;
    assert year == q * k + r;
    if r == 0 {
      assert q * k == (q - 1) * k + k;
      DivModUnique(year - 1, k, q - 1, k - 1, (q - 1) * k);
    } else {
      DivModUnique(year - 1, k, q, r - 1, q * k);
    }
  }

  lemma LeapYearCounts(year: nat)
    requires year > 0
    ensures LeapYearsThrough(year) == LeapYearsThrough(year - 1) + (if LeapYear(year) then 1 else 0)
  {
    QuotientStep(year, 4);
    QuotientStep(year, 100);
    QuotientStep(year, 400);
  }

  lemma NextYear(year: nat)
    requires year > 0
    ensures DayNumber(year + 1, 1, 1) == DayNumber(year, 1, 1) + YearLength(year)
  {
    hide LeapYearsThrough;
    hide LeapYear;
    LeapYearCounts(year);
  }

  lemma {:induction false} LaterYear(year: nat, later: nat)
    requires 0 < year < later
    ensures DayNumber(year, 1, 1) + YearLength(year) <= DayNumber(later, 1, 1)
    decreases later
  {
    hide DayNumber;
    hide LeapYear;
    NextYear(later - 1);
    if year < later - 1 {
      LaterYear(year, later - 1);
    }
  }

  /** The closed formula agrees with adding up months. */
  lemma DayInYear(year: nat, month: nat, day: nat)
    requires year > 0 && 1 <= month <= 12
    ensures DayNumber(year, month, day) == DayNumber(year, 1, 1) + DaysBeforeMonth(year, month - 1) + day - 1
  {
    hide LeapYearsThrough;
    hide LeapYear;
    hide DaysBeforeMonth;
    LeapYearCounts(year);
    MonthStarts(year);
    var m := if month <= 2 then month + 9 else month - 3;
    assert (153 * m + 2) / 5 == [0, 31, 61, 92, 122, 153, 184, 214, 245, 275, 306, 337][m];
  }

  /** Seconds split into whole days, hours, minutes and seconds. */
  lemma ClockFields(total: nat)
    ensures
      var seconds := total % 86400;
      && seconds / 3600 < 24 && seconds / 60 % 60 < 60
      && total == total / 86400 * 86400 + seconds / 3600 * 3600 + (seconds / 60 % 60) * 60 + seconds % 60
  {
    var seconds := total % 86400;
    assert seconds / 60 / 60 == seconds / 3600;
  }

  lemma TenThousand()
    ensures DayNumber(10000, 1, 1) == 2932897
    ensures 2932897 * 86400 == FIRST_UNSUPPORTED_SECOND
    ensures DayNumber(1970, 1, 1) == 0
  {}

  /** The digits of the text from one index up to another are the decimal n. */
  predicate ShowsNumber(text: string, from: nat, to: nat, n: nat)
    requires from <= to <= |text|
  {
    Pointers.IsDigits(text[from..to]) && Pointers.Decimal(text[from..to]) == n
  }

  /** Thirty characters: the fields in decimal between fixed separators. */
  predicate Reads(text: string, c: Civil) {
    && |text| == 30
    && ShowsNumber(text, 0, 4, c.year) && text[4] == '-'
    && ShowsNumber(text, 5, 7, c.month) && text[7] == '-'
    && ShowsNumber(text, 8, 10, c.day) && text[10] == 'T'
    && ShowsNumber(text, 11, 13, c.hour) && text[13] == ':'
    && ShowsNumber(text, 14, 16, c.minute) && text[16] == ':'
    && ShowsNumber(text, 17, 19, c.second) && text[19] == '.'
    && ShowsNumber(text, 20, 29, c.nanosecond) && text[29] == 'Z'
  }

  lemma {:induction false} PadReads(n: nat, width: nat)
    requires n < PowerOfTen(width)
    ensures Pointers.IsDigits(Pad(n, width)) && Pointers.Decimal(Pad(n, width)) == n
  {
    if width > 0 {
      PadReads(n / 10, width - 1);
      var front := Pad(n / 10, width - 1);
      assert (front + [Digit(n % 10)])[..width - 1] == front;
    }
  }

  /** A field in the text, its separator, and what follows. */
  lemma FieldShown(text: string, at: nat, n: nat, width: nat, separator: char, rest: string)
    requires at <= |text| && text[at..] == Pad(n, width) + ([separator] + rest) && n < PowerOfTen(width)
    ensures at + width < |text| && ShowsNumber(text, at, at + width, n) && text[at + width] == separator
    ensures text[at + width + 1..] == rest
  {
    PadReads(n, width);
    var field := Pad(n, width) + ([separator] + rest);
    assert text[at..at + width] == field[..width] == Pad(n, width);
    assert text[at + width] == field[width];
    assert text[at + width + 1..] == field[width + 1..];
  }

  lemma DateShown(text: string, c: Civil, rest: string)
    requires IsValid(c)
    requires text == Pad(c.year, 4) + ("-" + (Pad(c.month, 2) + ("-" + (Pad(c.day, 2) + ("T" + rest)))))
    ensures |text| >= 11 && text[4] == '-' && text[7] == '-' && text[10] == 'T' && text[11..] == rest
    ensures ShowsNumber(text, 0, 4, c.year) && ShowsNumber(text, 5, 7, c.month) && ShowsNumber(text, 8, 10, c.day)
  {
    hide Pad;
    hide PowerOfTen;
    hide ShowsNumber;
    Widths();
    var day := Pad(c.day, 2) + ("T" + rest);
    var month := Pad(c.month, 2) + ("-" + day);
    assert text[0..] == text;
    FieldShown(text, 0, c.year, 4, '-', month);
    FieldShown(text, 5, c.month, 2, '-', day);
    FieldShown(text, 8, c.day, 2, 'T', rest);
  }

  lemma TimeShown(text: string, c: Civil, rest: string)
    requires IsValid(c) && |text| >= 11
    requires text[11..] == Pad(c.hour, 2) + (":" + (Pad(c.minute, 2) + (":" + (Pad(c.second, 2) + ("." + rest)))))
    ensures |text| >= 20 && text[13] == ':' && text[16] == ':' && text[19] == '.' && text[20..] == rest
    ensures ShowsNumber(text, 11, 13, c.hour) && ShowsNumber(text, 14, 16, c.minute)
    ensures ShowsNumber(text, 17, 19, c.second)
  {
    hide Pad;
    hide PowerOfTen;
    hide ShowsNumber;
    Widths();
    var second := Pad(c.second, 2) + ("." + rest);
    var minute := Pad(c.minute, 2) + (":" + second);
    FieldShown(text, 11, c.hour, 2, ':', minute);
    FieldShown(text, 14, c.minute, 2, ':', second);
    FieldShown(text, 17, c.second, 2, '.', rest);
  }

  lemma FormatReads(c: Civil)
    requires IsValid(c)
    ensures Reads(Format(c), c)
  {
    hide Pad;
    hide ShowsNumber;
    hide IsValid;
    var text := Format(c);
    var fraction := Pad(c.nanosecond, 9) + "Z";
    var time := Pad(c.hour, 2) + (":" + (Pad(c.minute, 2) + (":" + (Pad(c.second, 2) + ("." + fraction)))));
    DateShown(text, c, time);
    TimeShown(text, c, fraction);
    FractionShown(text, c);
  }

  lemma FractionShown(text: string, c: Civil)
    requires IsValid(c) && |text| >= 20 && text[20..] == Pad(c.nanosecond, 9) + "Z"
    ensures |text| == 30 && ShowsNumber(text, 20, 29, c.nanosecond) && text[29] == 'Z'
  {
    hide Pad;
    hide PowerOfTen;
    hide ShowsNumber;
    Widths();
    assert text[20..] == Pad(c.nanosecond, 9) + (['Z'] + "");
    FieldShown(text, 20, c.nanosecond, 9, 'Z', "");
  }

  /** The text shows a valid calendar reading of exactly this instant. */
  ghost predicate Shows(text: string, seconds: nat, nanoseconds: nat) {
    exists c: Civil ::
      IsValid(c) && text == Format(c) && Reads(text, c) && SecondsOf(c) == seconds && c.nanosecond == nanoseconds
  }

  lemma ShowsInstant(c: Civil, seconds: nat, nanoseconds: nat)
    requires IsValid(c) && SecondsOf(c) == seconds && c.nanosecond == nanoseconds
    ensures Shows(Format(c), seconds, nanoseconds)
  {
    hide Reads;
    hide Format;
    hide SecondsOf;
    FormatReads(c);
  }

  method Timestamp(time: SystemTime) returns (text: Option<string>)
    requires time.SinceEpoch? ==> time.seconds <= U64_MAX && time.nanoseconds < 1_000_000_000
    ensures text.None? <==> time.BeforeEpoch? || time.seconds >= FIRST_UNSUPPORTED_SECOND
    ensures text.Some? ==> Shows(text.value, time.seconds, time.nanoseconds)
  {
    if time.BeforeEpoch? {
      return None;
    }
    hide DayNumber;
    hide LeapYear;
    hide Format;
    hide IsValid;
    hide SecondsOf;
    hide Shows;
    TenThousand();
    WholeDays(time.seconds);
    var year, days := YearAndDay(time.seconds / 86400);
    if year > 9999 {
      return None;
    }
    LaterYear(year, 10000);
    var month, day := MonthAndDay(year, days);
    var seconds := time.seconds % 86400;
    var civil := Civil(year, month + 1, day + 1, seconds / 3600, seconds / 60 % 60, seconds % 60, time.nanoseconds);
    Assembled(time.seconds, days, civil);
    text := Some(Format(civil));
    ShowsInstant(civil, time.seconds, time.nanoseconds);
  }

  lemma WholeDays(seconds: nat)
    ensures 2932897 <= seconds / 86400 <==> FIRST_UNSUPPORTED_SECOND <= seconds
  {}

  lemma Assembled(seconds: nat, dayOfYear: nat, c: Civil)
    requires 1970 <= c.year <= 9999 && 1 <= c.month <= 12 && 1 <= c.day <= MonthLength(c.year, c.month - 1)
    requires dayOfYear == DaysBeforeMonth(c.year, c.month - 1) + c.day - 1
    requires dayOfYear + DayNumber(c.year, 1, 1) == seconds / 86400
    requires
      var clock := seconds % 86400;
      c.hour == clock / 3600 && c.minute == clock / 60 % 60 && c.second == clock % 60 && c.nanosecond < 1_000_000_000
    ensures IsValid(c) && SecondsOf(c) == seconds
  {
    hide DayNumber;
    hide DaysBeforeMonth;
    DayInYear(c.year, c.month, c.day);
    ClockFields(seconds);
  }

  /** The year loop. */
  method YearAndDay(total: nat) returns (year: nat, days: nat)
    ensures 1970 <= year <= 10000 && days + DayNumber(year, 1, 1) == total
    ensures year <= 9999 ==> days < YearLength(year)
  {
    hide DayNumber;
    hide LeapYear;
    TenThousand();
    days := total;
    year := 1970;
    while year <= 9999
      invariant 1970 <= year <= 10000
      invariant days + DayNumber(year, 1, 1) == total
      decreases 10000 - year
    {
      var length := if LeapYear(year) then 366 else 365;
      if days < length {
        break;
      }
      NextYear(year);
      days := days - length;
      year := year + 1;
    }
  }

  /** The month loop never leaves its table. */
  method MonthAndDay(year: nat, dayOfYear: nat) returns (month: nat, days: nat)
    requires dayOfYear < YearLength(year)
    ensures month < 12 && days < MonthLength(year, month)
    ensures dayOfYear == DaysBeforeMonth(year, month) + days
  {
    hide LeapYear;
    MonthStarts(year);
    days := dayOfYear;
    var months := [31, if LeapYear(year) then 29 else 28, 31, 30, 31, 30, 31, 31, 30, 31, 30, 31];
    month := 0;
    while days >= months[month]
      invariant month < 12 && days + DaysBeforeMonth(year, month) == dayOfYear
      decreases days
    {
      assert DaysBeforeMonth(year, month + 1) == DaysBeforeMonth(year, month) + months[month];
      days := days - months[month];
      month := month + 1;
    }
  }

  // ----- the text orders and identifies instants -----

  predicate Earlier(a: Civil, b: Civil)
    requires IsValid(a) && IsValid(b)
  {
    SecondsOf(a) < SecondsOf(b) || (SecondsOf(a) == SecondsOf(b) && a.nanosecond < b.nanosecond)
  }

  /** The fields from the most to the least significant. */
  function Fields(c: Civil): seq<nat> {
    [c.year, c.month, c.day, c.hour, c.minute, c.second, c.nanosecond]
  }

  lemma {:induction false} MonthsAccumulate(year: nat, m: nat, n: nat)
    requires m < n <= 12
    ensures DaysBeforeMonth(year, m) + MonthLength(year, m) <= DaysBeforeMonth(year, n)
    decreases n
  {
    if m < n - 1 {
      MonthsAccumulate(year, m, n - 1);
    }
  }

  lemma DayNumberOrders(a: Civil, b: Civil)
    requires IsValid(a) && IsValid(b)
    ensures a.year < b.year || (a.year == b.year && (a.month < b.month || (a.month == b.month && a.day < b.day)))
            ==> DayNumber(a.year, a.month, a.day) < DayNumber(b.year, b.month, b.day)
  {
    hide DayNumber;
    hide DaysBeforeMonth;
    hide LeapYear;
    DayInYear(a.year, a.month, a.day);
    DayInYear(b.year, b.month, b.day);
    if a.year < b.year {
      LaterYear(a.year, b.year);
      MonthStarts(a.year);
      MonthsAccumulate(a.year, a.month - 1, 12);
    } else if a.year == b.year && a.month < b.month {
      MonthsAccumulate(a.year, a.month - 1, b.month - 1);
    }
  }

  lemma FieldOrder(a: Civil, b: Civil)
    ensures
      Less(Fields(a), Fields(b)) <==>
      a.year < b.year || (a.year == b.year && (
      a.month < b.month || (a.month == b.month && (
      a.day < b.day || (a.day == b.day && (
      a.hour < b.hour || (a.hour == b.hour && (
      a.minute < b.minute || (a.minute == b.minute && (
      a.second < b.second || (a.second == b.second && a.nanosecond < b.nanosecond)))))))))))
  {
    var x, y := Fields(a), Fields(b);
    assert x[1..] == [a.month, a.day, a.hour, a.minute, a.second, a.nanosecond];
    assert y[1..] == [b.month, b.day, b.hour, b.minute, b.second, b.nanosecond];
    LessCons(x, y);
    LessCons(x[1..], y[1..]);
    LessCons(x[2..], y[2..]);
    LessCons(x[3..], y[3..]);
    LessCons(x[4..], y[4..]);
    LessCons(x[5..], y[5..]);
    LessCons(x[6..], y[6..]);
    assert forall i :: 0 <= i < 6 ==> x[i..][1..] == x[i + 1..] && y[i..][1..] == y[i + 1..];
    assert x[7..] == [] && y[7..] == [];
  }

  lemma LessCons(x: seq<nat>, y: seq<nat>)
    requires |x| == |y| > 0
    ensures Less(x, y) <==> x[0] < y[0] || (x[0] == y[0] && Less(x[1..], y[1..]))
  {}

  lemma EarlierFieldsAreEarlier(a: Civil, b: Civil)
    requires IsValid(a) && IsValid(b) && Less(Fields(a), Fields(b))
    ensures Earlier(a, b)
  {
    hide DayNumber;
    FieldOrder(a, b);
    DayNumberOrders(a, b);
  }

  /** Field order is time order. */
  lemma FieldOrderIsTimeOrder(a: Civil, b: Civil)
    requires IsValid(a) && IsValid(b)
    ensures Less(Fields(a), Fields(b)) <==> Earlier(a, b)
  {
    hide SecondsOf;
    Total(Fields(a), Fields(b));
    if Less(Fields(a), Fields(b)) {
      EarlierFieldsAreEarlier(a, b);
    } else if Less(Fields(b), Fields(a)) {
      EarlierFieldsAreEarlier(b, a);
    } else {
      SameFields(a, b);
    }
  }

  lemma SameFields(a: Civil, b: Civil)
    requires Fields(a) == Fields(b)
    ensures a == b
  {
    var x, y := Fields(a), Fields(b);
    assert x[0] == y[0] && x[1] == y[1] && x[2] == y[2] && x[3] == y[3] && x[4] == y[4] && x[5] == y[5] && x[6] == y[6];
  }

  /** A calendar reading of an instant is unique. */
  lemma CivilIsUnique(a: Civil, b: Civil)
    requires IsValid(a) && IsValid(b) && SecondsOf(a) == SecondsOf(b) && a.nanosecond == b.nanosecond
    ensures a == b
  {
    hide SecondsOf;
    FieldOrderIsTimeOrder(a, b);
    FieldOrderIsTimeOrder(b, a);
    Total(Fields(a), Fields(b));
    SameFieldsOrOrdered(a, b);
  }

  lemma SameFieldsOrOrdered(a: Civil, b: Civil)
    ensures Fields(a) == Fields(b) ==> a == b
  {
    if Fields(a) == Fields(b) {
      SameFields(a, b);
    }
  }

  // ----- the order of the texts -----

  lemma TextParts(a: string, b: string, s: string, t: string)
    requires |a| == |b|
    ensures TextLess(a + s, b + t) <==> TextLess(a, b) || (a == b && TextLess(s, t))
  {
    assert Codes(a + s) == Codes(a) + Codes(s) && Codes(b + t) == Codes(b) + Codes(t);
    Concatenation(Codes(a), Codes(b), Codes(s), Codes(t));
    if Codes(a) == Codes(b) {
      CodesInjective(a, b);
    }
  }

  lemma SingleLess(c: char, d: char)
    ensures TextLess([c], [d]) <==> c < d
  {
    LessCons(Codes([c]), Codes([d]));
    assert Codes([c])[1..] == [] && Codes([d])[1..] == [];
  }

  lemma {:induction false} PadOrders(n: nat, m: nat, width: nat, bound: nat)
    requires n < bound && m < bound && bound == PowerOfTen(width)
    ensures TextLess(Pad(n, width), Pad(m, width)) <==> n < m
    ensures Pad(n, width) == Pad(m, width) <==> n == m
  {
    if width == 0 {
      TextIrreflexive("");
    } else {
      PadOrders(n / 10, m / 10, width - 1, PowerOfTen(width - 1));
      var p, q, c, d := Pad(n / 10, width - 1), Pad(m / 10, width - 1), Digit(n % 10), Digit(m % 10);
      TextParts(p, q, [c], [d]);
      SingleLess(c, d);
      if p + [c] == q + [d] {
        assert p == (p + [c])[..width - 1] == (q + [d])[..width - 1] == q;
        assert c == (p + [c])[width - 1] == (q + [d])[width - 1] == d;
      }
    }
  }

  function PowerOfTen(width: nat): nat {
    if width == 0 then 1 else 10 * PowerOfTen(width - 1)
  }

  lemma Widths()
    ensures PowerOfTen(2) == 100 && PowerOfTen(4) == 10000 && PowerOfTen(9) == 1_000_000_000
  {
    assert PowerOfTen(6) == 1_000_000;
  }

  /** One field of the text decides before the rest does. */
  lemma FieldThenRest(n: nat, m: nat, width: nat, separator: string, s: string, t: string)
    requires n < PowerOfTen(width) && m < PowerOfTen(width)
    ensures
      TextLess(Pad(n, width) + (separator + s), Pad(m, width) + (separator + t)) <==>
        n < m || (n == m && TextLess(s, t))
  {
    PadOrders(n, m, width, PowerOfTen(width));
    TextParts(Pad(n, width), Pad(m, width), separator + s, separator + t);
    TextParts(separator, separator, s, t);
    TextIrreflexive(separator);
  }

  /** For supported instants, the byte order of the timestamps is the order of
      the instants. */
  lemma TextOrderIsTimeOrder(a: Civil, b: Civil)
    requires IsValid(a) && IsValid(b)
    ensures TextLess(Format(a), Format(b)) <==> Earlier(a, b)
  {
    hide TextLess;
    hide Pad;
    hide Earlier;
    hide PowerOfTen;
    Widths();
    var a7, b7 := Pad(a.nanosecond, 9) + "Z", Pad(b.nanosecond, 9) + "Z";
    var a6, b6 := Pad(a.second, 2) + ("." + a7), Pad(b.second, 2) + ("." + b7);
    var a5, b5 := Pad(a.minute, 2) + (":" + a6), Pad(b.minute, 2) + (":" + b6);
    var a4, b4 := Pad(a.hour, 2) + (":" + a5), Pad(b.hour, 2) + (":" + b5);
    var a3, b3 := Pad(a.day, 2) + ("T" + a4), Pad(b.day, 2) + ("T" + b4);
    var a2, b2 := Pad(a.month, 2) + ("-" + a3), Pad(b.month, 2) + ("-" + b3);
    FieldThenRest(a.year, b.year, 4, "-", a2, b2);
    FieldThenRest(a.month, b.month, 2, "-", a3, b3);
    FieldThenRest(a.day, b.day, 2, "T", a4, b4);
    FieldThenRest(a.hour, b.hour, 2, ":", a5, b5);
    FieldThenRest(a.minute, b.minute, 2, ":", a6, b6);
    FieldThenRest(a.second, b.second, 2, ".", a7, b7);
    PadOrders(a.nanosecond, b.nanosecond, 9, PowerOfTen(9));
    TextParts(Pad(a.nanosecond, 9), Pad(b.nanosecond, 9), "Z", "Z");
    TextIrreflexive("Z");
    FieldOrder(a, b);
    FieldOrderIsTimeOrder(a, b);
  }
}
