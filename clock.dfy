/** Naive local date-times the way Python's `datetime` handles them, at a
    resolution of whole seconds, and the three text forms the program uses:
    `"%Y-%m-%d %H:%M:%S"` for stored stamps, `"%Y%m%d_%H%M%S"` in backup folder
    names and `"%H:%M"` for the daily schedule time.

    A time is a count of seconds since 0001-01-01 00:00:00 (the first instant
    `datetime` can represent); 9999-12-31 23:59:59 is the last one.  The
    schedule's stamps are written by `strftime` without fractions; the
    `created_at` stamps of backup records carry microseconds, which this
    resolution drops (see "Sub-second time" under "Left out" in README.md). */
module Clock {
  import opened Wrappers
  import opened Text

  const SecondsPerDay: int := 86400

  /** Days from 0001-01-01 to 10000-01-01: `date.max.toordinal()`. */
  const MaxDays: int := 3652059

  /** A time `datetime` can represent; arithmetic leaving it raises `OverflowError`. */
  predicate InRange(t: int) {
    0 <= t < MaxDays * SecondsPerDay
  }

  /** The day a time falls on (`t.date()`), counted from 0001-01-01. */
  function Day(t: int): int {
    t / SecondsPerDay
  }

  /** Seconds since midnight (`t.time()`). */
  function TimeOfDay(t: int): int {
    t % SecondsPerDay
  }

  /** Midnight of day `d` plus a time of day: `datetime.combine(d, tod)`. */
  lemma DayTimeOfDay(t: int)
    ensures Day(t) * SecondsPerDay + TimeOfDay(t) == t
    ensures 0 <= TimeOfDay(t) < SecondsPerDay
  {
  }

  // ---------------------------------------------------------------- the calendar

  /** Gregorian leap years. */
  predicate IsLeap(y: int) {
    y % 4 == 0 && (y % 100 != 0 || y % 400 == 0)
  }

  function DaysInYear(y: int): int {
    if IsLeap(y) then 366 else 365
  }

  /** Days from 0001-01-01 to January 1st of year `y`. */
  function DaysBeforeYear(y: int): int
    requires y >= 1
  {
    var p := y - 1;
    365 * p + p / 4 - p / 100 + p / 400
  }

  lemma DaysBeforeYearStep(y: int)
    requires y >= 1
    ensures DaysBeforeYear(y + 1) == DaysBeforeYear(y) + DaysInYear(y)
  {
    QuotientStep4(y);
    QuotientStep100(y);
    QuotientStep400(y);
  }

  /** Moving from `y - 1` to `y` adds one leap day exactly at multiples. */
  lemma QuotientStep4(y: int)
    ensures y / 4 == (y - 1) / 4 + (if y % 4 == 0 then 1 else 0)
  {
  }

  lemma QuotientStep100(y: int)
    ensures y / 100 == (y - 1) / 100 + (if y % 100 == 0 then 1 else 0)
    ensures y % 100 == 0 ==> y % 4 == 0
  {
  }

  lemma QuotientStep400(y: int)
    ensures y / 400 == (y - 1) / 400 + (if y % 400 == 0 then 1 else 0)
    ensures y % 400 == 0 ==> y % 100 == 0
  {
  }

  lemma {:induction false} DaysBeforeYearMonotone(a: int, b: int)
    requires 1 <= a <= b
    ensures DaysBeforeYear(a) <= DaysBeforeYear(b)
    decreases b - a
  {
    if a < b {
      DaysBeforeYearStep(a);
      DaysBeforeYearMonotone(a + 1, b);
    }
  }

  lemma MaxDaysIsYear10000()
    ensures DaysBeforeYear(10000) == MaxDays
  {
  }

  /** Days before the first of each month in a common year, and the year's length. */
  const MonthStarts: seq<int> := [0, 31, 59, 90, 120, 151, 181, 212, 243, 273, 304, 334, 365]

  lemma MonthStartsAscend(i: int, j: int)
    requires 0 <= i < j < |MonthStarts|
    ensures MonthStarts[i] + 28 <= MonthStarts[j]
  {
  }

  /** Days in year `y` before the first of month `m`; `m == 13` gives the whole year. */
  function CumDays(y: int, m: int): (r: int)
    requires 1 <= m <= 13
    ensures 0 <= r <= DaysInYear(y)
  {
    MonthStarts[m - 1] + if m > 2 && IsLeap(y) then 1 else 0
  }

  function DaysInMonth(y: int, m: int): (r: int)
    requires 1 <= m <= 12
    ensures 28 <= r <= 31
  {
    MonthStartsAscend(m - 1, m);
    CumDays(y, m + 1) - CumDays(y, m)
  }

  /** The broken-down fields of a `datetime` (without microseconds). */
  datatype DateTime = DateTime(year: int, month: int, day: int, hour: int, minute: int, second: int)

  /** The field ranges the `datetime` constructor accepts. */
  predicate Valid(dt: DateTime) {
    && 1 <= dt.year <= 9999
    && 1 <= dt.month <= 12
    && 1 <= dt.day <= DaysInMonth(dt.year, dt.month)
    && 0 <= dt.hour < 24 && 0 <= dt.minute < 60 && 0 <= dt.second < 60
  }

  /** The time a valid date-time denotes. */
  function ToSeconds(dt: DateTime): (t: int)
    requires Valid(dt)
    ensures InRange(t)
  {
    DaysBeforeYearStep(dt.year);
    DaysBeforeYearMonotone(dt.year + 1, 10000);
    var days := DaysBeforeYear(dt.year) + CumDays(dt.year, dt.month) + dt.day - 1;
    days * SecondsPerDay + dt.hour * 3600 + dt.minute * 60 + dt.second
  }

  /** The year day `n` falls in, searching upwards from year `y`. */
  function FindYear(n: int, y: int): (r: int)
    requires 1 <= y <= 9999 && DaysBeforeYear(y) <= n < MaxDays
    ensures y <= r <= 9999 && DaysBeforeYear(r) <= n < DaysBeforeYear(r + 1)
    decreases n - DaysBeforeYear(y)
  {
    DaysBeforeYearStep(y);
    if n < DaysBeforeYear(y + 1) then y
    else
      assert y + 1 != 10000 by { MaxDaysIsYear10000(); }
      FindYear(n, y + 1)
  }

  /** The month day `r` of year `y` falls in, searching upwards from month `m`. */
  function FindMonth(y: int, r: int, m: int): (res: int)
    requires 1 <= m <= 12 && CumDays(y, m) <= r < DaysInYear(y)
    ensures m <= res <= 12 && CumDays(y, res) <= r < CumDays(y, res + 1)
    decreases 12 - m
  {
    if r < CumDays(y, m + 1) then m else FindMonth(y, r, m + 1)
  }

  /** The fields of a representable time. */
  function FromSeconds(t: int): (dt: DateTime)
    requires InRange(t)
    ensures Valid(dt)
  {
    var n := t / SecondsPerDay;
    var y := FindYear(n, 1);
    DaysBeforeYearStep(y);
    var r := n - DaysBeforeYear(y);
    var m := FindMonth(y, r, 1);
    var s := t % SecondsPerDay;
    DateTime(y, m, r - CumDays(y, m) + 1, s / 3600, s % 3600 / 60, s % 60)
  }

  /** Fields to time and back. */
  lemma ToFromSeconds(t: int)
    requires InRange(t)
    ensures ToSeconds(FromSeconds(t)) == t
  {
    var dt := FromSeconds(t);
    var n, tod := t / SecondsPerDay, t % SecondsPerDay;
    assert DayNumber(dt) == n;
    ClockRebuild(tod);
    assert t == n * SecondsPerDay + tod;
  }

  /** Hours, minutes and seconds put back together give the time of day. */
  lemma ClockRebuild(tod: int)
    requires 0 <= tod < SecondsPerDay
    ensures tod == tod / 3600 * 3600 + tod % 3600 / 60 * 60 + tod % 60
  {
  }

  /** Any year containing day `n` is the one `FindYear` finds. */
  lemma {:induction false} FindYearUnique(n: int, y: int, z: int)
    requires 1 <= y <= z <= 9999 && DaysBeforeYear(y) <= n < MaxDays
    requires DaysBeforeYear(z) <= n < DaysBeforeYear(z + 1)
    ensures FindYear(n, y) == z
    decreases z - y
  {
    if y < z {
      DaysBeforeYearMonotone(y + 1, z);
      FindYearUnique(n, y + 1, z);
    }
  }

  /** Any month containing day `r` is the one `FindMonth` finds. */
  lemma {:induction false} FindMonthUnique(y: int, r: int, m: int, k: int)
    requires 1 <= m <= k <= 12 && CumDays(y, m) <= r < DaysInYear(y)
    requires CumDays(y, k) <= r < CumDays(y, k + 1)
    ensures FindMonth(y, r, m) == k
    decreases k - m
  {
    if m < k {
      if m + 1 < k {
        MonthStartsAscend(m, k - 1);
      }
      FindMonthUnique(y, r, m + 1, k);
    }
  }

  /** The day number a valid date-time falls on, counted from 0001-01-01. */
  function DayNumber(dt: DateTime): int
    requires Valid(dt)
  {
    DaysBeforeYear(dt.year) + CumDays(dt.year, dt.month) + dt.day - 1
  }

  /** A valid date-time's time splits into its day number and its clock time. */
  lemma ToSecondsSplits(dt: DateTime)
    requires Valid(dt)
    ensures ToSeconds(dt) / SecondsPerDay == DayNumber(dt)
    ensures ToSeconds(dt) % SecondsPerDay == dt.hour * 3600 + dt.minute * 60 + dt.second
  {
    SplitSeconds(DayNumber(dt), dt.hour * 3600 + dt.minute * 60 + dt.second);
  }

  /** The year search finds a valid date-time's own year. */
  lemma SearchFindsYear(dt: DateTime)
    requires Valid(dt)
    ensures DayNumber(dt) < MaxDays
    ensures FindYear(DayNumber(dt), 1) == dt.year
  {
    DaysBeforeYearStep(dt.year);
    DaysBeforeYearMonotone(dt.year + 1, 10000);
    MaxDaysIsYear10000();
    FindYearUnique(DayNumber(dt), 1, dt.year);
  }

  /** The month search finds a valid date-time's own month. */
  lemma SearchFindsMonth(dt: DateTime)
    requires Valid(dt)
    ensures FindMonth(dt.year, DayNumber(dt) - DaysBeforeYear(dt.year), 1) == dt.month
  {
    FindMonthUnique(dt.year, DayNumber(dt) - DaysBeforeYear(dt.year), 1, dt.month);
  }

  /** Time to fields and back: a valid date-time has exactly one time. */
  lemma FromToSeconds(dt: DateTime)
    requires Valid(dt)
    ensures FromSeconds(ToSeconds(dt)) == dt
  {
    ToSecondsSplits(dt);
    SearchFindsYear(dt);
    SearchFindsMonth(dt);
    SplitClock(dt.hour, dt.minute, dt.second);
  }

  lemma SplitClock(h: int, m: int, s: int)
    requires 0 <= h < 24 && 0 <= m < 60 && 0 <= s < 60
    ensures var tod := h * 3600 + m * 60 + s;
      tod / 3600 == h && tod % 3600 / 60 == m && tod % 60 == s
  {
    var tod := h * 3600 + m * 60 + s;
    assert tod % 3600 == m * 60 + s;
    assert (m * 60 + s) / 60 == m;
  }

  lemma SplitSeconds(days: int, tod: int)
    requires 0 <= tod < SecondsPerDay
    ensures (days * SecondsPerDay + tod) / SecondsPerDay == days
    ensures (days * SecondsPerDay + tod) % SecondsPerDay == tod
  {
  }

  lemma FromSecondsInjective(a: int, b: int)
    requires InRange(a) && InRange(b) && FromSeconds(a) == FromSeconds(b)
    ensures a == b
  {
    ToFromSeconds(a);
    ToFromSeconds(b);
  }

  // ---------------------------------------------------------------- fixed-width fields

  function Pad2(n: int): (s: string)
    requires 0 <= n < 100
    ensures |s| == 2 && IsDigit(s[0]) && IsDigit(s[1])
  {
    [DigitChar(n / 10), DigitChar(n % 10)]
  }

  function Pad4(n: int): (s: string)
    requires 0 <= n < 10000
    ensures |s| == 4 && forall k :: 0 <= k < 4 ==> IsDigit(s[k])
  {
    [DigitChar(n / 1000), DigitChar(n / 100 % 10), DigitChar(n / 10 % 10), DigitChar(n % 10)]
  }

  /** The value of the digits `s[i..i + w]`. */
  function FieldValue(s: string, i: nat, w: nat): (v: nat)
    requires i + w <= |s| && forall k :: i <= k < i + w ==> IsDigit(s[k])
    decreases w
  {
    if w == 0 then 0 else FieldValue(s, i, w - 1) * 10 + DigitValue(s[i + w - 1])
  }

  predicate DigitsAt(s: string, i: nat, w: nat)
    requires i + w <= |s|
  {
    forall k :: i <= k < i + w ==> IsDigit(s[k])
  }

  lemma Pad2Field(n: int, s: string, i: nat)
    requires 0 <= n < 100 && i + 2 <= |s| && s[i..i + 2] == Pad2(n)
    ensures DigitsAt(s, i, 2) && FieldValue(s, i, 2) == n
  {
    assert s[i] == Pad2(n)[0] && s[i + 1] == Pad2(n)[1];
  }

  lemma Pad4Field(n: int, s: string, i: nat)
    requires 0 <= n < 10000 && i + 4 <= |s| && s[i..i + 4] == Pad4(n)
    ensures DigitsAt(s, i, 4) && FieldValue(s, i, 4) == n
  {
    var p := Pad4(n);
    assert s[i] == p[0] && s[i + 1] == p[1] && s[i + 2] == p[2] && s[i + 3] == p[3];
    var a, b, c, d := n / 1000, n / 100 % 10, n / 10 % 10, n % 10;
    assert DigitValue(s[i]) == a && DigitValue(s[i + 1]) == b;
    assert DigitValue(s[i + 2]) == c && DigitValue(s[i + 3]) == d;
    assert FieldValue(s, i, 2) == a * 10 + b;
    assert FieldValue(s, i, 4) == ((a * 10 + b) * 10 + c) * 10 + d;
    DigitsRebuild(n);
  }

  /** The four decimal digits of a number below 10000 rebuild it. */
  lemma DigitsRebuild(n: int)
    requires 0 <= n < 10000
    ensures ((n / 1000 * 10 + n / 100 % 10) * 10 + n / 10 % 10) * 10 + n % 10 == n
  {
  }

  lemma FieldPad2(s: string, i: nat)
    requires i + 2 <= |s| && DigitsAt(s, i, 2)
    ensures FieldValue(s, i, 2) < 100 && Pad2(FieldValue(s, i, 2)) == s[i..i + 2]
  {
    var n := FieldValue(s, i, 2);
    assert n == DigitValue(s[i]) * 10 + DigitValue(s[i + 1]);
    assert Pad2(n)[0] == s[i] && Pad2(n)[1] == s[i + 1];
  }

  lemma FieldPad4(s: string, i: nat)
    requires i + 4 <= |s| && DigitsAt(s, i, 4)
    ensures FieldValue(s, i, 4) < 10000 && Pad4(FieldValue(s, i, 4)) == s[i..i + 4]
  {
    var a, b, c, d := DigitValue(s[i]), DigitValue(s[i + 1]), DigitValue(s[i + 2]), DigitValue(s[i + 3]);
    var n := FieldValue(s, i, 4);
    assert n == ((a * 10 + b) * 10 + c) * 10 + d;
    FourDigits(a, b, c, d);
    DigitCharValue(s[i]);
    DigitCharValue(s[i + 1]);
    DigitCharValue(s[i + 2]);
    DigitCharValue(s[i + 3]);
  }

  lemma FourDigits(a: int, b: int, c: int, d: int)
    requires 0 <= a < 10 && 0 <= b < 10 && 0 <= c < 10 && 0 <= d < 10
    ensures var n := ((a * 10 + b) * 10 + c) * 10 + d;
      n < 10000 && n / 1000 == a && n / 100 % 10 == b && n / 10 % 10 == c && n % 10 == d
  {
  }

  lemma DigitCharValue(c: char)
    requires IsDigit(c)
    ensures DigitChar(DigitValue(c)) == c
  {
  }

  // ---------------------------------------------------------------- "%Y-%m-%d %H:%M:%S"

  /** `t.strftime("%Y-%m-%d %H:%M:%S")`. */
  function FormatStamp(t: int): (s: string)
    requires InRange(t)
    ensures |s| == 19
  {
    var dt := FromSeconds(t);
    Pad4(dt.year) + "-" + Pad2(dt.month) + "-" + Pad2(dt.day) + " "
    + Pad2(dt.hour) + ":" + Pad2(dt.minute) + ":" + Pad2(dt.second)
  }

  /** The shape of a stamp: four, two and two digits with `-`, a space, then
      two, two and two digits with `:`. */
  predicate StampShape(s: string) {
    && |s| == 19
    && s[4] == '-' && s[7] == '-' && s[10] == ' ' && s[13] == ':' && s[16] == ':'
    && DigitsAt(s, 0, 4) && DigitsAt(s, 5, 2) && DigitsAt(s, 8, 2)
    && DigitsAt(s, 11, 2) && DigitsAt(s, 14, 2) && DigitsAt(s, 17, 2)
  }

  function StampFields(s: string): DateTime
    requires StampShape(s)
  {
    DateTime(FieldValue(s, 0, 4), FieldValue(s, 5, 2), FieldValue(s, 8, 2),
             FieldValue(s, 11, 2), FieldValue(s, 14, 2), FieldValue(s, 17, 2))
  }

  /** `datetime.strptime(s, "%Y-%m-%d %H:%M:%S")` on the zero-padded form
      `strftime` writes; out-of-range fields raise `ValueError`, here `None`. */
  function ParseStamp(s: string): (r: Option<int>)
    ensures r.Some? ==> InRange(r.value)
  {
    if StampShape(s) && Valid(StampFields(s)) then Some(ToSeconds(StampFields(s))) else None
  }

  lemma FormatStampShape(t: int)
    requires InRange(t)
    ensures StampShape(FormatStamp(t)) && StampFields(FormatStamp(t)) == FromSeconds(t)
  {
    var dt := FromSeconds(t);
    var s := FormatStamp(t);
    assert s[0..4] == Pad4(dt.year);
    assert s[5..7] == Pad2(dt.month);
    assert s[8..10] == Pad2(dt.day);
    assert s[11..13] == Pad2(dt.hour);
    assert s[14..16] == Pad2(dt.minute);
    assert s[17..19] == Pad2(dt.second);
    Pad4Field(dt.year, s, 0);
    Pad2Field(dt.month, s, 5);
    Pad2Field(dt.day, s, 8);
    Pad2Field(dt.hour, s, 11);
    Pad2Field(dt.minute, s, 14);
    Pad2Field(dt.second, s, 17);
  }

  /** A stamp written by `strftime` reads back as the same time. */
  lemma ParseFormatStamp(t: int)
    requires InRange(t)
    ensures ParseStamp(FormatStamp(t)) == Some(t)
  {
    FormatStampShape(t);
    ToFromSeconds(t);
  }

  /** A stamp that reads as a time is exactly what `strftime` writes for it. */
  lemma FormatParseStamp(s: string)
    requires ParseStamp(s).Some?
    ensures FormatStamp(ParseStamp(s).value) == s
  {
    var dt := StampFields(s);
    FromToSeconds(dt);
    StampRebuild(s);
  }

  /** Padding the fields a stamp's shape reads gives back the stamp. */
  lemma StampRebuild(s: string)
    requires StampShape(s)
    ensures var dt := StampFields(s);
      s == Pad4(dt.year) + "-" + Pad2(dt.month) + "-" + Pad2(dt.day) + " "
        + Pad2(dt.hour) + ":" + Pad2(dt.minute) + ":" + Pad2(dt.second)
  {
    var dt := StampFields(s);
    FieldPad4(s, 0);
    FieldPad2(s, 5);
    FieldPad2(s, 8);
    FieldPad2(s, 11);
    FieldPad2(s, 14);
    FieldPad2(s, 17);
    var p := Pad4(dt.year);
    assert p == s[..4];
    ExtendPrefix(s, 4, 5, p, "-");
    p := p + "-";
    ExtendPrefix(s, 5, 7, p, Pad2(dt.month));
    p := p + Pad2(dt.month);
    ExtendPrefix(s, 7, 8, p, "-");
    p := p + "-";
    ExtendPrefix(s, 8, 10, p, Pad2(dt.day));
    p := p + Pad2(dt.day);
    ExtendPrefix(s, 10, 11, p, " ");
    p := p + " ";
    ExtendPrefix(s, 11, 13, p, Pad2(dt.hour));
    p := p + Pad2(dt.hour);
    ExtendPrefix(s, 13, 14, p, ":");
    p := p + ":";
    ExtendPrefix(s, 14, 16, p, Pad2(dt.minute));
    p := p + Pad2(dt.minute);
    ExtendPrefix(s, 16, 17, p, ":");
    p := p + ":";
    ExtendPrefix(s, 17, 19, p, Pad2(dt.second));
    assert s[..19] == s;
  }

  /** A prefix of `s` followed by the next slice is the longer prefix. */
  lemma ExtendPrefix(s: string, j: nat, k: nat, p: string, q: string)
    requires j <= k <= |s| && p == s[..j] && q == s[j..k]
    ensures p + q == s[..k]
  {
  }

  /** Distinct times have distinct stamps. */
  lemma FormatStampInjective(a: int, b: int)
    requires InRange(a) && InRange(b) && FormatStamp(a) == FormatStamp(b)
    ensures a == b
  {
    ParseFormatStamp(a);
    ParseFormatStamp(b);
  }

  // ---------------------------------------------------------------- "%Y%m%d_%H%M%S"

  /** `t.strftime("%Y%m%d_%H%M%S")`, the suffix of backup folder names. */
  function CompactStamp(t: int): (s: string)
    requires InRange(t)
    ensures |s| == 15 && s[8] == '_'
  {
    var dt := FromSeconds(t);
    Pad4(dt.year) + Pad2(dt.month) + Pad2(dt.day) + "_" + Pad2(dt.hour) + Pad2(dt.minute) + Pad2(dt.second)
  }

  /** The fields of a compact stamp hold the date-time's fields. */
  lemma CompactFields(t: int)
    requires InRange(t)
    ensures var s, x := CompactStamp(t), FromSeconds(t);
      && DigitsAt(s, 0, 4) && FieldValue(s, 0, 4) == x.year
      && DigitsAt(s, 4, 2) && FieldValue(s, 4, 2) == x.month
      && DigitsAt(s, 6, 2) && FieldValue(s, 6, 2) == x.day
      && DigitsAt(s, 9, 2) && FieldValue(s, 9, 2) == x.hour
      && DigitsAt(s, 11, 2) && FieldValue(s, 11, 2) == x.minute
      && DigitsAt(s, 13, 2) && FieldValue(s, 13, 2) == x.second
  {
    var s, x := CompactStamp(t), FromSeconds(t);
    assert s[0..4] == Pad4(x.year);
    assert s[4..6] == Pad2(x.month);
    assert s[6..8] == Pad2(x.day);
    assert s[9..11] == Pad2(x.hour);
    assert s[11..13] == Pad2(x.minute);
    assert s[13..15] == Pad2(x.second);
    Pad4Field(x.year, s, 0);
    Pad2Field(x.month, s, 4);
    Pad2Field(x.day, s, 6);
    Pad2Field(x.hour, s, 9);
    Pad2Field(x.minute, s, 11);
    Pad2Field(x.second, s, 13);
  }

  /** Two backups started in different seconds get different names. */
  lemma CompactStampInjective(a: int, b: int)
    requires InRange(a) && InRange(b) && CompactStamp(a) == CompactStamp(b)
    ensures a == b
  {
    CompactFields(a);
    CompactFields(b);
    FromSecondsInjective(a, b);
  }

  // ---------------------------------------------------------------- "%H:%M"

  /** The text `strptime`'s `%H` accepts: one digit, `0`/`1` and a digit, or `2` and `0`-`3`. */
  predicate HourToken(h: string) {
    || (|h| == 1 && IsDigit(h[0]))
    || (|h| == 2 && (h[0] == '0' || h[0] == '1') && IsDigit(h[1]))
    || (|h| == 2 && h[0] == '2' && '0' <= h[1] <= '3')
  }

  /** The text `strptime`'s `%M` accepts: one digit, or `0`-`5` and a digit. */
  predicate MinuteToken(m: string) {
    || (|m| == 1 && IsDigit(m[0]))
    || (|m| == 2 && '0' <= m[0] <= '5' && IsDigit(m[1]))
  }

  /** The value of a one- or two-digit token. */
  function TokenValue(d: string): (v: nat)
    requires 1 <= |d| <= 2 && forall k :: 0 <= k < |d| ==> IsDigit(d[k])
  {
    if |d| == 1 then DigitValue(d[0]) else DigitValue(d[0]) * 10 + DigitValue(d[1])
  }

  /** `datetime.strptime(s, "%H:%M").time()` as seconds after midnight; the whole
      text must match (`ValueError` otherwise, here `None`). */
  function ParseClock(s: string): (r: Option<int>)
    ensures r.Some? ==> 0 <= r.value < SecondsPerDay && r.value % 60 == 0
  {
    var i := IndexOf(s, ':');
    if i < |s| && HourToken(s[..i]) && MinuteToken(s[i + 1..]) then
      Some(TokenValue(s[..i]) * 3600 + TokenValue(s[i + 1..]) * 60)
    else None
  }

  /** Zero-padded `HH:MM` always reads back as that time of day. */
  lemma ParseClockPadded(h: int, m: int)
    requires 0 <= h < 24 && 0 <= m < 60
    ensures ParseClock(Pad2(h) + ":" + Pad2(m)) == Some(h * 3600 + m * 60)
  {
    var s := Pad2(h) + ":" + Pad2(m);
    assert IndexOf(s, ':') == 2 by {
      assert s[0] == Pad2(h)[0] && s[1] == Pad2(h)[1] && s[2] == ':';
    }
    assert s[..2] == Pad2(h) && s[3..] == Pad2(m);
  }

  /** Every text `%H:%M` accepts is hours `0`-`23` and minutes `0`-`59`, written
      with one or two digits each. */
  lemma ParseClockFields(s: string)
    requires ParseClock(s).Some?
    ensures exists i :: 1 <= i <= 2 && i < |s| && s[i] == ':' && HourToken(s[..i]) && MinuteToken(s[i + 1..])
  {
    var i := IndexOf(s, ':');
    assert 1 <= i <= 2 && s[i] == ':';
  }

  /** Hour 24 and minute 60 are refused however they are written. */
  lemma ParseClockRejects(s: string)
    requires |s| == 5 && s[2] == ':' && (s[..2] == "24" || s[3..] == "60")
    ensures ParseClock(s) == None
  {
    assert IndexOf(s, ':') <= 2;
    if IndexOf(s, ':') == 2 {
      assert s[..2] == s[..IndexOf(s, ':')];
    }
  }
}
