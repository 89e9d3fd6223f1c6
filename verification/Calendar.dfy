/** UTC instants in whole seconds since the start of year 1, and their text YYYYMMDDThhmmssZ. */
module Calendar {
  import opened ByteText

  // ---- Dates (the proleptic Gregorian calendar) ----

  predicate IsLeap(y: int) { y % 4 == 0 && (y % 100 != 0 || y % 400 == 0) }

  /** Days from the start of year 1 to the start of year `y`. */
  function DaysBeforeYear(y: int): int { 365 * (y - 1) + (y - 1) / 4 - (y - 1) / 100 + (y - 1) / 400 }

  function DaysInYear(y: int): int { if IsLeap(y) then 366 else 365 }

  function DaysInMonth(y: int, m: int): int {
    if m == 2 then (if IsLeap(y) then 29 else 28)
    else if m == 4 || m == 6 || m == 9 || m == 11 then 30
    else 31
  }

  function DaysBeforeMonth(y: int, m: int): int
    requires 1 <= m <= 13
  {
    if m == 1 then 0 else DaysBeforeMonth(y, m - 1) + DaysInMonth(y, m - 1)
  }

  datatype Date = Date(year: int, month: int, day: int)

  predicate ValidDate(d: Date) {
    1 <= d.year <= 9999 && 1 <= d.month <= 12 && 1 <= d.day <= DaysInMonth(d.year, d.month)
  }

  function DayNumber(d: Date): int
    requires ValidDate(d)
  {
    DaysBeforeYear(d.year) + DaysBeforeMonth(d.year, d.month) + d.day - 1
  }

  const FIRST_DAY_PAST: int := DaysBeforeYear(10000)

  lemma YearLength(y: int)
    ensures DaysBeforeYear(y + 1) == DaysBeforeYear(y) + DaysInYear(y)
  {
    FourthsStep(y - 1);
    CenturiesStep(y - 1);
    FourCenturiesStep(y - 1);
    CenturiesAreFourths(y);
  }

  lemma FourthsStep(z: int)
    ensures (z + 1) / 4 == z / 4 + if (z + 1) % 4 == 0 then 1 else 0
  {
  }

  lemma CenturiesStep(z: int)
    ensures (z + 1) / 100 == z / 100 + if (z + 1) % 100 == 0 then 1 else 0
  {
  }

  lemma FourCenturiesStep(z: int)
    ensures (z + 1) / 400 == z / 400 + if (z + 1) % 400 == 0 then 1 else 0
  {
  }

  lemma CenturiesAreFourths(y: int)
    ensures y % 100 == 0 ==> y % 4 == 0
    ensures y % 400 == 0 ==> y % 100 == 0
  {
  }

  lemma MonthsFillYear(y: int)
    ensures DaysBeforeMonth(y, 13) == DaysInYear(y)
  {
    var february := DaysInMonth(y, 2);
    assert DaysBeforeMonth(y, 2) == 31 && DaysBeforeMonth(y, 3) == 31 + february;
    assert DaysBeforeMonth(y, 4) == 62 + february && DaysBeforeMonth(y, 5) == 92 + february;
    assert DaysBeforeMonth(y, 6) == 123 + february && DaysBeforeMonth(y, 7) == 153 + february;
    assert DaysBeforeMonth(y, 8) == 184 + february && DaysBeforeMonth(y, 9) == 215 + february;
    assert DaysBeforeMonth(y, 10) == 245 + february && DaysBeforeMonth(y, 11) == 276 + february;
    assert DaysBeforeMonth(y, 12) == 306 + february;
  }

  lemma {:induction false} MonthsAscend(y: int, m: int, n: int)
    requires 1 <= m < n <= 13
    ensures DaysBeforeMonth(y, m) + DaysInMonth(y, m) <= DaysBeforeMonth(y, n)
  {
    if m + 1 < n { MonthsAscend(y, m, n - 1); }
  }

  lemma {:induction false} YearsAscend(y: int, z: int)
    requires y < z
    ensures DaysBeforeYear(y) + DaysInYear(y) <= DaysBeforeYear(z)
    decreases z - y
  {
    hide DaysBeforeYear;
    if y + 1 < z { YearsAscend(y, z - 1); YearLength(z - 1); } else { YearLength(y); }
  }

  /** The year, from `y` on, in which this day falls. */
  function FindYear(day: int, y: int): (r: int)
    requires DaysBeforeYear(y) <= day
    ensures r >= y && DaysBeforeYear(r) <= day < DaysBeforeYear(r) + DaysInYear(r)
    decreases day - DaysBeforeYear(y)
  {
    YearLength(y);
    if day < DaysBeforeYear(y + 1) then y else FindYear(day, y + 1)
  }

  function FindMonth(y: int, rest: int, m: int): (r: int)
    requires 1 <= m <= 12 && DaysBeforeMonth(y, m) <= rest < DaysInYear(y)
    ensures m <= r <= 12 && DaysBeforeMonth(y, r) <= rest < DaysBeforeMonth(y, r) + DaysInMonth(y, r)
    decreases 12 - m
  {
    MonthsFillYear(y);
    if rest < DaysBeforeMonth(y, m + 1) then m else FindMonth(y, rest, m + 1)
  }

  function DateOf(day: int): (d: Date)
    requires 0 <= day < FIRST_DAY_PAST
    ensures ValidDate(d) && DayNumber(d) == day
  {
    var y := FindYear(day, 1);
    var rest := day - DaysBeforeYear(y);
    var m := FindMonth(y, rest, 1);
    YearBefore10000(day, y);
    Date(y, m, rest - DaysBeforeMonth(y, m) + 1)
  }

  lemma YearBefore10000(day: int, y: int)
    requires DaysBeforeYear(y) <= day < FIRST_DAY_PAST
    ensures y <= 9999
  {
    if y > 10000 { YearsAscend(10000, y); }
  }

  lemma {:induction false} DayNumberInRange(d: Date)
    requires ValidDate(d)
    ensures DaysBeforeYear(d.year) <= DayNumber(d) < DaysBeforeYear(d.year) + DaysInYear(d.year)
    ensures 0 <= DayNumber(d) < FIRST_DAY_PAST
  {
    hide DaysBeforeYear;
    MonthsAscend(d.year, d.month, 13);
    MonthsFillYear(d.year);
    if d.month > 1 { MonthsAscend(d.year, 1, d.month); }
    FirstYear();
    if d.year > 1 { YearsAscend(1, d.year); }
    YearsAscend(d.year, 10000);
  }

  lemma FirstYear()
    ensures DaysBeforeYear(1) == 0
  {
  }

  /** A day has one date. */
  lemma {:induction false} DateUnique(a: Date, b: Date)
    requires ValidDate(a) && ValidDate(b) && DayNumber(a) == DayNumber(b)
    ensures a == b
  {
    hide DaysBeforeYear, DaysInYear, DaysInMonth, DaysBeforeMonth;
    DayNumberInRange(a);
    DayNumberInRange(b);
    if a.year < b.year { YearsAscend(a.year, b.year); }
    if b.year < a.year { YearsAscend(b.year, a.year); }
    if a.month < b.month { MonthsAscend(a.year, a.month, b.month); }
    if b.month < a.month { MonthsAscend(a.year, b.month, a.month); }
  }

  /** Months are 31 and 30 days in turn, turning again after July; February is short, and shorter in common years. */
  lemma MonthLengths(y: int, m: int)
    requires 1 <= m <= 12
    ensures m != 2 ==> DaysInMonth(y, m) == 30 + (m + m / 8) % 2
    ensures y % 400 == 0 ==> DaysInMonth(y, 2) == 29
    ensures y % 100 == 0 && y % 400 != 0 ==> DaysInMonth(y, 2) == 28
    ensures y % 100 != 0 ==> DaysInMonth(y, 2) == if y % 4 == 0 then 29 else 28
  {
    CenturiesAreFourths(y);
  }

  /** Days are numbered one after the other from the first of January of year 1, over the ends of months and years. */
  lemma {:induction false} DaysFollow(d: Date)
    requires ValidDate(d)
    ensures DayNumber(Date(1, 1, 1)) == 0
    ensures d.day < DaysInMonth(d.year, d.month) ==>
              ValidDate(d.(day := d.day + 1)) && DayNumber(d.(day := d.day + 1)) == DayNumber(d) + 1
    ensures d.day == DaysInMonth(d.year, d.month) && d.month < 12 ==>
              ValidDate(Date(d.year, d.month + 1, 1)) && DayNumber(Date(d.year, d.month + 1, 1)) == DayNumber(d) + 1
    ensures d.day == 31 && d.month == 12 && d.year < 9999 ==>
              ValidDate(Date(d.year + 1, 1, 1)) && DayNumber(Date(d.year + 1, 1, 1)) == DayNumber(d) + 1
  {
    hide DaysBeforeYear;
    FirstYear();
    if d.month == 12 {
      MonthsFillYear(d.year);
      YearLength(d.year);
      assert DaysBeforeMonth(d.year, 13) == DaysBeforeMonth(d.year, 12) + 31;
    }
  }

  // ---- Fixed-width decimals ----

  function Pad(n: nat, width: nat): (s: Bytes)
    ensures |s| == width && forall i :: 0 <= i < width ==> '0' <= s[i] <= '9'
  {
    if width == 0 then "" else Pad(n / 10, width - 1) + [('0' as int + n % 10) as char]
  }

  function Unpad(s: Bytes): (n: Option<nat>) {
    if s == "" then Some(0)
    else
      var high, c := Unpad(s[..|s| - 1]), s[|s| - 1];
      if high.None? || !('0' <= c <= '9') then None else Some(10 * high.value + (c as int - '0' as int))
  }

  function Limit(width: nat): nat { if width == 0 then 1 else 10 * Limit(width - 1) }

  lemma PadSnoc(n: nat, width: nat)
    requires width > 0
    ensures Pad(n, width) == Pad(n / 10, width - 1) + [('0' as int + n % 10) as char]
  {
  }

  lemma UnpadSnoc(s: Bytes, c: char)
    requires Unpad(s).Some? && '0' <= c <= '9'
    ensures Unpad(s + [c]) == Some(10 * Unpad(s).value + (c as int - '0' as int))
  {
    hide Unpad;
    var t := s + [c];
    assert t != "" && t[|t| - 1] == c && t[..|t| - 1] == s;
    UnpadLast(t);
  }

  lemma UnpadLast(s: Bytes)
    requires s != "" && Unpad(s[..|s| - 1]).Some? && '0' <= s[|s| - 1] <= '9'
    ensures Unpad(s) == Some(10 * Unpad(s[..|s| - 1]).value + (s[|s| - 1] as int - '0' as int))
  {
  }

  lemma TenthBelow(n: nat, limit: nat)
    requires n < 10 * limit
    ensures n / 10 < limit && 10 * (n / 10) + n % 10 == n
  {
  }

  lemma {:induction false} UnpadOfPad(n: nat, width: nat)
    requires n < Limit(width)
    ensures Unpad(Pad(n, width)) == Some(n)
  {
    if width > 0 {
      hide Pad, Unpad;
      TenthBelow(n, Limit(width - 1));
      UnpadOfPad(n / 10, width - 1);
      var last := ('0' as int + n % 10) as char;
      PadSnoc(n, width);
      UnpadSnoc(Pad(n / 10, width - 1), last);
    }
  }

  // ---- Instants ----

  const SECONDS_PER_DAY: int := 86400

  /** The first second of year 10000. */
  const TIME_LIMIT: int := FIRST_DAY_PAST * SECONDS_PER_DAY

  /** The bound in seconds. */
  lemma LimitInSeconds()
    ensures TIME_LIMIT == 315_537_897_600
  {
  }

  predicate Writable(t: int) { 0 <= t < TIME_LIMIT }

  function FormatTime(t: int): (s: Bytes)
    requires Writable(t)
    ensures |s| == 16
  {
    var d, rest := DateOf(t / SECONDS_PER_DAY), t % SECONDS_PER_DAY;
    Pad(d.year, 4) + Pad(d.month, 2) + Pad(d.day, 2) + "T"
    + Pad(rest / 3600, 2) + Pad(rest / 60 % 60, 2) + Pad(rest % 60, 2) + "Z"
  }

  /** The instant a text denotes, for a text of exactly this form that names an instant that exists. */
  function ParseTime(s: Bytes): Option<int> {
    if |s| != 16 || s[8] != 'T' || s[15] != 'Z' then None
    else
      var y, m, d := Unpad(s[..4]), Unpad(s[4..6]), Unpad(s[6..8]);
      var h, min, sec := Unpad(s[9..11]), Unpad(s[11..13]), Unpad(s[13..15]);
      if y.None? || m.None? || d.None? || h.None? || min.None? || sec.None? then None
      else
        var date := Date(y.value, m.value, d.value);
        if !ValidDate(date) || h.value > 23 || min.value > 59 || sec.value > 59 then None
        else Some(DayNumber(date) * SECONDS_PER_DAY + h.value * 3600 + min.value * 60 + sec.value)
  }

  lemma FormatParts(t: int)
    requires Writable(t)
    ensures var s, d, rest := FormatTime(t), DateOf(t / SECONDS_PER_DAY), t % SECONDS_PER_DAY;
            && s[8] == 'T' && s[15] == 'Z'
            && s[..4] == Pad(d.year, 4) && s[4..6] == Pad(d.month, 2) && s[6..8] == Pad(d.day, 2)
            && s[9..11] == Pad(rest / 3600, 2) && s[11..13] == Pad(rest / 60 % 60, 2) && s[13..15] == Pad(rest % 60, 2)
  {
    hide DateOf, Pad;
  }

  lemma Limits()
    ensures Limit(2) == 100 && Limit(4) == 10000
  {
    assert Limit(1) == 10 && Limit(3) == 1000;
  }

  /** Reading a written instant gives it back: year, month and day included, for every second of years 1 to 9999. */
  lemma {:induction false} ParseOfFormat(t: int)
    requires Writable(t)
    ensures ParseTime(FormatTime(t)) == Some(t)
  {
    hide DateOf, Pad, Unpad, Limit, DaysInMonth, FormatTime, DayNumber;
    var d, rest := DateOf(t / SECONDS_PER_DAY), t % SECONDS_PER_DAY;
    FormatParts(t);
    Limits();
    UnpadOfPad(d.year, 4);
    UnpadOfPad(d.month, 2);
    MonthIsShort(d);
    UnpadOfPad(d.day, 2);
    UnpadOfPad(rest / 3600, 2);
    UnpadOfPad(rest / 60 % 60, 2);
    UnpadOfPad(rest % 60, 2);
    assert rest == rest / 3600 * 3600 + rest / 60 % 60 * 60 + rest % 60;
  }

  lemma {:induction false} PadOfUnpad(s: Bytes)
    requires Unpad(s).Some?
    ensures Pad(Unpad(s).value, |s|) == s && Unpad(s).value < Limit(|s|)
  {
    if s != "" {
      PadOfUnpad(s[..|s| - 1]);
      assert s == s[..|s| - 1] + [s[|s| - 1]];
    }
  }

  lemma ClockParts(day: int, h: int, min: int, sec: int)
    requires 0 <= day < FIRST_DAY_PAST && 0 <= h < 24 && 0 <= min < 60 && 0 <= sec < 60
    ensures var rest := h * 3600 + min * 60 + sec;
            var t := day * SECONDS_PER_DAY + rest;
            && Writable(t) && t / SECONDS_PER_DAY == day && t % SECONDS_PER_DAY == rest
            && rest / 3600 == h && rest / 60 % 60 == min && rest % 60 == sec
  {
    hide DaysBeforeYear;
    var rest := h * 3600 + min * 60 + sec;
    assert rest / 60 == h * 60 + min;
  }

  lemma {:induction false} DateOfParsed(date: Date)
    requires ValidDate(date)
    ensures 0 <= DayNumber(date) < FIRST_DAY_PAST && DateOf(DayNumber(date)) == date
  {
    hide DayNumber, DateOf, DaysInMonth, DaysBeforeYear;
    DayNumberInRange(date);
    DateUnique(date, DateOf(DayNumber(date)));
  }

  /** Conversely every text that is read is the one text of its instant. */
  lemma {:induction false} FormatOfParse(s: Bytes)
    requires ParseTime(s).Some?
    ensures Writable(ParseTime(s).value) && FormatTime(ParseTime(s).value) == s
  {
    hide DateOf, Pad, Unpad, Limit, DaysInMonth, FormatTime, DayNumber, ValidDate;
    var y, m, d := Unpad(s[..4]), Unpad(s[4..6]), Unpad(s[6..8]);
    var h, min, sec := Unpad(s[9..11]), Unpad(s[11..13]), Unpad(s[13..15]);
    DateOfParsed(Date(y.value, m.value, d.value));
    ClockParts(DayNumber(Date(y.value, m.value, d.value)), h.value, min.value, sec.value);
    PadOfUnpad(s[..4]);
    PadOfUnpad(s[4..6]);
    PadOfUnpad(s[6..8]);
    PadOfUnpad(s[9..11]);
    PadOfUnpad(s[11..13]);
    PadOfUnpad(s[13..15]);
    FormatParts(ParseTime(s).value);
    SixteenBytes(s, FormatTime(ParseTime(s).value));
  }

  lemma {:induction false} SixteenBytes(a: Bytes, b: Bytes)
    requires |a| == |b| == 16
    requires a[8] == b[8] && a[15] == b[15] && a[..4] == b[..4] && a[4..6] == b[4..6] && a[6..8] == b[6..8]
    requires a[9..11] == b[9..11] && a[11..13] == b[11..13] && a[13..15] == b[13..15]
    ensures a == b
  {
    assert a == a[..4] + a[4..6] + a[6..8] + [a[8]] + a[9..11] + a[11..13] + a[13..15] + [a[15]];
    assert b == b[..4] + b[4..6] + b[6..8] + [b[8]] + b[9..11] + b[11..13] + b[13..15] + [b[15]];
  }

  lemma MonthIsShort(d: Date)
    requires ValidDate(d)
    ensures d.day <= 31
  {
  }

  // ---- The text spelled out ----

  function Digit(n: int): char
    requires 0 <= n < 10
  {
    ('0' as int + n) as char
  }

  lemma PadTwo(n: nat)
    requires n < 100
    ensures Pad(n, 2) == [Digit(n / 10), Digit(n % 10)]
  {
    hide Pad;
    PadSnoc(n, 2);
    PadSnoc(n / 10, 1);
    PadNothing(n / 10 / 10);
  }

  lemma PadNothing(n: nat)
    ensures Pad(n, 0) == ""
  {
  }

  lemma PadFour(n: nat)
    requires n < 10000
    ensures Pad(n, 4) == [Digit(n / 1000), Digit(n / 100 % 10), Digit(n / 10 % 10), Digit(n % 10)]
  {
    hide Pad;
    PadSnoc(n, 4);
    PadSnoc(n / 10, 3);
    PadTwo(n / 100);
    assert n / 10 / 10 == n / 100 && n / 100 / 10 == n / 1000;
  }

  /** Four digits of the year, two each of month, day, hour, minute and second, with a T and a Z. */
  lemma {:induction false} TextSpelled(d: Date, h: int, min: int, sec: int)
    requires ValidDate(d) && 0 <= h < 24 && 0 <= min < 60 && 0 <= sec < 60
    ensures var t := DayNumber(d) * 86400 + h * 3600 + min * 60 + sec;
            && Writable(t) && d.day < 32
            && FormatTime(t) ==
               [Digit(d.year / 1000), Digit(d.year / 100 % 10), Digit(d.year / 10 % 10), Digit(d.year % 10),
                Digit(d.month / 10), Digit(d.month % 10), Digit(d.day / 10), Digit(d.day % 10), 'T',
                Digit(h / 10), Digit(h % 10), Digit(min / 10), Digit(min % 10), Digit(sec / 10), Digit(sec % 10), 'Z']
  {
    hide DateOf, Pad, DayNumber, DaysInMonth, Digit;
    MonthIsShort(d);
    DateOfParsed(d);
    ClockParts(DayNumber(d), h, min, sec);
    PadFour(d.year);
    PadTwo(d.month);
    PadTwo(d.day);
    PadTwo(h);
    PadTwo(min);
    PadTwo(sec);
  }

  lemma LeapDayNumber()
    ensures ValidDate(Date(2024, 2, 29)) && DayNumber(Date(2024, 2, 29)) == 738944
  {
    assert DaysBeforeMonth(2024, 2) == DaysBeforeMonth(2024, 1) + 31;
  }

  /** Fourteen minutes and 15 seconds past one in the afternoon of the leap day of 2024. */
  lemma {:induction false} SampleInstant()
    ensures var t := 738944 * 86400 + 13 * 3600 + 14 * 60 + 15;
            Writable(t) && FormatTime(t) == "20240229T131415Z" && ParseTime("20240229T131415Z") == Some(t)
  {
    hide DayNumber, ValidDate, FormatTime, Writable, ParseTime;
    LeapDayNumber();
    TextSpelled(Date(2024, 2, 29), 13, 14, 15);
    ParseOfFormat(738944 * 86400 + 13 * 3600 + 14 * 60 + 15);
  }
}
