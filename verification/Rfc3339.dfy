/**
  Time stamps of RFC 3339 (src/time.cc).

  Times are nanoseconds since the epoch.  The calendar side of the C library is given twice, in the
  directions the program uses it: `gmtime` by counting days one at a time from 1970-01-01, and
  `mktime` by the closed form that also accepts days past the end of a month.  Parsing follows
  `strptime`, `strtol` and `strtod` character by character; the string ends at its first NUL.
  Floating point enters as an arbitrary rounding function with the error bound of IEEE doubles.
 */
module Rfc3339 {
  import opened Wrappers

  // ---------------------------------------------------------------- the calendar

  datatype Date = Date(year: int, month: int, day: int)
  datatype Tm = Tm(date: Date, hour: int, minute: int, second: int)

  predicate Leap(y: int) { y % 4 == 0 && (y % 100 != 0 || y % 400 == 0) }

  function MonthLength(y: int, m: int): int {
    if m == 2 then (if Leap(y) then 29 else 28)
    else if m == 4 || m == 6 || m == 9 || m == 11 then 30
    else 31
  }

  /** The months of the Gregorian calendar. */
  lemma MonthLengthIs(y: int, m: int)
    requires 1 <= m <= 12
    ensures MonthLength(y, m) == [31, if Leap(y) then 29 else 28, 31, 30, 31, 30, 31, 31, 30, 31, 30, 31][m - 1]
    ensures Leap(y) <==> y % 400 == 0 || (y % 4 == 0 && y % 100 != 0)
  {
  }

  predicate ValidDate(c: Date) { 1 <= c.month <= 12 && 1 <= c.day <= MonthLength(c.year, c.month) }

  function NextDay(c: Date): Date {
    if c.day < MonthLength(c.year, c.month) then Date(c.year, c.month, c.day + 1)
    else if c.month < 12 then Date(c.year, c.month + 1, 1)
    else Date(c.year + 1, 1, 1)
  }

  /** The date `d` days after the epoch. */
  function DateOfDay(d: nat): Date {
    if d == 0 then Date(1970, 1, 1) else NextDay(DateOfDay(d - 1))
  }

  function DaysBeforeYear(y: int): int { 365 * y + (y - 1) / 4 - (y - 1) / 100 + (y - 1) / 400 }

  function DaysBeforeMonth(y: int, m: int): int
    requires 1 <= m <= 12
  {
    [0, 31, 59, 90, 120, 151, 181, 212, 243, 273, 304, 334][m - 1] + (if m > 2 && Leap(y) then 1 else 0)
  }

  /** Linear in the day, which need not exist in the month. */
  function DayOfDate(c: Date): int
    requires 1 <= c.month <= 12
  {
    DaysBeforeYear(c.year) + DaysBeforeMonth(c.year, c.month) + c.day - 1 - DaysBeforeYear(1970)
  }

  function SecondsOf(tm: Tm): int
    requires 1 <= tm.date.month <= 12
  {
    86400 * DayOfDate(tm.date) + 3600 * tm.hour + 60 * tm.minute + tm.second
  }

  function GmTime(t: nat): Tm {
    var rest := t % 86400;
    Tm(DateOfDay(t / 86400), rest / 3600, rest % 3600 / 60, rest % 60)
  }

  /** Local standard time is `east` seconds ahead of UTC. */
  function MkTime(tm: Tm, east: int): int
    requires 1 <= tm.date.month <= 12
  {
    SecondsOf(tm) - east
  }

  lemma FloorSteps(y: int)
    ensures y / 4 == (y - 1) / 4 + (if y % 4 == 0 then 1 else 0)
    ensures y / 100 == (y - 1) / 100 + (if y % 100 == 0 then 1 else 0)
    ensures y / 400 == (y - 1) / 400 + (if y % 400 == 0 then 1 else 0)
    ensures (y % 400 == 0 ==> y % 100 == 0) && (y % 100 == 0 ==> y % 4 == 0)
  {
  }

  lemma YearsAddUp(y: int)
    ensures DaysBeforeYear(y + 1) == DaysBeforeYear(y) + (if Leap(y) then 366 else 365)
  {
    FloorSteps(y);
  }

  /** The closed form counts days. */
  lemma NextDayIsNext(c: Date)
    requires ValidDate(c)
    ensures ValidDate(NextDay(c)) && DayOfDate(NextDay(c)) == DayOfDate(c) + 1
  {
    YearsAddUp(c.year);
  }

  lemma {:induction false} DayOfDateOfDay(d: nat)
    ensures ValidDate(DateOfDay(d)) && DayOfDate(DateOfDay(d)) == d
    ensures DateOfDay(d).year >= 1970
  {
    if d > 0 {
      DayOfDateOfDay(d - 1);
      NextDayIsNext(DateOfDay(d - 1));
    }
  }

  lemma LaterMonthLater(c: Date, e: Date)
    requires ValidDate(c) && ValidDate(e)
    requires c.year < e.year || (c.year == e.year && c.month < e.month)
    ensures DayOfDate(c) < DayOfDate(e)
  {
    YearsAddUp(c.year);
    if c.year < e.year { YearsGrow(c.year + 1, e.year); }
  }

  lemma {:induction false} YearsGrow(y: int, z: int)
    requires y <= z
    ensures DaysBeforeYear(z) >= DaysBeforeYear(y) + 365 * (z - y)
    decreases z - y
  {
    if y < z {
      YearsAddUp(y);
      YearsGrow(y + 1, z);
    }
  }

  /** Every date from the epoch on is reached by counting, and its day number is the count. */
  lemma DateOfDayOfDate(c: Date)
    requires ValidDate(c) && c.year >= 1970
    ensures DayOfDate(c) >= 0 && DateOfDay(DayOfDate(c)) == c
  {
    YearsGrow(1970, c.year);
    var e := DateOfDay(DayOfDate(c));
    DayOfDateOfDay(DayOfDate(c));
    if c.year < e.year || (c.year == e.year && c.month < e.month) { LaterMonthLater(c, e); }
    if e.year < c.year || (c.year == e.year && e.month < c.month) { LaterMonthLater(e, c); }
  }

  lemma ClockParts(x: nat)
    requires x < 86400
    ensures x == 3600 * (x / 3600) + 60 * (x % 3600 / 60) + x % 60
    ensures x / 3600 < 24 && x % 3600 / 60 < 60
  {
  }

  /** `mktime` in UTC undoes `gmtime`, for every second from the epoch on. */
  lemma SecondsOfGmTime(t: nat)
    ensures ValidDate(GmTime(t).date) && SecondsOf(GmTime(t)) == t
    ensures 0 <= GmTime(t).hour < 24 && 0 <= GmTime(t).minute < 60 && 0 <= GmTime(t).second < 60
  {
    DayOfDateOfDay(t / 86400);
    ClockParts(t % 86400);
  }

  /** A time that fits 64-bit nanoseconds has a four-digit year. */
  lemma FourDigitYear(d: nat)
    requires d <= 106751
    ensures 1970 <= DateOfDay(d).year <= 2262
  {
    DayOfDateOfDay(d);
    YearsGrow(1970, DateOfDay(d).year);
  }

  // ---------------------------------------------------------------- digits

  predicate IsDigit(c: char) { '0' <= c <= '9' }

  predicate AllDigits(s: string) { forall i :: 0 <= i < |s| ==> IsDigit(s[i]) }

  function DigitValue(c: char): nat
    requires IsDigit(c)
  {
    c as int - '0' as int
  }

  function Digit(n: int): (c: char)
    requires 0 <= n < 10
    ensures IsDigit(c) && DigitValue(c) == n
  {
    ('0' as int + n) as char
  }

  function Pow10(n: nat): (p: int)
    ensures p >= 1
  {
    if n == 0 then 1 else 10 * Pow10(n - 1)
  }

  /** The number a digit string denotes. */
  function Value(s: string): nat
    requires AllDigits(s)
  {
    if s == [] then 0 else 10 * Value(s[..|s| - 1]) + DigitValue(s[|s| - 1])
  }

  /** The decimal form without padding, as a stream prints an integer. */
  function Decimal(n: nat): string {
    if n < 10 then [Digit(n)] else Decimal(n / 10) + [Digit(n % 10)]
  }

  function Zeros(n: nat): string { seq(n, _ => '0') }

  /** `setw(w) << setfill('0')`, and the two-digit fields of `strftime`. */
  function Padded(n: nat, w: nat): string {
    var d := Decimal(n);
    if |d| < w then Zeros(w - |d|) + d else d
  }

  lemma {:induction false} DecimalValue(n: nat, w: nat)
    requires 1 <= w && n < Pow10(w)
    ensures 1 <= |Decimal(n)| <= w && AllDigits(Decimal(n)) && Value(Decimal(n)) == n
    decreases w
  {
    if n < 10 {
      assert [Digit(n)][..0] == [];
    } else {
      DecimalValue(n / 10, w - 1);
      assert Decimal(n)[..|Decimal(n)| - 1] == Decimal(n / 10);
    }
  }

  lemma {:induction false} ZerosAdd(k: nat, d: string)
    requires AllDigits(d)
    ensures AllDigits(Zeros(k) + d) && Value(Zeros(k) + d) == Value(d)
    decreases |d|, k
  {
    var s := Zeros(k) + d;
    if d != [] {
      ZerosAdd(k, d[..|d| - 1]);
      assert s[..|s| - 1] == Zeros(k) + d[..|d| - 1];
    } else if k > 0 {
      ZerosAdd(k - 1, d);
      assert s[..|s| - 1] == Zeros(k - 1) + d;
    }
  }

  /** Padding to `w` digits denotes the same number. */
  lemma PaddedValue(n: nat, w: nat)
    requires 1 <= w && n < Pow10(w)
    ensures |Padded(n, w)| == w && AllDigits(Padded(n, w)) && Value(Padded(n, w)) == n
  {
    var d := Decimal(n);
    DecimalValue(n, w);
    ZerosAdd(w - |d|, d);
    assert |d| == w ==> Zeros(0) + d == d;
  }

  // ---------------------------------------------------------------- printing

  const BILLION := 1_000_000_000

  function PrintSeconds(tm: Tm): string
    requires 0 <= tm.date.year && 1 <= tm.date.month && 1 <= tm.date.day
    requires 0 <= tm.hour && 0 <= tm.minute && 0 <= tm.second
  {
    Decimal(tm.date.year) + "-" + Padded(tm.date.month, 2) + "-" + Padded(tm.date.day, 2) + "T"
    + Padded(tm.hour, 2) + ":" + Padded(tm.minute, 2) + ":" + Padded(tm.second, 2)
  }

  function ToString(t: nat): string {
    SecondsOfGmTime(t / BILLION);
    DayOfDateOfDay(t / BILLION / 86400);
    PrintSeconds(GmTime(t / BILLION)) + "." + Padded(t % BILLION, 9) + "Z"
  }

  // ---------------------------------------------------------------- parsing

  /** The character a C string shows at `i`. */
  function At(s: string, i: nat): char { if i < |s| then s[i] else '\0' }

  predicate IsSpace(c: char) { c == ' ' || ('\t' <= c <= '\r') }

  function SkipSpaces(s: string, i: nat): (j: nat)
    ensures i <= j
    decreases |s| - i
  {
    if i < |s| && IsSpace(s[i]) then SkipSpaces(s, i + 1) else i
  }

  function SkipDigits(s: string, i: nat): (j: nat)
    ensures i <= j && (i <= |s| ==> j <= |s|) && !IsDigit(At(s, j))
    ensures forall k :: i <= k < j ==> k < |s| && IsDigit(s[k])
    decreases |s| - i
  {
    if i < |s| && IsDigit(s[i]) then SkipDigits(s, i + 1) else i
  }

  datatype Number = Number(value: nat, next: nat)

  /** At most `n` digits, and no digit once ten times the value would exceed `hi`. */
  function ReadDigits(s: string, i: nat, value: nat, hi: nat, n: nat): (r: Number)
    requires IsDigit(At(s, i))
    ensures i < r.next <= |s| && IsDigit(s[r.next - 1])
    decreases n
  {
    var v := 10 * value + DigitValue(At(s, i));
    if n > 1 && 10 * v <= hi && IsDigit(At(s, i + 1)) then ReadDigits(s, i + 1, v, hi, n - 1) else Number(v, i + 1)
  }

  /** A numeric field of `strptime`. */
  function ReadField(s: string, i: nat, lo: nat, hi: nat, n: nat): (f: Option<Number>)
    ensures f.Some? ==> lo <= f.value.value <= hi && 0 < f.value.next <= |s| && IsDigit(s[f.value.next - 1])
  {
    var j := SkipSpaces(s, i);
    if !IsDigit(At(s, j)) then None
    else
      var r := ReadDigits(s, j, 0, hi, n);
      if lo <= r.value <= hi then Some(r) else None
  }

  /** A literal character of the format, then a numeric field. */
  function ReadNext(s: string, i: nat, c: char, lo: nat, hi: nat): Option<Number> {
    if At(s, i) == c then ReadField(s, i + 1, lo, hi, 2) else None
  }

  datatype Dated = Dated(date: Date, next: nat)
  datatype Scanned = Scanned(tm: Tm, end: nat)

  /** `%Y-%m-%d` */
  function ReadDate(s: string): (r: Option<Dated>)
    ensures r.Some? ==> 1 <= r.value.date.month <= 12
  {
    match ReadField(s, 0, 0, 9999, 4)
    case None => None
    case Some(y) =>
      match ReadNext(s, y.next, '-', 1, 12)
      case None => None
      case Some(m) =>
        match ReadNext(s, m.next, '-', 1, 31)
        case None => None
        case Some(d) => Some(Dated(Date(y.value, m.value, d.value), d.next))
  }

  /** `T%H:%M:%S` */
  function ReadClock(s: string, d: Dated): (r: Option<Scanned>)
    ensures r.Some? ==> r.value.tm.date == d.date && 0 <= r.value.tm.second <= 61
    ensures r.Some? ==> 0 < r.value.end <= |s| && IsDigit(s[r.value.end - 1])
  {
    match ReadNext(s, d.next, 'T', 0, 23)
    case None => None
    case Some(h) =>
      match ReadNext(s, h.next, ':', 0, 59)
      case None => None
      case Some(mi) =>
        match ReadNext(s, mi.next, ':', 0, 61)
        case None => None
        case Some(sec) => Some(Scanned(Tm(d.date, h.value, mi.value, sec.value), sec.next))
  }

  /** `strptime` with `%Y-%m-%dT%H:%M:%S`. */
  function Strptime(s: string): (r: Option<Scanned>)
    ensures r.Some? ==> 1 <= r.value.tm.date.month <= 12 && 0 <= r.value.tm.second <= 61
    ensures r.Some? ==> 0 < r.value.end <= |s| && IsDigit(s[r.value.end - 1])
  {
    match ReadDate(s)
    case None => None
    case Some(d) => ReadClock(s, d)
  }

  /** Where `strtol` stops: spaces, a sign, digits; at its start when there is no digit. */
  function StrtolEnd(s: string, i: nat): nat {
    var j := SkipSpaces(s, i);
    var k := if At(s, j) == '+' || At(s, j) == '-' then j + 1 else j;
    if IsDigit(At(s, k)) then SkipDigits(s, k) else i
  }

  /**
    Where `strtod` stops when it starts at two decimal digits that end before `i` (so the number is
    neither hexadecimal nor a name) and no exponent follows, which the caller has ruled out.
   */
  function StrtodEnd(s: string, i: nat): nat {
    if At(s, i) == '.' then SkipDigits(s, i + 1) else i
  }

  // ---------------------------------------------------------------- floating point

  function Abs(x: real): real { if x < 0.0 then -x else x }

  /**
    The rounding of doubles: relative error at most 2^-53, plus a term that covers underflow, for
    every magnitude that can occur here.
   */
  ghost predicate RoundsLikeDouble(fl: real -> real) {
    forall x {:trigger fl(x)} :: Abs(x) <= 1_000_000_000_000.0 ==>
      Abs(fl(x) - x) <= Abs(x) / 9_007_199_254_740_992.0 + 0.000_000_000_000_000_000_000_1
  }

  /** To the nearest integer, halves away from zero. */
  function Lround(x: real): int { if x >= 0.0 then (x + 0.5).Floor else -((0.5 - x).Floor) }

  /** Division of the source language: toward zero. */
  function Quot(a: int, b: int): int
    requires b > 0
  {
    if a >= 0 then a / b else -(-a / b)
  }

  /** `lround((seconds - tm_sec) * 10^10) / 10`, every operation rounded. */
  function Nanos(seconds: real, sec: int, fl: real -> real): int {
    Quot(Lround(TenthDigits(seconds, sec, fl)), 10)
  }

  function TenthDigits(seconds: real, sec: int, fl: real -> real): real {
    fl(fl(fl(seconds) - sec as real) * 10_000_000_000.0)
  }

  /** The machine: its rounding, its standard offset, and the time at which the offset constant was set. */
  datatype Host = Host(fl: real -> real, east: int, started: nat)

  function UTCOffset(host: Host): int {
    SecondsOfGmTime(host.started);
    host.started - MkTime(GmTime(host.started), host.east)
  }

  /** The fraction a digit string after the point denotes. */
  function Fraction(d: string): real
    requires AllDigits(d)
  {
    if d == [] then 0.0 else (DigitValue(d[0]) as real + Fraction(d[1..])) / 10.0
  }

  /** Where the zone letter is expected, or None where the fraction is missing. */
  function ZoneStart(s: string, end: nat): Option<nat> {
    if At(s, end) != '.' then Some(end)
    else if StrtolEnd(s, end + 1) <= end + 1 then None
    else Some(StrtolEnd(s, end + 1))
  }

  /** What `FromString` extracts: the broken-down time, where it ends, and where the zone letter is. */
  datatype Stamp = Stamp(tm: Tm, end: nat, zone: nat)

  ghost predicate ProperStamp(s: string, st: Stamp) {
    && 2 <= st.end <= st.zone < |s| && IsDigit(s[st.end - 1]) && IsDigit(s[st.end - 2])
    && (forall k :: st.end < k < st.zone ==> IsDigit(s[k]))
  }

  lemma TailAccepted(s: string, p: Scanned, z: nat)
    requires 2 <= p.end <= |s| && IsDigit(s[p.end - 1]) && IsDigit(s[p.end - 2]) && Tail(s, p.end, z)
    ensures ScanTail(s, p) == Some(Stamp(p.tm, p.end, z))
  {
    if p.end < z {
      var j := SkipDigits(s, p.end + 1);
      assert IsDigit(At(s, p.end + 1));
      assert !IsDigit(At(s, z)) && !IsDigit(At(s, j));
      assert StrtolEnd(s, p.end + 1) == z;
    }
  }

  lemma AcceptedTail(s: string, p: Scanned)
    requires 2 <= p.end <= |s| && IsDigit(s[p.end - 1]) && ScanTail(s, p).Some?
    ensures Tail(s, p.end, ScanTail(s, p).value.zone)
  {
    var z := ScanTail(s, p).value.zone;
    if p.end < z { assert At(s, p.end) == '.'; }
  }

  /** The part of `FromString` after `strptime` up to its last refusal. */
  function ScanTail(s: string, p: Scanned): (r: Option<Stamp>)
    requires 0 < p.end <= |s| && IsDigit(s[p.end - 1])
    ensures r.Some? ==> r.value.tm == p.tm && r.value.end == p.end && ProperStamp(s, r.value)
  {
    if p.end < 2 || !IsDigit(At(s, p.end - 2)) then None
    else
      match ZoneStart(s, p.end)
      case None => None
      case Some(zone) =>
        if At(s, zone) != 'Z' || At(s, zone + 1) != '\0' then None
        else if StrtodEnd(s, p.end) != zone then None
        else Some(Stamp(p.tm, p.end, zone))
  }

  /** None where `FromString` gives up. */
  function Scan(s: string): (r: Option<Stamp>)
    ensures r.Some? ==> ProperStamp(s, r.value) && 1 <= r.value.tm.date.month <= 12 && 0 <= r.value.tm.second <= 61
  {
    match Strptime(s)
    case None => None
    case Some(p) => ScanTail(s, p)
  }

  /** The digits between the point and the zone letter. */
  function FractionDigits(s: string, st: Stamp): (d: string)
    requires ProperStamp(s, st)
    ensures AllDigits(d)
  {
    if st.end < st.zone then s[st.end + 1..st.zone] else []
  }

  /** The value `strtod` reads: two digits of seconds and the fraction. */
  function ReadSeconds(s: string, st: Stamp): real
    requires ProperStamp(s, st)
  {
    Value(s[st.end - 2..st.end]) as real + Fraction(FractionDigits(s, st))
  }

  function Instant(s: string, st: Stamp, host: Host): int
    requires ProperStamp(s, st) && 1 <= st.tm.date.month <= 12
  {
    var ns := Nanos(ReadSeconds(s, st), st.tm.second, host.fl);
    var utc := MkTime(st.tm, host.east) + UTCOffset(host);
    utc * BILLION + ns
  }

  /** A string that does not parse yields the epoch. */
  function FromString(s: string, host: Host): int {
    match Scan(s)
    case None => 0
    case Some(st) => Instant(s, st, host)
  }

  /** The offset constant undoes the zone of `mktime`, whenever it was computed. */
  lemma OffsetIsEast(host: Host)
    ensures UTCOffset(host) == host.east
  {
    SecondsOfGmTime(host.started);
  }

  // ---------------------------------------------------------------- which strings are accepted

  /** What must follow the seconds: an optional point with at least one digit, `Z`, the end. */
  ghost predicate Tail(s: string, end: nat, zone: nat) {
    && end <= zone && At(s, zone) == 'Z' && At(s, zone + 1) == '\0'
    && (zone == end || (At(s, end) == '.' && end + 1 < zone && forall k :: end < k < zone ==> IsDigit(At(s, k))))
  }

  lemma TailUnique(s: string, end: nat, z: nat, z': nat)
    requires Tail(s, end, z) && Tail(s, end, z')
    ensures z == z'
  {
    assert !IsDigit('Z') && !IsDigit('.');
  }

  /**
    The scan through `strtol` and `strtod` accepts exactly two-digit seconds with such a tail: signs,
    spaces, exponents and other zones are refused.
   */
  lemma AcceptedIff(s: string)
    ensures Scan(s).Some? <==>
      && Strptime(s).Some? && Strptime(s).value.end >= 2 && IsDigit(At(s, Strptime(s).value.end - 2))
      && exists z: nat :: Tail(s, Strptime(s).value.end, z)
    ensures Scan(s).Some? ==> Scan(s).value.tm == Strptime(s).value.tm && Scan(s).value.end == Strptime(s).value.end
    ensures Scan(s).Some? ==> Tail(s, Scan(s).value.end, Scan(s).value.zone)
  {
    if Strptime(s).Some? {
      var p := Strptime(s).value;
      if p.end >= 2 && IsDigit(At(s, p.end - 2)) {
        if z: nat :| Tail(s, p.end, z) { TailAccepted(s, p, z); }
      }
      if Scan(s).Some? { AcceptedTail(s, p); }
    }
  }

  // ---------------------------------------------------------------- reading digit groups

  lemma ValueSnoc(s: string, i: nat, j: nat)
    requires i <= j < |s| && AllDigits(s[i..j + 1])
    ensures AllDigits(s[i..j]) && IsDigit(s[j]) && Value(s[i..j + 1]) == 10 * Value(s[i..j]) + DigitValue(s[j])
  {
    var w := s[i..j + 1];
    assert w[..|w| - 1] == s[i..j];
    assert w[|w| - 1] == s[j];
  }

  lemma {:induction false} ValueGrows(s: string, i: nat, j: nat, k: nat)
    requires i <= j <= k <= |s| && AllDigits(s[i..k])
    ensures AllDigits(s[i..j]) && Value(s[i..j]) <= Value(s[i..k])
    ensures j < k ==> 10 * Value(s[i..j]) <= Value(s[i..k])
    decreases k
  {
    if j < k {
      ValueSnoc(s, i, k - 1);
      ValueGrows(s, i, j, k - 1);
    }
  }

  lemma {:induction false} ReadsAll(s: string, start: nat, i: nat, v: nat, hi: nat, n: nat)
    requires 1 <= n && start <= i && i + n <= |s| && AllDigits(s[start..i + n])
    requires AllDigits(s[start..i]) && v == Value(s[start..i]) && Value(s[start..i + n]) <= hi
    ensures IsDigit(At(s, i)) && ReadDigits(s, i, v, hi, n) == Number(Value(s[start..i + n]), i + n)
    decreases n
  {
    ValueGrows(s, start, i + 1, i + n);
    ValueSnoc(s, start, i);
    var v1 := Value(s[start..i + 1]);
    assert v1 == 10 * v + DigitValue(At(s, i));
    if n > 1 {
      assert IsDigit(At(s, i + 1)) by { assert s[i + 1] == s[start..i + n][i + 1 - start]; }
      ReadsAll(s, start, i + 1, v1, hi, n - 1);
    }
  }

  /** A field of full width in range is read as its value. */
  lemma FieldRead(s: string, i: nat, lo: nat, hi: nat, n: nat)
    requires 1 <= n && i + n <= |s| && AllDigits(s[i..i + n]) && lo <= Value(s[i..i + n]) <= hi
    ensures ReadField(s, i, lo, hi, n) == Some(Number(Value(s[i..i + n]), i + n))
  {
    assert s[i..i] == [];
    ReadsAll(s, i, i, 0, hi, n);
    assert !IsSpace(s[i]);
  }

  lemma ClockSeconds(s: string, d: Dated, p: Scanned)
    requires ReadClock(s, d) == Some(p) && p.end >= 2 && IsDigit(s[p.end - 2])
    ensures AllDigits(s[p.end - 2..p.end]) && Value(s[p.end - 2..p.end]) == p.tm.second
  {
    var h := ReadNext(s, d.next, 'T', 0, 23).value;
    var mi := ReadNext(s, h.next, ':', 0, 59).value;
    TwoDigitField(s, mi.next, ':', 0, 61);
  }

  /** The digits read as seconds are the ones `strtod` reads again. */
  lemma SecondsTwice(s: string, st: Stamp)
    requires Scan(s) == Some(st)
    ensures Value(s[st.end - 2..st.end]) == st.tm.second
  {
    ClockSeconds(s, ReadDate(s).value, Strptime(s).value);
  }

  lemma {:induction false} SpacesBefore(s: string, i: nat)
    ensures forall k :: i <= k < SkipSpaces(s, i) ==> IsSpace(At(s, k))
    decreases |s| - i
  {
    if i < |s| && IsSpace(s[i]) { SpacesBefore(s, i + 1); }
  }

  lemma TwoDigitField(s: string, i: nat, c: char, lo: nat, hi: nat)
    requires !IsDigit(c) && ReadNext(s, i, c, lo, hi).Some?
    requires var e := ReadNext(s, i, c, lo, hi).value.next; e >= 2 && IsDigit(s[e - 2])
    ensures var r := ReadNext(s, i, c, lo, hi).value;
      AllDigits(s[r.next - 2..r.next]) && Value(s[r.next - 2..r.next]) == r.value
  {
    var j := SkipSpaces(s, i + 1);
    SpacesBefore(s, i + 1);
    assert !IsDigit(At(s, j - 1));
    var r := ReadDigits(s, j, 0, hi, 2);
    assert r == ReadNext(s, i, c, lo, hi).value;
    assert r.next == j + 2;
    var w := s[j..j + 2];
    assert w[..1] == [s[j]] && w[..1][..0] == [];
    assert Value(w[..1]) == DigitValue(s[j]);
  }

  // ---------------------------------------------------------------- decimal fractions

  lemma {:induction false} FractionBelowOne(d: string)
    requires AllDigits(d)
    ensures 0.0 <= Fraction(d) < 1.0
  {
    if d != [] { FractionBelowOne(d[1..]); }
  }

  lemma {:induction false} TrailingZeros(d: string, k: nat)
    requires AllDigits(d)
    ensures AllDigits(d + Zeros(k)) && Fraction(d + Zeros(k)) == Fraction(d)
    decreases |d|, k
  {
    if d != [] {
      TrailingZeros(d[1..], k);
      assert (d + Zeros(k))[1..] == d[1..] + Zeros(k);
    } else if k > 0 {
      TrailingZeros(d, k - 1);
      assert (d + Zeros(k))[1..] == d + Zeros(k - 1);
    }
  }

  function TimesTen(x: real, n: nat): real { if n == 0 then x else 10.0 * TimesTen(x, n - 1) }

  /** Moving the point `j` places to the right. */
  lemma {:induction false} FractionShift(d: string, j: nat)
    requires AllDigits(d) && j <= |d|
    ensures TimesTen(Fraction(d), j) == Value(d[..j]) as real + Fraction(d[j..])
  {
    if j == 0 {
      assert d[0..] == d;
    } else {
      FractionShift(d, j - 1);
      ValueSnoc(d, 0, j - 1);
      assert d[0..j] == d[..j] && d[0..j - 1] == d[..j - 1];
      assert d[j - 1..][0] == d[j - 1] && d[j - 1..][1..] == d[j..];
    }
  }

  /** At least nine digits that denote the same fraction. */
  function AtLeastNine(d: string): (e: string)
    ensures |e| >= 9 && |e| >= |d| && (|d| >= 9 ==> e == d)
  {
    if |d| < 9 then d + Zeros(9 - |d|) else d
  }

  /** The first nine digits of a fraction, filled up with zeros, as nanoseconds. */
  function Truncated(d: string): nat
    requires AllDigits(d)
  {
    Value(AtLeastNine(d)[..9])
  }

  /** What truncation drops, in tenths of a nanosecond. */
  function Dropped(d: string): real
    requires AllDigits(d)
  {
    10.0 * Fraction(AtLeastNine(d)[9..])
  }

  lemma FractionParts(d: string)
    requires AllDigits(d)
    ensures Fraction(d) * 10_000_000_000.0 == 10.0 * Truncated(d) as real + Dropped(d)
    ensures 0.0 <= Dropped(d) < 10.0
  {
    var e := AtLeastNine(d);
    if |d| < 9 { TrailingZeros(d, 9 - |d|); }
    FractionShift(e, 9);
    BillionTimes(Fraction(e));
    FractionBelowOne(e[9..]);
  }

  lemma BillionTimes(x: real)
    ensures TimesTen(x, 9) == 1_000_000_000.0 * x
  {
    var y := TimesTen(x, 3);
    assert TimesTen(x, 1) == 10.0 * x && TimesTen(x, 2) == 100.0 * x && y == 1000.0 * x;
    assert TimesTen(x, 4) == 10.0 * y && TimesTen(x, 5) == 100.0 * y && TimesTen(x, 6) == 1000.0 * y;
    assert TimesTen(x, 7) == 10_000.0 * y && TimesTen(x, 8) == 100_000.0 * y;
  }

  lemma LeadingDigit(d: string)
    requires AllDigits(d) && |d| >= 1
    ensures 10.0 * Fraction(d) == DigitValue(d[0]) as real + Fraction(d[1..]) && 0.0 <= Fraction(d[1..]) < 1.0
  {
    FractionBelowOne(d[1..]);
  }

  /** The dropped part reaches nine and a half exactly when it starts with 95 or more. */
  predicate RoundsUp(d: string) { |d| >= 11 && d[9] == '9' && d[10] >= '5' }

  lemma DroppedDigits(d: string)
    requires AllDigits(d)
    ensures RoundsUp(d) <==> Dropped(d) >= 9.5
    ensures |d| >= 10 && d[9] != '9' ==> Dropped(d) < 9.0
    ensures |d| == 10 ==> Dropped(d) <= 9.0
    ensures |d| >= 11 && d[9] == '9' ==>
      9.0 + DigitValue(d[10]) as real / 10.0 <= Dropped(d) < 9.1 + DigitValue(d[10]) as real / 10.0
  {
    if |d| >= 10 {
      var e := d[9..];
      LeadingDigit(e);
      assert e[0] == d[9];
      if |d| >= 11 {
        LeadingDigit(e[1..]);
        assert e[1..][0] == d[10];
      } else {
        assert e[1..] == [];
      }
    }
  }

  // ---------------------------------------------------------------- the rounding argument

  /** Three rounded operations are off by less than a thousandth of the tenth digit. */
  lemma RoundingError(f: real, sec: int, fl: real -> real)
    requires 0.0 <= f < 1.0 && 0 <= sec <= 61 && RoundsLikeDouble(fl)
    ensures Abs(TenthDigits(sec as real + f, sec, fl) - f * 10_000_000_000.0) <= 0.001
  {
  }

  lemma RoundThenDrop(whole: nat, rest: real, p: real, eps: real)
    requires 0.0 <= rest < 10.0 && 0.0 <= eps < 0.5
    requires Abs(p - (10.0 * whole as real + rest)) <= eps
    ensures whole <= Quot(Lround(p), 10) <= whole + 1
    ensures rest < 9.5 - eps ==> Quot(Lround(p), 10) == whole
    ensures rest >= 9.5 + eps ==> Quot(Lround(p), 10) == whole + 1
  {
    var m := Lround(p);
    assert m >= 0 && m as real - 0.5 <= p < m as real + 0.5;
    assert 10 * whole <= m <= 10 * whole + 10;
  }

  /**
    `n` is `whole` or one more: `whole` whenever there are at most ten digits, the tenth is not a
    nine or the eleventh is at most a three; one more once the tenth and eleventh are 96 or above.
   */
  ghost predicate Near(n: int, whole: int, d: string) {
    && whole <= n <= whole + 1
    && (|d| <= 10 || d[9] != '9' || d[10] <= '3' ==> n == whole)
    && (|d| >= 11 && d[9] == '9' && d[10] >= '6' ==> n == whole + 1)
  }

  lemma NearDropped(d: string, p: real)
    requires AllDigits(d) && Abs(p - (10.0 * Truncated(d) as real + Dropped(d))) <= 0.001
    ensures Near(Quot(Lround(p), 10), Truncated(d), d)
  {
    var rest := Dropped(d);
    DroppedDigits(d);
    assert 0.0 <= rest < 10.0 by { FractionParts(d); }
    RoundThenDrop(Truncated(d), rest, p, 0.001);
  }

  /** The nanoseconds of any fraction in double arithmetic are near its truncation. */
  lemma NanosOfFraction(d: string, sec: int, fl: real -> real)
    requires AllDigits(d) && 0 <= sec <= 61 && RoundsLikeDouble(fl)
    ensures Near(Nanos(sec as real + Fraction(d), sec, fl), Truncated(d), d)
  {
    FractionBelowOne(d);
    FractionParts(d);
    RoundingError(Fraction(d), sec, fl);
    NearDropped(d, TenthDigits(sec as real + Fraction(d), sec, fl));
  }

  /** Without rounding errors: the floor of a tenth of the nearest integer, and exactly when that is truncation. */
  lemma NanosWithoutError(d: string, sec: int)
    requires AllDigits(d)
    ensures var n := Nanos(sec as real + Fraction(d), sec, (x: real) => x);
      && n == (Fraction(d) * 10_000_000_000.0 + 0.5).Floor / 10
      && (n == Truncated(d) <==> !RoundsUp(d))
  {
    FractionBelowOne(d);
    FractionParts(d);
    DroppedDigits(d);
    RoundThenDrop(Truncated(d), Dropped(d), Fraction(d) * 10_000_000_000.0, 0.0);
  }

  // ---------------------------------------------------------------- the time a string denotes

  /** The time that the fields of `tm` and the fraction `d` denote when digits past the ninth are dropped. */
  function Denoted(tm: Tm, d: string): int
    requires 1 <= tm.date.month <= 12 && AllDigits(d)
  {
    BILLION * SecondsOf(tm) + Truncated(d)
  }

  lemma InstantDenotes(s: string, st: Stamp, host: Host)
    requires ProperStamp(s, st) && 1 <= st.tm.date.month <= 12 && 0 <= st.tm.second <= 61
    requires Value(s[st.end - 2..st.end]) == st.tm.second && RoundsLikeDouble(host.fl)
    ensures Near(Instant(s, st, host), Denoted(st.tm, FractionDigits(s, st)), FractionDigits(s, st))
  {
    var d, sec := FractionDigits(s, st), st.tm.second;
    var n := Nanos(sec as real + Fraction(d), sec, host.fl);
    assert Instant(s, st, host) == BILLION * SecondsOf(st.tm) + n by { OffsetIsEast(host); }
    NanosOfFraction(d, sec, host.fl);
    NearShifted(n, Truncated(d), d, BILLION * SecondsOf(st.tm));
  }

  lemma NearShifted(n: int, whole: int, d: string, base: int)
    requires Near(n, whole, d)
    ensures Near(base + n, base + whole, d)
  {
  }

  /** Every accepted string denotes its fields in UTC plus the nanoseconds of its fraction, on every host. */
  lemma FromStringDenotes(s: string, st: Stamp, host: Host)
    requires RoundsLikeDouble(host.fl) && Scan(s) == Some(st)
    ensures Near(FromString(s, host), Denoted(st.tm, FractionDigits(s, st)), FractionDigits(s, st))
  {
    SecondsTwice(s, st);
    InstantDenotes(s, st, host);
  }

  /** Ten nines and at least a six after the point name the next second. */
  lemma CarriesIntoNextSecond(s: string, st: Stamp, host: Host)
    requires RoundsLikeDouble(host.fl) && Scan(s) == Some(st)
    requires var d := FractionDigits(s, st);
      |d| >= 11 && (forall i :: 0 <= i < 10 ==> d[i] == '9') && d[10] >= '6'
    ensures FromString(s, host) == BILLION * (SecondsOf(st.tm) + 1)
  {
    var d := FractionDigits(s, st);
    TruncatedNines(d);
    FromStringDenotes(s, st, host);
  }

  lemma TruncatedNines(d: string)
    requires AllDigits(d) && |d| >= 9 && forall i :: 0 <= i < 9 ==> d[i] == '9'
    ensures Truncated(d) == BILLION - 1
  {
    Nines(d[..9]);
    assert Pow10(9) == BILLION;
  }

  lemma {:induction false} Nines(d: string)
    requires forall i :: 0 <= i < |d| ==> d[i] == '9'
    ensures AllDigits(d) && Value(d) == Pow10(|d|) - 1
    decreases |d|
  {
    if d != [] { Nines(d[..|d| - 1]); }
  }

  // ---------------------------------------------------------------- the grammar of the standard

  ghost predicate Group(s: string, i: nat, n: nat, v: int) {
    i + n <= |s| && AllDigits(s[i..i + n]) && Value(s[i..i + n]) == v
  }

  ghost predicate InRange(tm: Tm) {
    && 0 <= tm.date.year <= 9999 && 1 <= tm.date.month <= 12 && 1 <= tm.date.day <= 31
    && 0 <= tm.hour <= 23 && 0 <= tm.minute <= 59 && 0 <= tm.second <= 60
  }

  /** `date-time` of section 5.6 of RFC 3339 with the zone `Z`; `d` holds the digits of the fraction. */
  ghost predicate DateTime(s: string, tm: Tm, d: string) {
    && InRange(tm) && |s| >= 20
    && Group(s, 0, 4, tm.date.year) && s[4] == '-' && Group(s, 5, 2, tm.date.month) && s[7] == '-'
    && Group(s, 8, 2, tm.date.day) && s[10] == 'T' && Group(s, 11, 2, tm.hour) && s[13] == ':'
    && Group(s, 14, 2, tm.minute) && s[16] == ':' && Group(s, 17, 2, tm.second)
    && AllDigits(d) && s[19..] == (if d == [] then "Z" else "." + d + "Z")
  }

  lemma NextRead(s: string, i: nat, c: char, lo: nat, hi: nat, v: nat)
    requires i < |s| && s[i] == c && Group(s, i + 1, 2, v) && lo <= v <= hi
    ensures ReadNext(s, i, c, lo, hi) == Some(Number(v, i + 3))
  {
    FieldRead(s, i + 1, lo, hi, 2);
  }

  lemma StrptimeOfDateTime(s: string, tm: Tm, d: string)
    requires DateTime(s, tm, d)
    ensures Strptime(s) == Some(Scanned(tm, 19))
  {
    assert ReadField(s, 0, 0, 9999, 4) == Some(Number(tm.date.year, 4)) by { FieldRead(s, 0, 0, 9999, 4); }
    NextRead(s, 4, '-', 1, 12, tm.date.month);
    NextRead(s, 7, '-', 1, 31, tm.date.day);
    NextRead(s, 10, 'T', 0, 23, tm.hour);
    NextRead(s, 13, ':', 0, 59, tm.minute);
    NextRead(s, 16, ':', 0, 61, tm.second);
  }

  /** Every such string is accepted with the fields it shows. */
  lemma ScanOfDateTime(s: string, tm: Tm, d: string)
    requires DateTime(s, tm, d)
    ensures Scan(s) == Some(Stamp(tm, 19, |s| - 1)) && FractionDigits(s, Scan(s).value) == d
  {
    StrptimeOfDateTime(s, tm, d);
    var rest := s[19..];
    var z := |s| - 1;
    assert s[z] == rest[|rest| - 1];
    assert s[17] == s[17..19][0] && s[18] == s[17..19][1];
    if d != [] {
      assert s[19] == rest[0];
      assert s[20..z] == rest[1..|rest| - 1] == d;
      forall k | 19 < k < z
        ensures IsDigit(At(s, k))
      {
        assert s[k] == s[20..z][k - 20];
      }
    }
    assert Tail(s, 19, z);
    TailAccepted(s, Scanned(tm, 19), z);
  }

  // ---------------------------------------------------------------- the round trip

  /** Times the source can hold: 64-bit nanoseconds, not before the epoch. */
  const TIME_LIMIT := 0x8000_0000_0000_0000

  lemma {:induction false} FourDigits(y: nat)
    requires 1000 <= y <= 9999
    ensures Decimal(y) == Padded(y, 4)
  {
    assert Decimal(y / 1000) == [Digit(y / 1000)];
    assert y / 10 / 10 / 10 == y / 1000;
    assert |Decimal(y / 10 / 10)| >= 2;
    assert |Decimal(y / 10)| >= 3;
    assert |Decimal(y)| >= 4;
  }

  lemma GroupAt(s: string, i: nat, n: nat, w: nat)
    requires 1 <= w && n < Pow10(w) && i + w <= |s| && s[i..i + w] == Padded(n, w)
    ensures Group(s, i, w, n)
  {
    PaddedValue(n, w);
  }

  lemma PrintedIsDateTime(tm: Tm, ns: nat)
    requires InRange(tm) && tm.date.year >= 1000 && ns < BILLION
    ensures var d := Padded(ns, 9); DateTime(PrintSeconds(tm) + "." + d + "Z", tm, d) && |d| == 9
  {
    var c := tm.date;
    var d := Padded(ns, 9);
    assert Pow10(4) == 10000 && Pow10(2) == 100 && Pow10(9) == BILLION;
    assert Decimal(c.year) == Padded(c.year, 4) by { FourDigits(c.year); }
    var s := PrintSeconds(tm) + "." + d + "Z";
    var y, m, day, h, mi, sec :=
      Padded(c.year, 4), Padded(c.month, 2), Padded(c.day, 2),
      Padded(tm.hour, 2), Padded(tm.minute, 2), Padded(tm.second, 2);
    assert |y| == 4 && |m| == 2 && |day| == 2 && |h| == 2 && |mi| == 2 && |sec| == 2 by {
      PaddedValue(c.year, 4);
      PaddedValue(c.month, 2);
      PaddedValue(c.day, 2);
      PaddedValue(tm.hour, 2);
      PaddedValue(tm.minute, 2);
      PaddedValue(tm.second, 2);
    }
    PaddedValue(ns, 9);
    AppendThree(PrintSeconds(tm), ".", d, "Z");
    Layout(y, m, day, h, mi, sec, "." + d + "Z", s);
    GroupAt(s, 0, c.year, 4);
    GroupAt(s, 5, c.month, 2);
    GroupAt(s, 8, c.day, 2);
    GroupAt(s, 11, tm.hour, 2);
    GroupAt(s, 14, tm.minute, 2);
    GroupAt(s, 17, tm.second, 2);
  }

  /** Printing produces the standard's form, with the calendar's fields and nine digits. */
  lemma ToStringIsDateTime(t: nat)
    requires t < TIME_LIMIT
    ensures DateTime(ToString(t), GmTime(t / BILLION), Padded(t % BILLION, 9)) && |Padded(t % BILLION, 9)| == 9
  {
    SecondsOfGmTime(t / BILLION);
    FourDigitYear(t / BILLION / 86400);
    PrintedIsDateTime(GmTime(t / BILLION), t % BILLION);
  }

  lemma AppendThree(p: string, a: string, b: string, c: string)
    ensures p + a + b + c == p + (a + b + c)
  {
  }

  lemma Layout(y: string, m: string, d: string, h: string, mi: string, sec: string, rest: string, s: string)
    requires |y| == 4 && |m| == 2 && |d| == 2 && |h| == 2 && |mi| == 2 && |sec| == 2
    requires s == y + "-" + m + "-" + d + "T" + h + ":" + mi + ":" + sec + rest
    ensures |s| == 19 + |rest| && s[4] == '-' && s[7] == '-' && s[10] == 'T' && s[13] == ':' && s[16] == ':'
    ensures s[0..4] == y && s[5..7] == m && s[8..10] == d && s[11..13] == h && s[14..16] == mi && s[17..19] == sec
    ensures s[19..] == rest
  {
    var left, right := y + "-" + m + "-" + d + "T", h + ":" + mi + ":" + sec;
    assert s == left + right + rest && |left| == 11 && |right| == 8;
    assert left[0..4] == y && left[5..7] == m && left[8..10] == d;
    assert right[0..2] == h && right[3..5] == mi && right[6..8] == sec;
    forall i, j | 0 <= i <= j <= 11 ensures s[i..j] == left[i..j] {}
    forall i, j | 0 <= i <= j <= 8 ensures s[11 + i..11 + j] == right[i..j] {}
    assert s[11 + 0..11 + 2] == h && s[11 + 3..11 + 5] == mi && s[11 + 6..11 + 8] == sec;
  }

  /** A string of the standard's form denotes its fields and fraction. */
  lemma DateTimeDenotes(s: string, tm: Tm, d: string, host: Host)
    requires DateTime(s, tm, d) && RoundsLikeDouble(host.fl)
    ensures Near(FromString(s, host), Denoted(tm, d), d)
  {
    ScanOfDateTime(s, tm, d);
    FromStringDenotes(s, Stamp(tm, 19, |s| - 1), host);
  }

  /** Parsing undoes printing, for every time, offset, start of the program and rounding of doubles. */
  lemma RoundTrip(t: nat, host: Host)
    requires t < TIME_LIMIT && RoundsLikeDouble(host.fl)
    ensures FromString(ToString(t), host) == t
  {
    var d := Padded(t % BILLION, 9);
    ToStringIsDateTime(t);
    DateTimeDenotes(ToString(t), GmTime(t / BILLION), d, host);
    SecondsOfGmTime(t / BILLION);
    PaddedValue(t % BILLION, 9) by { assert Pow10(9) == BILLION; }
    assert d[..9] == d;
  }
}
