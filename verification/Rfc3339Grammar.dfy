/**
  Which strings `FromString` accepts (src/time.cc), told without the parser: the fields of `strptime`
  are spaces and then as many digits as their width and their range allow.
 */
module Rfc3339Grammar {
  import opened Wrappers
  import opened Rfc3339

  /** Spaces from `i` to `j`, then the digits of `v`, ending at `next` and not before. */
  ghost predicate FieldAt(s: string, i: nat, j: nat, lo: nat, hi: nat, width: nat, v: int, next: nat) {
    && i <= j < next <= |s| && next <= j + width
    && (forall k :: i <= k < j ==> IsSpace(s[k]))
    && AllDigits(s[j..next]) && v == Value(s[j..next]) && lo <= v <= hi
    && Maximal(s, j, hi, width, next) && NotEarlier(s, j, hi, next)
  }

  /** The width is used up, no digit follows, or one more digit could only exceed the range. */
  ghost predicate Maximal(s: string, j: nat, hi: nat, width: nat, next: nat)
    requires j < next <= |s| && AllDigits(s[j..next])
  {
    next == j + width || !IsDigit(At(s, next)) || 10 * Value(s[j..next]) > hi
  }

  ghost predicate NotEarlier(s: string, j: nat, hi: nat, next: nat)
    requires j < next <= |s|
  {
    forall m :: j < m < next ==> GoesOn(s, j, m, hi)
  }

  ghost predicate GoesOn(s: string, j: nat, m: nat, hi: nat)
    requires j < m <= |s|
  {
    AllDigits(s[j..m]) && 10 * Value(s[j..m]) <= hi
  }

  ghost predicate IsField(s: string, i: nat, lo: nat, hi: nat, width: nat, v: int, next: nat) {
    exists j: nat :: FieldAt(s, i, j, lo, hi, width, v, next)
  }

  /** The digits from `start` to `next` are read, and reading stops there and not before. */
  ghost predicate StopsAt(s: string, start: nat, hi: nat, width: nat, r: Number) {
    && start < r.next <= |s| && r.next <= start + width
    && AllDigits(s[start..r.next]) && r.value == Value(s[start..r.next])
    && Maximal(s, start, hi, width, r.next) && NotEarlier(s, start, hi, r.next)
  }

  /** What the digit reader does, from the digits `s[start..i]` already read. */
  lemma {:induction false} DigitsRead(s: string, start: nat, i: nat, v: nat, hi: nat, width: nat, n: nat)
    requires start <= i < |s| && IsDigit(s[i]) && n >= 1 && width == i + n - start
    requires AllDigits(s[start..i]) && v == Value(s[start..i])
    requires forall m :: start < m <= i ==> GoesOn(s, start, m, hi)
    ensures StopsAt(s, start, hi, width, ReadDigits(s, i, v, hi, n))
    decreases n
  {
    DigitAppended(s, start, i);
    var v' := Value(s[start..i + 1]);
    if n > 1 && 10 * v' <= hi && IsDigit(At(s, i + 1)) {
      assert GoesOn(s, start, i + 1, hi);
      DigitsRead(s, start, i + 1, v', hi, width, n - 1);
    } else {
      assert ReadDigits(s, i, v, hi, n) == Number(v', i + 1);
    }
  }

  lemma DigitAppended(s: string, start: nat, i: nat)
    requires start <= i < |s| && IsDigit(s[i]) && AllDigits(s[start..i])
    ensures AllDigits(s[start..i + 1]) && Value(s[start..i + 1]) == 10 * Value(s[start..i]) + DigitValue(s[i])
  {
    assert s[start..i + 1] == s[start..i] + [s[i]];
    ValueSnoc(s, start, i);
  }

  lemma NotLess(s: string, start: nat, hi: nat, width: nat, r: Number, t: Number)
    requires StopsAt(s, start, hi, width, r) && StopsAt(s, start, hi, width, t)
    ensures r.next >= t.next
  {
    assert r.next < t.next ==> GoesOn(s, start, r.next, hi);
  }

  lemma {:induction false} SpacesSkipped(s: string, i: nat, j: nat)
    requires i <= j < |s| && !IsSpace(s[j]) && forall k :: i <= k < j ==> IsSpace(s[k])
    ensures SkipSpaces(s, i) == j
    decreases j - i
  {
    if i < j { SpacesSkipped(s, i + 1, j); }
  }

  /** The reader of a numeric field reads exactly such fields. */
  lemma FieldIff(s: string, i: nat, lo: nat, hi: nat, width: nat, v: nat, next: nat)
    requires width >= 1
    ensures ReadField(s, i, lo, hi, width) == Some(Number(v, next)) <==> IsField(s, i, lo, hi, width, v, next)
  {
    var j := SkipSpaces(s, i);
    SpacesBefore(s, i);
    if j < |s| && IsDigit(s[j]) {
      assert s[j..j] == [];
      DigitsRead(s, j, j, 0, hi, width, width);
      var r := ReadDigits(s, j, 0, hi, width);
      forall k | i <= k < j ensures IsSpace(s[k]) { assert IsSpace(At(s, k)); }
      if lo <= r.value <= hi { assert FieldAt(s, i, j, lo, hi, width, r.value, r.next); }
    }
    if j': nat :| FieldAt(s, i, j', lo, hi, width, v, next) {
      FieldIsRead(s, i, j', lo, hi, width, v, next);
    }
  }

  lemma FieldIsRead(s: string, i: nat, j: nat, lo: nat, hi: nat, width: nat, v: nat, next: nat)
    requires width >= 1 && FieldAt(s, i, j, lo, hi, width, v, next)
    ensures ReadField(s, i, lo, hi, width) == Some(Number(v, next))
  {
    assert s[j] == s[j..next][0];
    SpacesSkipped(s, i, j);
    assert s[j..j] == [];
    DigitsRead(s, j, j, 0, hi, width, width);
    var r := ReadDigits(s, j, 0, hi, width);
    NotLess(s, j, hi, width, r, Number(v, next));
    NotLess(s, j, hi, width, Number(v, next), r);
  }

  // ---------------------------------------------------------------- the whole string

  /** A separator and then a field of two digits at most. */
  ghost predicate IsNext(s: string, i: nat, c: char, lo: nat, hi: nat, v: int, next: nat) {
    At(s, i) == c && IsField(s, i + 1, lo, hi, 2, v, next)
  }

  ghost predicate DateForm(s: string, c: Date, p: nat, q: nat, end: nat) {
    && IsField(s, 0, 0, 9999, 4, c.year, p)
    && IsNext(s, p, '-', 1, 12, c.month, q)
    && IsNext(s, q, '-', 1, 31, c.day, end)
  }

  ghost predicate ClockForm(s: string, at: nat, tm: Tm, p: nat, q: nat, end: nat) {
    && IsNext(s, at, 'T', 0, 23, tm.hour, p)
    && IsNext(s, p, ':', 0, 59, tm.minute, q)
    && IsNext(s, q, ':', 0, 61, tm.second, end)
  }

  lemma NextIff(s: string, i: nat, c: char, lo: nat, hi: nat, v: nat, next: nat)
    ensures ReadNext(s, i, c, lo, hi) == Some(Number(v, next)) <==> IsNext(s, i, c, lo, hi, v, next)
  {
    FieldIff(s, i + 1, lo, hi, 2, v, next);
  }

  lemma DateIff(s: string, c: Date, end: nat)
    ensures ReadDate(s) == Some(Dated(c, end)) <==> exists p: nat, q: nat :: DateForm(s, c, p, q, end)
  {
    if ReadDate(s) == Some(Dated(c, end)) {
      var y := ReadField(s, 0, 0, 9999, 4).value;
      var m := ReadNext(s, y.next, '-', 1, 12).value;
      FieldIff(s, 0, 0, 9999, 4, y.value, y.next);
      NextIff(s, y.next, '-', 1, 12, m.value, m.next);
      NextIff(s, m.next, '-', 1, 31, c.day, end);
      assert DateForm(s, c, y.next, m.next, end);
    }
    if p: nat, q: nat :| DateForm(s, c, p, q, end) {
      FieldIff(s, 0, 0, 9999, 4, c.year, p);
      NextIff(s, p, '-', 1, 12, c.month, q);
      NextIff(s, q, '-', 1, 31, c.day, end);
    }
  }

  lemma ClockIff(s: string, d: Dated, tm: Tm, end: nat)
    ensures ReadClock(s, d) == Some(Scanned(tm, end)) <==>
      tm.date == d.date && exists p: nat, q: nat :: ClockForm(s, d.next, tm, p, q, end)
  {
    if ReadClock(s, d) == Some(Scanned(tm, end)) {
      var h := ReadNext(s, d.next, 'T', 0, 23).value;
      var mi := ReadNext(s, h.next, ':', 0, 59).value;
      NextIff(s, d.next, 'T', 0, 23, h.value, h.next);
      NextIff(s, h.next, ':', 0, 59, mi.value, mi.next);
      NextIff(s, mi.next, ':', 0, 61, tm.second, end);
      assert ClockForm(s, d.next, tm, h.next, mi.next, end);
    }
    if p: nat, q: nat :| ClockForm(s, d.next, tm, p, q, end) {
      NextIff(s, d.next, 'T', 0, 23, tm.hour, p);
      NextIff(s, p, ':', 0, 59, tm.minute, q);
      NextIff(s, q, ':', 0, 61, tm.second, end);
    }
  }

  /** Date and time of day, ending at `end`. */
  ghost predicate DateAndTime(s: string, tm: Tm, mid: nat, end: nat) {
    && (exists p: nat, q: nat :: DateForm(s, tm.date, p, q, mid))
    && (exists p: nat, q: nat :: ClockForm(s, mid, tm, p, q, end))
  }

  /** What `strptime` makes of a string, and when it gives up. */
  lemma StrptimeIff(s: string, tm: Tm, end: nat)
    ensures Strptime(s) == Some(Scanned(tm, end)) <==> exists mid: nat :: DateAndTime(s, tm, mid, end)
  {
    if Strptime(s) == Some(Scanned(tm, end)) {
      var d := ReadDate(s).value;
      DateIff(s, d.date, d.next);
      ClockIff(s, d, tm, end);
      assert DateAndTime(s, tm, d.next, end);
    }
    if mid: nat :| DateAndTime(s, tm, mid, end) {
      DateIff(s, tm.date, mid);
      ClockIff(s, Dated(tm.date, mid), tm, end);
    }
  }

  /** The form of an accepted string: date and time, seconds of two digits, a fraction or none, `Z`, the end. */
  ghost predicate AcceptedForm(s: string, st: Stamp) {
    && (exists mid: nat :: DateAndTime(s, st.tm, mid, st.end))
    && st.end >= 2 && IsDigit(At(s, st.end - 2)) && Tail(s, st.end, st.zone)
  }

  lemma ScanIff(s: string, st: Stamp)
    ensures Scan(s) == Some(st) <==> AcceptedForm(s, st)
  {
    AcceptedIff(s);
    StrptimeIff(s, st.tm, st.end);
    if AcceptedForm(s, st) {
      TailUnique(s, st.end, st.zone, Scan(s).value.zone);
    }
  }

  /** A string of any other form yields the epoch, and one of this form the time it denotes. */
  lemma FromStringByForm(s: string, host: Host)
    requires RoundsLikeDouble(host.fl)
    ensures (forall st :: !AcceptedForm(s, st)) ==> FromString(s, host) == 0
    ensures forall st :: AcceptedForm(s, st) ==>
      && ProperStamp(s, st) && 1 <= st.tm.date.month <= 12
      && Near(FromString(s, host), Denoted(st.tm, FractionDigits(s, st)), FractionDigits(s, st))
  {
    if Scan(s).Some? { ScanIff(s, Scan(s).value); }
    forall st | AcceptedForm(s, st)
      ensures ProperStamp(s, st) && 1 <= st.tm.date.month <= 12
      ensures Near(FromString(s, host), Denoted(st.tm, FractionDigits(s, st)), FractionDigits(s, st))
    {
      ScanIff(s, st);
      FromStringDenotes(s, st, host);
    }
  }
}
