/**
  Snapshot ids are UTC timestamps printed by `isoformat()` and compared byte by byte, in SQL and in
  Python. The fraction is omitted when it is zero, so ids have two lengths.
 */
module IsoTime {
  import opened Decimals
  import opened Wrappers

  /** A UTC datetime: year, month, day, hour, minute and second, and the microsecond. */
  datatype DateTime = DateTime(year: nat, month: nat, day: nat, hour: nat, minute: nat, second: nat, micro: nat)

  predicate IsLeap(year: nat) {
    year % 4 == 0 && (year % 100 != 0 || year % 400 == 0)
  }

  function DaysInMonth(year: nat, month: nat): nat {
    if month == 2 then if IsLeap(year) then 29 else 28
    else if month in {4, 6, 9, 11} then 30
    else 31
  }

  predicate Valid(t: DateTime) {
    && 1 <= t.year <= 9999 && 1 <= t.month <= 12 && 1 <= t.day <= DaysInMonth(t.year, t.month)
    && t.hour < 24 && t.minute < 60 && t.second < 60 && t.micro < 1000000
  }

  /** Chronological order. */
  predicate Earlier(a: DateTime, b: DateTime) {
    || a.year < b.year
    || (a.year == b.year && (a.month < b.month
    || (a.month == b.month && (a.day < b.day
    || (a.day == b.day && (a.hour < b.hour
    || (a.hour == b.hour && (a.minute < b.minute
    || (a.minute == b.minute && (a.second < b.second
    || (a.second == b.second && a.micro < b.micro)))))))))))
  }

  // ------------------------------------------------------------------
  // Byte order

  /** Byte order of strings: the order of SQL comparisons and of `sorted`. */
  predicate ByteLess(a: string, b: string) {
    b != "" && (a == "" || a[0] < b[0] || (a[0] == b[0] && ByteLess(a[1..], b[1..])))
  }

  lemma {:induction false} ByteLessConcat(a: string, b: string, x: string, y: string)
    requires |a| == |b|
    ensures ByteLess(a + x, b + y) <==> ByteLess(a, b) || (a == b && ByteLess(x, y))
  {
    if a == "" {
      assert a + x == x && b + y == y;
    } else {
      ByteLessConcat(a[1..], b[1..], x, y);
      assert (a + x)[1..] == a[1..] + x && (b + y)[1..] == b[1..] + y;
      assert a == [a[0]] + a[1..] && b == [b[0]] + b[1..];
    }
  }

  lemma {:induction false} ByteLessIrreflexive(a: string)
    ensures !ByteLess(a, a)
  {
    if a != "" {
      ByteLessIrreflexive(a[1..]);
    }
  }

  lemma {:induction false} ByteLessTransitive(a: string, b: string, c: string)
    requires ByteLess(a, b) && ByteLess(b, c)
    ensures ByteLess(a, c)
  {
    if a != "" && a[0] == b[0] && b[0] == c[0] {
      ByteLessTransitive(a[1..], b[1..], c[1..]);
    }
  }

  lemma {:induction false} ByteLessTotal(a: string, b: string)
    ensures a == b || ByteLess(a, b) || ByteLess(b, a)
  {
    if a != "" && b != "" && a[0] == b[0] {
      ByteLessTotal(a[1..], b[1..]);
      assert a == [a[0]] + a[1..] && b == [b[0]] + b[1..];
    }
  }

  lemma {:induction false} PadOrder(n: nat, m: nat, w: nat)
    requires n < Pow10(w) && m < Pow10(w)
    ensures ByteLess(Pad(n, w), Pad(m, w)) <==> n < m
    ensures Pad(n, w) == Pad(m, w) <==> n == m
  {
    if w > 0 {
      PadOrder(n / 10, m / 10, w - 1);
      var a, b := [Digit(n % 10)], [Digit(m % 10)];
      ByteLessConcat(Pad(n / 10, w - 1), Pad(m / 10, w - 1), a, b);
      assert a[1..] == "" && b[1..] == "";
      NumeralOfPad(n, w);
      NumeralOfPad(m, w);
    }
  }

  // ------------------------------------------------------------------
  // isoformat

  const WIDTH: seq<nat> := [4, 2, 2, 2, 2, 2]
  const SEPARATOR: seq<string> := ["", "-", "-", "T", ":", ":"]

  function Fields(t: DateTime): seq<nat> {
    [t.year, t.month, t.day, t.hour, t.minute, t.second]
  }

  predicate InWidth(fields: seq<nat>) {
    |fields| == 6 && forall i :: 0 <= i < 6 ==> fields[i] < Pow10(WIDTH[i])
  }

  function Render(fields: seq<nat>, i: nat): string
    requires InWidth(fields) && i <= 6
    decreases 6 - i
  {
    if i == 6 then "" else SEPARATOR[i] + Pad(fields[i], WIDTH[i]) + Render(fields, i + 1)
  }

  function Fraction(micro: nat): string
    requires micro < 1000000
  {
    if micro == 0 then "" else assert Pow10(6) == 1000000; "." + Pad(micro, 6)
  }

  lemma ValidWidths(t: DateTime)
    requires Valid(t)
    ensures InWidth(Fields(t))
  {
    assert Pow10(4) == 10000 && Pow10(2) == 100;
  }

  function Iso(t: DateTime): string
    requires Valid(t)
  {
    ValidWidths(t);
    Render(Fields(t), 0) + (Fraction(t.micro) + "+00:00")
  }

  /** The printed form: four digits and two, with `-`, `T` and `:`, the six digits of the fraction if it
      is not zero, and the offset. */
  lemma IsoText(t: DateTime)
    requires Valid(t)
    ensures t.year < Pow10(4) && t.month < Pow10(2) && t.day < Pow10(2) && t.hour < Pow10(2)
            && t.minute < Pow10(2) && t.second < Pow10(2) && t.micro < Pow10(6)
    ensures Iso(t) == Pad(t.year, 4) + ("-" + Pad(t.month, 2) + ("-" + Pad(t.day, 2)
                      + ("T" + Pad(t.hour, 2) + (":" + Pad(t.minute, 2) + (":" + Pad(t.second, 2)
                      + ((if t.micro == 0 then "" else "." + Pad(t.micro, 6)) + "+00:00"))))))
  {
    ValidWidths(t);
    assert Pow10(2) == 100 && Pow10(4) == 10000 && Pow10(6) == 1000000;
    var f, x := Fields(t), Fraction(t.micro) + "+00:00";
    var second := RenderNext(f, 5, x, x);
    var minute := RenderNext(f, 4, x, second);
    var hour := RenderNext(f, 3, x, minute);
    var day := RenderNext(f, 2, x, hour);
    var month := RenderNext(f, 1, x, day);
    var year := RenderNext(f, 0, x, month);
    assert "" + Pad(t.year, 4) == Pad(t.year, 4);
  }

  lemma RenderNext(f: seq<nat>, i: nat, x: string, rest: string) returns (text: string)
    requires InWidth(f) && i < 6 && rest == Render(f, i + 1) + x
    ensures text == Render(f, i) + x == SEPARATOR[i] + Pad(f[i], WIDTH[i]) + rest
  {
    RenderUnfold(f, i, x);
    text := Render(f, i) + x;
  }

  /** Lexicographic order of the fields from `i` on. */
  predicate FieldsLess(f: seq<nat>, g: seq<nat>, i: nat)
    requires |f| == |g| == 6 && i <= 6
    decreases 6 - i
  {
    i < 6 && (f[i] < g[i] || (f[i] == g[i] && FieldsLess(f, g, i + 1)))
  }

  lemma SegmentOrder(sep: string, a: string, b: string, x: string, y: string)
    requires |a| == |b|
    ensures ByteLess(sep + a + x, sep + b + y) <==> ByteLess(a, b) || (a == b && ByteLess(x, y))
  {
    ByteLessConcat(a, b, x, y);
    ByteLessConcat(sep, sep, a + x, b + y);
    ByteLessIrreflexive(sep);
    assert sep + a + x == sep + (a + x) && sep + b + y == sep + (b + y);
  }

  lemma RenderUnfold(f: seq<nat>, i: nat, x: string)
    requires InWidth(f) && i < 6
    ensures Render(f, i) + x == SEPARATOR[i] + Pad(f[i], WIDTH[i]) + (Render(f, i + 1) + x)
    ensures |Render(f, i)| == |SEPARATOR[i]| + WIDTH[i] + |Render(f, i + 1)|
  {
  }

  lemma TailEqual(f: seq<nat>, g: seq<nat>, i: nat)
    requires |f| == |g| == 6 && i < 6
    ensures f[i..] == g[i..] <==> f[i] == g[i] && f[i + 1..] == g[i + 1..]
  {
    assert f[i..] == [f[i]] + f[i + 1..] && g[i..] == [g[i]] + g[i + 1..];
  }

  lemma {:induction false} RenderOrder(f: seq<nat>, g: seq<nat>, i: nat, x: string, y: string)
    requires InWidth(f) && InWidth(g) && i <= 6
    ensures |Render(f, i)| == |Render(g, i)|
    ensures ByteLess(Render(f, i) + x, Render(g, i) + y) <==>
            FieldsLess(f, g, i) || (f[i..] == g[i..] && ByteLess(x, y))
    decreases 6 - i
  {
    if i == 6 {
      assert Render(f, i) + x == x && Render(g, i) + y == y;
    } else {
      RenderOrder(f, g, i + 1, x, y);
      RenderUnfold(f, i, x);
      RenderUnfold(g, i, y);
      TailEqual(f, g, i);
      OneField(f[i], g[i], WIDTH[i], SEPARATOR[i], Render(f, i + 1) + x, Render(g, i + 1) + y);
    }
  }

  lemma OneField(n: nat, m: nat, w: nat, sep: string, x: string, y: string)
    requires n < Pow10(w) && m < Pow10(w)
    ensures ByteLess(sep + Pad(n, w) + x, sep + Pad(m, w) + y) <==> n < m || (n == m && ByteLess(x, y))
  {
    PadOrder(n, m, w);
    SegmentOrder(sep, Pad(n, w), Pad(m, w), x, y);
  }

  lemma FractionOrder(n: nat, m: nat)
    requires n < 1000000 && m < 1000000
    ensures ByteLess(Fraction(n) + "+00:00", Fraction(m) + "+00:00") <==> n < m
  {
    assert Pow10(6) == 1000000;
    ByteLessIrreflexive("+00:00");
    var x, y := Fraction(n) + "+00:00", Fraction(m) + "+00:00";
    if n != 0 && m != 0 {
      PadOrder(n, m, 6);
      ByteLessConcat(Pad(n, 6), Pad(m, 6), "+00:00", "+00:00");
      assert x[1..] == Pad(n, 6) + "+00:00" && y[1..] == Pad(m, 6) + "+00:00";
    } else {
      assert "" + "+00:00" == "+00:00";
      assert x[0] == (if n == 0 then '+' else '.') && y[0] == (if m == 0 then '+' else '.');
    }
  }

  /** For UTC datetimes, byte order of the printed form is chronological order, although the
      fraction is left out at microsecond 0. */
  lemma IsoSortsAsTime(a: DateTime, b: DateTime)
    requires Valid(a) && Valid(b)
    ensures ByteLess(Iso(a), Iso(b)) <==> Earlier(a, b)
  {
    ValidWidths(a);
    ValidWidths(b);
    var f, g := Fields(a), Fields(b);
    RenderOrder(f, g, 0, Fraction(a.micro) + "+00:00", Fraction(b.micro) + "+00:00");
    FractionOrder(a.micro, b.micro);
    assert f[0..] == f && g[0..] == g;
    UnfoldFieldsLess(f, g);
  }

  lemma UnfoldFieldsLess(f: seq<nat>, g: seq<nat>)
    requires |f| == |g| == 6
    ensures FieldsLess(f, g, 0) <==>
            || f[0] < g[0]
            || (f[0] == g[0] && (f[1] < g[1]
            || (f[1] == g[1] && (f[2] < g[2]
            || (f[2] == g[2] && (f[3] < g[3]
            || (f[3] == g[3] && (f[4] < g[4]
            || (f[4] == g[4] && f[5] < g[5])))))))))
    ensures f == g <==> f[0] == g[0] && f[1] == g[1] && f[2] == g[2] && f[3] == g[3] && f[4] == g[4] && f[5] == g[5]
  {
    assert FieldsLess(f, g, 4) <==> f[4] < g[4] || (f[4] == g[4] && f[5] < g[5]);
    assert FieldsLess(f, g, 2) <==>
           f[2] < g[2] || (f[2] == g[2] && (f[3] < g[3] || (f[3] == g[3] && FieldsLess(f, g, 4))));
  }

  // ------------------------------------------------------------------
  // fromisoformat, on what isoformat prints

  function NumberAt(s: string, from: nat, len: nat): Option<nat> {
    if from + len <= |s| && AllDigits(s[from..from + len]) then Some(Numeral(s[from..from + len])) else None
  }

  function ParseIso(s: string): Option<DateTime> {
    var y, mo, d := NumberAt(s, 0, 4), NumberAt(s, 5, 2), NumberAt(s, 8, 2);
    var h, mi, sec := NumberAt(s, 11, 2), NumberAt(s, 14, 2), NumberAt(s, 17, 2);
    var us := if |s| == 25 then Some(0) else NumberAt(s, 20, 6);
    if y.Some? && mo.Some? && d.Some? && h.Some? && mi.Some? && sec.Some? && us.Some? && |s| in {25, 32} then
      Some(DateTime(y.value, mo.value, d.value, h.value, mi.value, sec.value, us.value))
    else None
  }

  lemma Segment(s: string, k: nat, sep: string, p: string, rest: string)
    requires k <= |s| && s[k..] == sep + p + rest
    ensures var from := k + |sep|;
            from + |p| <= |s| && s[from..from + |p|] == p && s[from + |p|..] == rest
  {
    assert |s| == k + |s[k..]|;
    assert forall j :: k <= j < |s| ==> s[j] == s[k..][j - k];
  }

  lemma RenderField(s: string, k: nat, f: seq<nat>, i: nat, x: string)
    requires InWidth(f) && i < 6 && k <= |s| && s[k..] == Render(f, i) + x
    ensures var from := k + |SEPARATOR[i]|;
            && NumberAt(s, from, WIDTH[i]) == Some(f[i])
            && from + WIDTH[i] <= |s| && s[from + WIDTH[i]..] == Render(f, i + 1) + x
  {
    RenderUnfold(f, i, x);
    NumberSegment(s, k, SEPARATOR[i], f[i], WIDTH[i], Render(f, i + 1) + x);
  }

  lemma NumberSegment(s: string, k: nat, sep: string, n: nat, w: nat, rest: string)
    requires n < Pow10(w) && k <= |s| && s[k..] == sep + Pad(n, w) + rest
    ensures var from := k + |sep|;
            NumberAt(s, from, w) == Some(n) && from + w <= |s| && s[from + w..] == rest
  {
    Segment(s, k, sep, Pad(n, w), rest);
    NumeralOfPad(n, w);
  }

  lemma FractionField(s: string, micro: nat)
    requires micro < 1000000 && |s| >= 19 && s[19..] == Fraction(micro) + "+00:00"
    ensures |s| == if micro == 0 then 25 else 32
    ensures micro != 0 ==> NumberAt(s, 20, 6) == Some(micro)
  {
    assert Pow10(6) == 1000000;
    if micro != 0 {
      assert s[20..26] == Pad(micro, 6);
      NumeralOfPad(micro, 6);
    }
  }

  /** Parsing undoes printing. */
  lemma ParseUndoesPrint(t: DateTime)
    requires Valid(t)
    ensures ParseIso(Iso(t)) == Some(t)
  {
    ValidWidths(t);
    var f, s, x := Fields(t), Iso(t), Fraction(t.micro) + "+00:00";
    assert s[0..] == s;
    RenderField(s, 0, f, 0, x);
    RenderField(s, 4, f, 1, x);
    RenderField(s, 7, f, 2, x);
    RenderField(s, 10, f, 3, x);
    RenderField(s, 13, f, 4, x);
    RenderField(s, 16, f, 5, x);
    assert Render(f, 6) + x == x;
    FractionField(s, t.micro);
  }

  // ------------------------------------------------------------------
  // One microsecond later

  function NextDay(t: DateTime): Option<DateTime> {
    if t.day < DaysInMonth(t.year, t.month) then Some(t.(day := t.day + 1))
    else if t.month < 12 then Some(t.(month := t.month + 1, day := 1))
    else if t.year < 9999 then Some(t.(year := t.year + 1, month := 1, day := 1))
    else None
  }

  /** `t + timedelta(microseconds=1)`; None is the overflow after the last microsecond of 9999. */
  function NextMicro(t: DateTime): Option<DateTime> {
    if t.micro < 999999 then Some(t.(micro := t.micro + 1))
    else if t.second < 59 then Some(t.(second := t.second + 1, micro := 0))
    else if t.minute < 59 then Some(t.(minute := t.minute + 1, second := 0, micro := 0))
    else if t.hour < 23 then Some(t.(hour := t.hour + 1, minute := 0, second := 0, micro := 0))
    else NextDay(t.(hour := 0, minute := 0, second := 0, micro := 0))
  }

  /** The next microsecond is later, and there is no datetime in between. */
  lemma NextMicroIsNext(t: DateTime, u: DateTime)
    requires Valid(t) && NextMicro(t).Some? && Valid(u)
    ensures Valid(NextMicro(t).value) && Earlier(t, NextMicro(t).value)
    ensures !(Earlier(t, u) && Earlier(u, NextMicro(t).value))
  {
  }

  // ------------------------------------------------------------------
  // Whole days earlier

  function PreviousDay(t: DateTime): Option<DateTime> {
    if t.day > 1 then Some(t.(day := t.day - 1))
    else if t.month > 1 then Some(t.(month := t.month - 1, day := DaysInMonth(t.year, t.month - 1)))
    else if t.year > 1 then Some(t.(year := t.year - 1, month := 12, day := 31))
    else None
  }

  /** `t - timedelta(days=n)`; None is the overflow before year 1. */
  function DaysBefore(t: DateTime, n: nat): Option<DateTime>
    decreases n
  {
    if n == 0 then Some(t)
    else match PreviousDay(t)
      case None => None
      case Some(p) => DaysBefore(p, n - 1)
  }

  lemma {:induction false} DaysBeforeIsEarlier(t: DateTime, n: nat)
    requires Valid(t) && DaysBefore(t, n).Some?
    ensures Valid(DaysBefore(t, n).value)
    ensures n > 0 ==> Earlier(DaysBefore(t, n).value, t)
    decreases n
  {
    if n > 0 {
      DaysBeforeIsEarlier(PreviousDay(t).value, n - 1);
    }
  }

  /** Days of `year` before `month`. */
  function BeforeMonth(year: nat, month: nat): nat {
    if month <= 1 then 0 else BeforeMonth(year, month - 1) + DaysInMonth(year, month - 1)
  }

  function BeforeYear(year: nat): nat {
    if year <= 1 then 0 else BeforeYear(year - 1) + (if IsLeap(year - 1) then 366 else 365)
  }

  /** The number of the day, counting from 1 January of year 1. */
  function Ordinal(t: DateTime): nat {
    BeforeYear(t.year) + BeforeMonth(t.year, t.month) + t.day
  }

  function TimeOfDay(t: DateTime): (nat, nat, nat, nat) {
    (t.hour, t.minute, t.second, t.micro)
  }

  lemma YearLength(year: nat)
    ensures BeforeMonth(year, 12) + 31 == if IsLeap(year) then 366 else 365
  {
    var feb := DaysInMonth(year, 2);
    assert BeforeMonth(year, 2) == 31 && BeforeMonth(year, 3) == 31 + feb;
    assert BeforeMonth(year, 4) == 62 + feb && BeforeMonth(year, 5) == 92 + feb;
    assert BeforeMonth(year, 6) == 123 + feb && BeforeMonth(year, 7) == 153 + feb;
    assert BeforeMonth(year, 8) == 184 + feb && BeforeMonth(year, 9) == 215 + feb;
    assert BeforeMonth(year, 10) == 245 + feb && BeforeMonth(year, 11) == 276 + feb;
  }

  lemma PreviousDayIsAdjacent(t: DateTime)
    requires Valid(t)
    ensures PreviousDay(t).None? <==> Ordinal(t) == 1
    ensures PreviousDay(t).Some? ==>
              Ordinal(PreviousDay(t).value) == Ordinal(t) - 1 && TimeOfDay(PreviousDay(t).value) == TimeOfDay(t)
  {
    if t.day == 1 && t.month == 1 && t.year > 1 {
      YearLength(t.year - 1);
    }
    if t.day == 1 && t.month > 1 {
      assert BeforeMonth(t.year, t.month) == BeforeMonth(t.year, t.month - 1) + DaysInMonth(t.year, t.month - 1);
    }
  }

  lemma FoursUpTo(n: nat)
    ensures (n + 1) / 4 == n / 4 + (if (n + 1) % 4 == 0 then 1 else 0)
  {
  }

  lemma HundredsUpTo(n: nat)
    ensures (n + 1) / 100 == n / 100 + (if (n + 1) % 100 == 0 then 1 else 0)
    ensures (n + 1) % 100 == 0 ==> (n + 1) % 4 == 0
  {
  }

  lemma FourHundredsUpTo(n: nat)
    ensures (n + 1) / 400 == n / 400 + (if (n + 1) % 400 == 0 then 1 else 0)
    ensures (n + 1) % 400 == 0 ==> (n + 1) % 100 == 0
  {
  }

  /** The days before a year, in closed form: the Gregorian leap-year rule over all years before it. */
  lemma {:induction false} BeforeYearIsGregorian(year: nat)
    requires year >= 1
    ensures BeforeYear(year) == 365 * (year - 1) + (year - 1) / 4 - (year - 1) / 100 + (year - 1) / 400
    decreases year
  {
    if year > 1 {
      BeforeYearIsGregorian(year - 1);
      FoursUpTo(year - 2);
      HundredsUpTo(year - 2);
      FourHundredsUpTo(year - 2);
    }
  }

  /** 29 February exists in 2028 and 2000, and not in 2027 or 2100. */
  lemma KnownLeapDays(t: DateTime)
    requires t.month == 2 && t.day == 29 && t.hour < 24 && t.minute < 60 && t.second < 60 && t.micro < 1000000
    ensures t.year == 2028 || t.year == 2000 ==> Valid(t)
    ensures t.year == 2027 || t.year == 2100 ==> !Valid(t)
  {
  }

  /** The numbers of the first day of 1970, of the leap day of 2024 and of the last day of 2000. */
  lemma KnownOrdinals(t: DateTime)
    ensures t.year == 1970 && t.month == 1 && t.day == 1 ==> Ordinal(t) == 719163
    ensures t.year == 2024 && t.month == 2 && t.day == 29 ==> Ordinal(t) == 738945
    ensures t.year == 2000 && t.month == 12 && t.day == 31 ==> Ordinal(t) == 730485
  {
    if t.year >= 1 {
      BeforeYearIsGregorian(t.year);
    }
    YearLength(t.year);
    assert t.month == 2 ==> BeforeMonth(t.year, t.month) == 31;
  }

  /** Subtracting `n` days goes back exactly `n` days at the same time of day, and overflows exactly
      when the calendar does not go back that far. */
  lemma {:induction false} DaysBeforeIsExact(t: DateTime, n: nat)
    requires Valid(t)
    ensures DaysBefore(t, n).Some? <==> n < Ordinal(t)
    ensures DaysBefore(t, n).Some? ==>
              Ordinal(DaysBefore(t, n).value) == Ordinal(t) - n && TimeOfDay(DaysBefore(t, n).value) == TimeOfDay(t)
    decreases n
  {
    PreviousDayIsAdjacent(t);
    if n > 0 && PreviousDay(t).Some? {
      DaysBeforeIsEarlier(t, 1);
      DaysBeforeIsExact(PreviousDay(t).value, n - 1);
    }
  }

  lemma NextDayUndoesPrevious(t: DateTime)
    requires Valid(t) && PreviousDay(t).Some?
    ensures NextDay(PreviousDay(t).value) == Some(t)
  {
  }

  // ------------------------------------------------------------------
  // The ids one manager issues

  /** `_next_snapshot_at`: the clock's time, or one microsecond after the previous id. */
  function NextId(last: Option<DateTime>, now: DateTime): Option<DateTime> {
    match last
    case None => Some(now)
    case Some(previous) => if Earlier(previous, now) then Some(now) else NextMicro(previous)
  }

  /** An id is never earlier than the clock reading it was drawn from. */
  lemma NextIdNotBefore(last: Option<DateTime>, now: DateTime)
    requires Valid(now) && (last.Some? ==> Valid(last.value)) && NextId(last, now).Some?
    ensures Valid(NextId(last, now).value) && !Earlier(NextId(last, now).value, now)
    ensures last.Some? ==> Earlier(last.value, NextId(last, now).value)
  {
    if last.Some? && !Earlier(last.value, now) {
      NextMicroIsNext(last.value, now);
    }
  }

  /** The id is the earliest datetime there is that is later than the previous id and not before the clock. */
  lemma NextIdIsLeast(last: Option<DateTime>, now: DateTime, u: DateTime)
    requires Valid(now) && Valid(u) && (last.Some? ==> Valid(last.value) && Earlier(last.value, u)) && !Earlier(u, now)
    ensures NextId(last, now).Some? && !Earlier(u, NextId(last, now).value)
  {
    if last.Some? && !Earlier(last.value, now) {
      if NextMicro(last.value).Some? {
        NextMicroIsNext(last.value, u);
      }
    }
  }

  /** The ids issued for a sequence of clock readings, up to the first overflow. */
  function Ids(last: Option<DateTime>, nows: seq<DateTime>): seq<DateTime>
    decreases |nows|
  {
    if nows == [] || NextId(last, nows[0]).None? then []
    else [NextId(last, nows[0]).value] + Ids(NextId(last, nows[0]), nows[1..])
  }

  lemma {:induction false} IdsAfter(last: Option<DateTime>, nows: seq<DateTime>)
    requires last.Some? ==> Valid(last.value)
    requires forall i :: 0 <= i < |nows| ==> Valid(nows[i])
    ensures forall i :: 0 <= i < |Ids(last, nows)| ==> Valid(Ids(last, nows)[i])
    ensures last.Some? ==> forall i :: 0 <= i < |Ids(last, nows)| ==> Earlier(last.value, Ids(last, nows)[i])
    ensures forall i, j :: 0 <= i < j < |Ids(last, nows)| ==> Earlier(Ids(last, nows)[i], Ids(last, nows)[j])
    decreases |nows|
  {
    if nows != [] && NextId(last, nows[0]).Some? {
      var id := NextId(last, nows[0]).value;
      NextIdNotBefore(last, nows[0]);
      IdsAfter(Some(id), nows[1..]);
      var rest := Ids(Some(id), nows[1..]);
      if last.Some? {
        forall i | 0 <= i < |rest| ensures Earlier(last.value, rest[i]) {
          EarlierTransitive(last.value, id, rest[i]);
        }
      }
    }
  }

  lemma EarlierTransitive(a: DateTime, b: DateTime, c: DateTime)
    requires Earlier(a, b) && Earlier(b, c)
    ensures Earlier(a, c)
  {
  }

  /** Whatever the clock does, backward steps included, the ids one manager issues strictly
      increase in byte order. */
  lemma IdsIncrease(nows: seq<DateTime>, i: nat, j: nat)
    requires forall k :: 0 <= k < |nows| ==> Valid(nows[k])
    requires i < j < |Ids(None, nows)|
    ensures Valid(Ids(None, nows)[i]) && Valid(Ids(None, nows)[j])
    ensures ByteLess(Iso(Ids(None, nows)[i]), Iso(Ids(None, nows)[j]))
  {
    IdsAfter(None, nows);
    IsoSortsAsTime(Ids(None, nows)[i], Ids(None, nows)[j]);
  }
}
