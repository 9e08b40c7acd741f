/** Time columns are text. This module says why comparing that text is the same
    as comparing clocks: fixed-width UTC timestamps of section 5.1 of RFC 3339
    sort as the calendar's seconds do. */
module Times {
  import opened Lex

  const NANOS: int := 1_000_000_000

  /** A UTC calendar time with its sub-second part. */
  datatype Time = Time(year: nat, month: nat, day: nat, hour: nat, minute: nat, second: nat, nanos: nat) {
    predicate Valid() {
      year <= 9999 && 1 <= month <= 12 && 1 <= day <= DaysIn(year, month) &&
      hour < 24 && minute < 60 && second < 60 && nanos < NANOS
    }

    function Fields(): (f: seq<int>)
      ensures |f| == 6
    {
      [year, month, day, hour, minute, second]
    }

    function CutToSecond(): Time {
      this.(nanos := 0)
    }
  }

  predicate Leap(y: nat) {
    y % 4 == 0 && (y % 100 != 0 || y % 400 == 0)
  }

  function DaysIn(y: nat, m: nat): (n: nat)
    ensures 28 <= n <= 31
  {
    if m == 2 then (if Leap(y) then 29 else 28)
    else if m == 4 || m == 6 || m == 9 || m == 11 then 30 else 31
  }

  /** Days from the start of year 0 to the start of year y. */
  function DaysBeforeYear(y: nat): int {
    365 * y + (y + 3) / 4 - (y + 99) / 100 + (y + 399) / 400
  }

  function DaysBeforeMonth(y: nat, m: nat): nat
    requires 1 <= m
  {
    if m == 1 then 0 else DaysBeforeMonth(y, m - 1) + DaysIn(y, m - 1)
  }

  function DayNumber(t: Time): int
    requires t.Valid()
  {
    DaysBeforeYear(t.year) + DaysBeforeMonth(t.year, t.month) + t.day - 1
  }

  /** Whole seconds since the start of year 0. */
  function Seconds(t: Time): int
    requires t.Valid()
  {
    DayNumber(t) * 86400 + t.hour * 3600 + t.minute * 60 + t.second
  }

  /** The instant, in nanoseconds. */
  function Instant(t: Time): int
    requires t.Valid()
  {
    Seconds(t) * NANOS + t.nanos
  }

  // ---- The calendar is monotone ----

  lemma YearLength(y: nat)
    ensures DaysBeforeYear(y + 1) == DaysBeforeYear(y) + DaysBeforeMonth(y, 12) + DaysIn(y, 12)
    ensures DaysBeforeMonth(y, 12) == if Leap(y) then 335 else 334
  {
    MonthTable(y);
    var q, c, g := y / 4, y / 100, y / 400;
    assert (y + 4) / 4 == q + 1 && (y + 3) / 4 == if y % 4 == 0 then q else q + 1;
    assert (y + 100) / 100 == c + 1 && (y + 99) / 100 == if y % 100 == 0 then c else c + 1;
    assert (y + 400) / 400 == g + 1 && (y + 399) / 400 == if y % 400 == 0 then g else g + 1;
  }

  lemma MonthTable(y: nat)
    ensures DaysBeforeMonth(y, 12) == if Leap(y) then 335 else 334
  {
    assert DaysBeforeMonth(y, 2) == 31;
    assert DaysBeforeMonth(y, 3) == 31 + DaysIn(y, 2);
    assert DaysBeforeMonth(y, 5) == DaysBeforeMonth(y, 3) + 61;
    assert DaysBeforeMonth(y, 7) == DaysBeforeMonth(y, 5) + 61;
    assert DaysBeforeMonth(y, 9) == DaysBeforeMonth(y, 7) + 62;
    assert DaysBeforeMonth(y, 11) == DaysBeforeMonth(y, 9) + 61;
  }

  lemma {:induction false} MonthsMonotone(y: nat, m: nat, n: nat)
    requires 1 <= m < n
    ensures DaysBeforeMonth(y, m) + DaysIn(y, m) <= DaysBeforeMonth(y, n)
  {
    if m + 1 < n {
      MonthsMonotone(y, m, n - 1);
    }
  }

  lemma {:induction false} YearsMonotone(y: nat, z: nat)
    requires y < z
    ensures DaysBeforeYear(y + 1) <= DaysBeforeYear(z)
  {
    if y + 1 < z {
      YearsMonotone(y, z - 1);
      YearLength(z - 1);
    }
  }

  lemma DayInYear(t: Time)
    requires t.Valid()
    ensures DaysBeforeYear(t.year) <= DayNumber(t) < DaysBeforeYear(t.year + 1)
  {
    YearLength(t.year);
    if t.month < 12 {
      MonthsMonotone(t.year, t.month, 12);
    }
  }

  lemma DaysFollowCalendar(a: Time, b: Time)
    requires a.Valid() && b.Valid()
    requires Less([a.year, a.month, a.day], [b.year, b.month, b.day])
    ensures DayNumber(a) < DayNumber(b)
  {
    ThreeFields(a.year, a.month, a.day, b.year, b.month, b.day);
    if a.year < b.year {
      DayInYear(a);
      DayInYear(b);
      YearsMonotone(a.year, b.year);
    } else if a.month < b.month {
      MonthsMonotone(a.year, a.month, b.month);
    }
  }

  lemma ThreeFields(x: int, y: int, z: int, u: int, v: int, w: int)
    ensures Less([x, y, z], [u, v, w]) <==> x < u || (x == u && (y < v || (y == v && z < w)))
  {
    assert [x, y, z][1..] == [y, z] && [y, z][1..] == [z];
    assert [u, v, w][1..] == [v, w] && [v, w][1..] == [w];
    assert Less([z], [w]) <==> z < w;
    assert Less([y, z], [v, w]) <==> y < v || (y == v && z < w);
  }

  lemma FieldsSplit(a: Time, b: Time)
    ensures Less(a.Fields(), b.Fields()) <==>
            Less([a.year, a.month, a.day], [b.year, b.month, b.day]) ||
            ([a.year, a.month, a.day] == [b.year, b.month, b.day] &&
             Less([a.hour, a.minute, a.second], [b.hour, b.minute, b.second]))
  {
    var p, q := [a.year, a.month, a.day], [b.year, b.month, b.day];
    var r, s := [a.hour, a.minute, a.second], [b.hour, b.minute, b.second];
    assert a.Fields() == p + r && b.Fields() == q + s;
    LessConcat(p, q, r, s);
  }

  /** Calendar fields in order compare as the seconds they stand for. */
  lemma SecondsFollowFields(a: Time, b: Time)
    requires a.Valid() && b.Valid()
    ensures Less(a.Fields(), b.Fields()) <==> Seconds(a) < Seconds(b)
  {
    if Less(a.Fields(), b.Fields()) {
      FieldsForward(a, b);
    } else {
      Trichotomy(a.Fields(), b.Fields());
      if Less(b.Fields(), a.Fields()) {
        FieldsForward(b, a);
      } else {
        var f, g := a.Fields(), b.Fields();
        assert f[0] == g[0] && f[1] == g[1] && f[2] == g[2] && f[3] == g[3] && f[4] == g[4] && f[5] == g[5];
      }
    }
  }

  lemma FieldsForward(a: Time, b: Time)
    requires a.Valid() && b.Valid() && Less(a.Fields(), b.Fields())
    ensures Seconds(a) < Seconds(b)
  {
    FieldsSplit(a, b);
    var p, q := [a.year, a.month, a.day], [b.year, b.month, b.day];
    if Less(p, q) {
      DaysFollowCalendar(a, b);
    } else {
      assert p[0] == q[0] && p[1] == q[1] && p[2] == q[2];
      ThreeFields(a.hour, a.minute, a.second, b.hour, b.minute, b.second);
    }
  }

  lemma {:induction false} LessConcat(p: seq<int>, q: seq<int>, r: seq<int>, s: seq<int>)
    requires |p| == |q|
    ensures Less(p + r, q + s) <==> Less(p, q) || (p == q && Less(r, s))
  {
    if p == [] {
      assert p + r == r && q + s == s;
    } else {
      assert (p + r)[1..] == p[1..] + r && (q + s)[1..] == q[1..] + s;
      LessConcat(p[1..], q[1..], r, s);
      assert p == [p[0]] + p[1..] && q == [q[0]] + q[1..];
    }
  }

  // ---- Text ----

  /** n in w decimal digits. */
  function Decimal(n: nat, w: nat): (s: string)
    ensures |s| == w
  {
    if w == 0 then "" else Decimal(n / 10, w - 1) + [('0' as int + n % 10) as char]
  }

  function Pow10(w: nat): nat {
    if w == 0 then 1 else 10 * Pow10(w - 1)
  }

  /** Fixed-width fields, each followed by its separator. */
  function Render(values: seq<int>, widths: seq<nat>, separators: string): string
    requires |values| == |widths| == |separators|
    requires forall i :: 0 <= i < |values| ==> values[i] >= 0
  {
    if values == [] then ""
    else Decimal(values[0], widths[0]) + [separators[0]] +
         Render(values[1..], widths[1..], separators[1..])
  }

  /** The layout "2006-01-02T15:04:05Z". */
  function Format(t: Time): string {
    Render(t.Fields(), [4, 2, 2, 2, 2, 2], "--T::Z")
  }

  lemma StrLessConcat(p: string, q: string, r: string, s: string)
    requires |p| == |q|
    ensures StrLess(p + r, q + s) <==> StrLess(p, q) || (p == q && StrLess(r, s))
  {
    assert Codes(p + r) == Codes(p) + Codes(r) && Codes(q + s) == Codes(q) + Codes(s);
    LessConcat(Codes(p), Codes(q), Codes(r), Codes(s));
    StrTrichotomy(p, q);
    Trichotomy(Codes(p), Codes(q));
  }

  lemma {:induction false} DecimalOrder(n: nat, m: nat, w: nat)
    requires n < Pow10(w) && m < Pow10(w)
    ensures StrLess(Decimal(n, w), Decimal(m, w)) <==> n < m
    ensures Decimal(n, w) == Decimal(m, w) <==> n == m
  {
    if w > 0 {
      var c, d := ('0' as int + n % 10) as char, ('0' as int + m % 10) as char;
      DecimalOrder(n / 10, m / 10, w - 1);
      StrLessConcat(Decimal(n / 10, w - 1), Decimal(m / 10, w - 1), [c], [d]);
      StrLessCons([c], [d]);
      if Decimal(n, w) == Decimal(m, w) {
        assert Decimal(n, w)[..w - 1] == Decimal(n / 10, w - 1);
        assert Decimal(m, w)[..w - 1] == Decimal(m / 10, w - 1);
        assert c == Decimal(n, w)[w - 1] == Decimal(m, w)[w - 1] == d;
      }
    }
  }

  ghost predicate Fits(values: seq<int>, widths: seq<nat>) {
    |values| == |widths| && forall i :: 0 <= i < |values| ==> 0 <= values[i] < Pow10(widths[i])
  }

  lemma {:induction false} RenderOrder(f: seq<int>, g: seq<int>, widths: seq<nat>, separators: string)
    requires Fits(f, widths) && Fits(g, widths) && |separators| == |widths|
    ensures StrLess(Render(f, widths, separators), Render(g, widths, separators)) <==> Less(f, g)
  {
    if f != [] {
      var r, s := Render(f[1..], widths[1..], separators[1..]), Render(g[1..], widths[1..], separators[1..]);
      RenderOrder(f[1..], g[1..], widths[1..], separators[1..]);
      DecimalOrder(f[0], g[0], widths[0]);
      var p, q := Decimal(f[0], widths[0]), Decimal(g[0], widths[0]);
      StrLessConcat(p, q, [separators[0]] + r, [separators[0]] + s);
      StrLessConcat([separators[0]], [separators[0]], r, s);
      StrTrichotomy([separators[0]], [separators[0]]);
      assert p + [separators[0]] + r == p + ([separators[0]] + r);
      assert q + [separators[0]] + s == q + ([separators[0]] + s);
    }
  }

  lemma FieldsFit(t: Time)
    requires t.Valid()
    ensures Fits(t.Fields(), [4, 2, 2, 2, 2, 2])
  {
    assert Pow10(1) == 10 && Pow10(2) == 100 && Pow10(3) == 1000 && Pow10(4) == 10000;
  }

  /** Stored time text compares exactly as whole seconds do. */
  lemma TextOrder(a: Time, b: Time)
    requires a.Valid() && b.Valid()
    ensures StrLess(Format(a), Format(b)) <==> Seconds(a) < Seconds(b)
    ensures StrLess(Format(a), Format(b)) <==> Instant(a) / NANOS < Instant(b) / NANOS
  {
    FieldsFit(a);
    FieldsFit(b);
    RenderOrder(a.Fields(), b.Fields(), [4, 2, 2, 2, 2, 2], "--T::Z");
    SecondsFollowFields(a, b);
    WholeSecond(a);
    WholeSecond(b);
  }

  lemma WholeSecond(t: Time)
    requires t.Valid()
    ensures Instant(t) / NANOS == Seconds(t)
  {
  }

  // ---- Reading it back ----

  function ParseDecimal(s: string): Option<nat> {
    if s == "" then Some(0)
    else
      var front := ParseDecimal(s[..|s| - 1]);
      var c := s[|s| - 1];
      if front.None? || !('0' <= c <= '9') then None
      else Some(front.value * 10 + (c as int - '0' as int))
  }

  function ParseFields(s: string, widths: seq<nat>, separators: string): Option<seq<int>>
    requires |widths| == |separators|
    decreases |widths|
  {
    if widths == [] then (if s == "" then Some([]) else None)
    else if |s| <= widths[0] || s[widths[0]] != separators[0] then None
    else
      var n := ParseDecimal(s[..widths[0]]);
      var rest := ParseFields(s[widths[0] + 1..], widths[1..], separators[1..]);
      if n.None? || rest.None? then None else Some([n.value] + rest.value)
  }

  function OfFields(f: seq<int>): Option<Time> {
    if |f| == 6 && (forall i :: 0 <= i < 6 ==> f[i] >= 0) &&
       Time(f[0], f[1], f[2], f[3], f[4], f[5], 0).Valid()
    then Some(Time(f[0], f[1], f[2], f[3], f[4], f[5], 0)) else None
  }

  /** The canonical layout, with out-of-range fields refused. */
  function Parse(s: string): Option<Time> {
    var fields := ParseFields(s, [4, 2, 2, 2, 2, 2], "--T::Z");
    if fields.None? then None else OfFields(fields.value)
  }

  lemma {:induction false} DecimalRoundTrip(n: nat, w: nat)
    requires n < Pow10(w)
    ensures ParseDecimal(Decimal(n, w)) == Some(n)
  {
    if w > 0 {
      DecimalRoundTrip(n / 10, w - 1);
      assert Decimal(n, w)[..w - 1] == Decimal(n / 10, w - 1);
    }
  }

  lemma {:induction false} RenderRoundTrip(f: seq<int>, widths: seq<nat>, separators: string)
    requires Fits(f, widths) && |separators| == |widths|
    ensures ParseFields(Render(f, widths, separators), widths, separators) == Some(f)
  {
    if f != [] {
      var w := widths[0];
      var s := Render(f, widths, separators);
      DecimalRoundTrip(f[0], w);
      RenderRoundTrip(f[1..], widths[1..], separators[1..]);
      assert s[..w] == Decimal(f[0], w) && s[w] == separators[0];
      assert s[w + 1..] == Render(f[1..], widths[1..], separators[1..]);
      assert f == [f[0]] + f[1..];
    }
  }

  /** Reading a stored time gives it back, cut to the second. */
  lemma ParseFormat(t: Time)
    requires t.Valid()
    ensures Parse(Format(t)) == Some(t.CutToSecond())
    ensures t.CutToSecond().Valid() && Instant(t.CutToSecond()) == Instant(t) / NANOS * NANOS
  {
    FieldsFit(t);
    RenderRoundTrip(t.Fields(), [4, 2, 2, 2, 2, 2], "--T::Z");
    WholeSecond(t);
  }

  // ---- The layout and the calendar against known values ----

  lemma RenderOne(values: seq<int>, widths: seq<nat>, separators: string)
    requires |values| == |widths| == |separators| > 0 && forall i :: 0 <= i < |values| ==> values[i] >= 0
    ensures Render(values, widths, separators) ==
            Decimal(values[0], widths[0]) + [separators[0]] + Render(values[1..], widths[1..], separators[1..])
  {
  }

  /** A stored time, written out. */
  lemma FormatLayout(t: Time)
    ensures Format(t) ==
            Decimal(t.year, 4) + "-" + (Decimal(t.month, 2) + "-" + (Decimal(t.day, 2) + "T" +
            (Decimal(t.hour, 2) + ":" + (Decimal(t.minute, 2) + ":" + (Decimal(t.second, 2) + "Z")))))
  {
    var v, w, s := t.Fields(), [4, 2, 2, 2, 2, 2], "--T::Z";
    assert v[1..][1..] == v[2..] && v[2..][1..] == v[3..] && v[3..][1..] == v[4..] && v[4..][1..] == v[5..] && v[5..][1..] == [];
    assert w[1..][1..] == w[2..] && w[2..][1..] == w[3..] && w[3..][1..] == w[4..] && w[4..][1..] == w[5..] && w[5..][1..] == [];
    assert s[1..][1..] == s[2..] && s[2..][1..] == s[3..] && s[3..][1..] == s[4..] && s[4..][1..] == s[5..] && s[5..][1..] == "";
    RenderOne(v, w, s);
    RenderOne(v[1..], w[1..], s[1..]);
    RenderOne(v[2..], w[2..], s[2..]);
    RenderOne(v[3..], w[3..], s[3..]);
    RenderOne(v[4..], w[4..], s[4..]);
    RenderOne(v[5..], w[5..], s[5..]);
    assert Render([], [], "") == "";
    assert Decimal(t.second, 2) + "Z" + "" == Decimal(t.second, 2) + "Z";
  }

  const NUMERALS: string := "0123456789"

  /** The last digit, from the table, after the digits of a tenth. */
  lemma DecimalEnd(n: nat, w: nat)
    requires w > 0
    ensures Decimal(n, w)[w - 1] == NUMERALS[n % 10] && Decimal(n, w)[..w - 1] == Decimal(n / 10, w - 1)
  {
    assert Decimal(n, w)[..w - 1] == Decimal(n / 10, w - 1);
  }

  /** The Gregorian calendar: month lengths, the 400-year cycle, and the epoch of
      Unix time, 719528 days after the start of year 0. */
  lemma Gregorian(y: nat, m: nat)
    requires 1 <= m <= 12
    ensures DaysIn(y, m) == [31, 28, 31, 30, 31, 30, 31, 31, 30, 31, 30, 31][m - 1] + if m == 2 && Leap(y) then 1 else 0
    ensures Leap(y) <==> DaysBeforeYear(y + 1) - DaysBeforeYear(y) == 366
    ensures DaysBeforeYear(y + 400) == DaysBeforeYear(y) + 146097
    ensures !Leap(1900) && Leap(2000) && Leap(2024) && !Leap(2026)
  {
    YearLength(y);
  }

  lemma Epoch(t: Time)
    requires t.Valid() && t.year == 1970 && t.month == 1 && t.day == 1
    ensures Seconds(t) == 719528 * 86400 + t.hour * 3600 + t.minute * 60 + t.second
  {
  }
}
