/** Calendar dates as Python's `datetime.date` has them: the `date_added`
    column, its ordering, and `isoformat()`. */
module Dates {
  import opened Strings

  datatype CalendarDate = CalendarDate(year: int, month: int, day: int)

  predicate IsLeapYear(year: int)
  {
    year % 4 == 0 && (year % 100 != 0 || year % 400 == 0)
  }

  function DaysInMonth(year: int, month: int): int
    requires 1 <= month <= 12
  {
    if month == 2 then (if IsLeapYear(year) then 29 else 28)
    else if month == 4 || month == 6 || month == 9 || month == 11 then 30
    else 31
  }

  /** The dates a `datetime.date` can hold: years 1 to 9999 of the proleptic
      Gregorian calendar. */
  predicate IsValidDate(d: CalendarDate)
  {
    1 <= d.year <= 9999 && 1 <= d.month <= 12 && 1 <= d.day <= DaysInMonth(d.year, d.month)
  }

  type Date = d: CalendarDate | IsValidDate(d) witness CalendarDate(1970, 1, 1)

  /** `a > b` on dates: `a` is a later day than `b`. */
  predicate Later(a: Date, b: Date)
  {
    a.year > b.year
    || (a.year == b.year && (a.month > b.month || (a.month == b.month && a.day > b.day)))
  }

  // ---------------------------------------------------------------------------
  // decimal digits

  function Pow10(k: nat): (p: nat)
    ensures p >= 1
  {
    if k == 0 then 1 else 10 * Pow10(k - 1)
  }

  predicate IsDigit(c: char)
  {
    '0' <= c <= '9'
  }

  predicate AllDigits(s: string)
  {
    forall i :: 0 <= i < |s| ==> IsDigit(s[i])
  }

  /** The number a string of decimal digits denotes. */
  function DigitsValue(s: string): nat
    requires AllDigits(s)
  {
    if |s| == 0 then 0
    else 10 * DigitsValue(s[..|s| - 1]) + (s[|s| - 1] as int - '0' as int)
  }

  /** `'%0*d' % (width, n)`: `n` written in exactly `width` decimal digits,
      zero-padded on the left. */
  function ZeroPad(n: nat, width: nat): (s: string)
    requires n < Pow10(width)
    ensures |s| == width && AllDigits(s) && DigitsValue(s) == n
  {
    if width == 0 then ""
    else
      var s := ZeroPad(n / 10, width - 1) + [('0' as int + n % 10) as char];
      assert s[..|s| - 1] == ZeroPad(n / 10, width - 1);
      s
  }

  /** Fixed-width zero-padded numerals sort as text exactly as the numbers
      sort. */
  lemma {:induction false} ZeroPadOrder(n: nat, m: nat, width: nat)
    requires n < Pow10(width) && m < Pow10(width)
    ensures LexLe(ZeroPad(n, width), ZeroPad(m, width)) <==> n <= m
    decreases width
  {
    if width > 0 {
      var x, y := ZeroPad(n / 10, width - 1), ZeroPad(m / 10, width - 1);
      var c, d := ('0' as int + n % 10) as char, ('0' as int + m % 10) as char;
      ZeroPadOrder(n / 10, m / 10, width - 1);
      LexLeEqualLengthPrefix(x, [c], y, [d]);
      assert LexLe([c], [d]) <==> c <= d by {
        assert [c][1..] == [] && [d][1..] == [];
      }
      assert x == y <==> n / 10 == m / 10;
    }
  }

  // ---------------------------------------------------------------------------
  // isoformat

  /** `date.isoformat()`: `YYYY-MM-DD`, each part zero-padded, reading back
      as the year, month and day. */
  function Iso(d: Date): (s: string)
    ensures |s| == 10 && s[4] == '-' && s[7] == '-'
    ensures AllDigits(s[..4]) && AllDigits(s[5..7]) && AllDigits(s[8..])
    ensures DigitsValue(s[..4]) == d.year
    ensures DigitsValue(s[5..7]) == d.month
    ensures DigitsValue(s[8..]) == d.day
  {
    assert Pow10(2) == 100 && Pow10(4) == 10000;
    var y, m, dd := ZeroPad(d.year, 4), ZeroPad(d.month, 2), ZeroPad(d.day, 2);
    var s := y + ("-" + (m + ("-" + dd)));
    assert s[..4] == y && s[5..7] == m && s[8..] == dd;
    s
  }

  /** Different days have different ISO strings. */
  lemma IsoInjective(a: Date, b: Date)
    requires Iso(a) == Iso(b)
    ensures a == b
  {
  }

  /** ISO strings sort as text exactly as the dates sort: `a` is not later
      than `b` iff `Iso(a) <= Iso(b)`. */
  lemma IsoOrder(a: Date, b: Date)
    ensures LexLe(Iso(a), Iso(b)) <==> !Later(a, b)
  {
    assert Pow10(2) == 100 && Pow10(4) == 10000;
    var ya, ma, da := ZeroPad(a.year, 4), ZeroPad(a.month, 2), ZeroPad(a.day, 2);
    var yb, mb, db := ZeroPad(b.year, 4), ZeroPad(b.month, 2), ZeroPad(b.day, 2);
    ZeroPadOrder(a.year, b.year, 4);
    ZeroPadOrder(a.month, b.month, 2);
    ZeroPadOrder(a.day, b.day, 2);
    LexLeEqualLengthPrefix(ya, "-" + (ma + ("-" + da)), yb, "-" + (mb + ("-" + db)));
    LexLeEqualLengthPrefix("-", ma + ("-" + da), "-", mb + ("-" + db));
    LexLeEqualLengthPrefix(ma, "-" + da, mb, "-" + db);
    LexLeEqualLengthPrefix("-", da, "-", db);
  }
}
