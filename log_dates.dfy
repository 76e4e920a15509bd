/**
 * The calendar dates of `nginx_log_split/nginx_log_split.py`: Python's
 * `datetime.date` with its ordinal day number, `str(date)`,
 * `strftime('%Y-%m')` and `strptime(text, "%Y-%m-%d")`.
 */
module LogDates {
  import opened Wrappers
  import Strings
  import Numerals

  datatype Date = Date(year: int, month: int, day: int)

  predicate IsLeap(y: int) {
    y % 4 == 0 && (y % 100 != 0 || y % 400 == 0)
  }

  function DaysIn(y: int, m: int): int
    requires 1 <= m <= 12
  {
    if m == 2 then (if IsLeap(y) then 29 else 28)
    else if m == 4 || m == 6 || m == 9 || m == 11 then 30
    else 31
  }

  /** What `datetime.date(year, month, day)` accepts. */
  predicate Valid(d: Date) {
    1 <= d.year <= 9999 && 1 <= d.month <= 12 && 1 <= d.day <= DaysIn(d.year, d.month)
  }

  /** Days in the years before `y`. */
  function DaysBeforeYear(y: int): int {
    var p := y - 1;
    365 * p + p / 4 - p / 100 + p / 400
  }

  /** Days in the months of year `y` before month `m`. */
  function DaysBeforeMonth(y: int, m: int): int
    requires 1 <= m <= 12
  {
    [0, 31, 59, 90, 120, 151, 181, 212, 243, 273, 304, 334][m - 1] + (if m > 2 && IsLeap(y) then 1 else 0)
  }

  /** `date.toordinal()`: 1 for 0001-01-01; subtracting two dates subtracts these. */
  function DayNumber(d: Date): int
    requires Valid(d)
  {
    DaysBeforeYear(d.year) + DaysBeforeMonth(d.year, d.month) + d.day
  }

  /** Calendar order. */
  predicate Before(a: Date, b: Date) {
    a.year < b.year || (a.year == b.year && (a.month < b.month || (a.month == b.month && a.day < b.day)))
  }

  lemma MonthStep(y: int, m: int)
    requires 1 <= m < 12
    ensures DaysBeforeMonth(y, m + 1) == DaysBeforeMonth(y, m) + DaysIn(y, m)
  {
  }

  /** A month ends no later than a later month begins. */
  lemma {:induction false} MonthsBefore(y: int, m: int, n: int)
    requires 1 <= m < n <= 12
    ensures DaysBeforeMonth(y, m) + DaysIn(y, m) <= DaysBeforeMonth(y, n)
    decreases n - m
  {
    MonthStep(y, m);
    if m + 1 < n {
      MonthsBefore(y, m + 1, n);
    }
  }

  /** One more year reaches one more multiple of `k` exactly when it is one. */
  lemma DivStep4(p: int)
    requires p >= 0
    ensures (p + 1) / 4 == p / 4 + (if (p + 1) % 4 == 0 then 1 else 0)
  {
  }

  lemma DivStep100(p: int)
    requires p >= 0
    ensures (p + 1) / 100 == p / 100 + (if (p + 1) % 100 == 0 then 1 else 0)
  {
  }

  lemma DivStep400(p: int)
    requires p >= 0
    ensures (p + 1) / 400 == p / 400 + (if (p + 1) % 400 == 0 then 1 else 0)
  {
  }

  /** A multiple of 100 is a multiple of 4. */
  lemma Century4(y: int)
    requires y % 100 == 0
    ensures y % 4 == 0
  {
    var q := y / 100;
    assert y == 100 * q;
    assert y % 4 == 4 * (25 * q - y / 4);
  }

  /** A multiple of 400 is a multiple of 100. */
  lemma Cycle100(y: int)
    requires y % 400 == 0
    ensures y % 100 == 0
  {
    var q := y / 400;
    assert y == 400 * q;
    assert y % 100 == 100 * (4 * q - y / 100);
  }

  /** A year has 365 days, 366 in a leap year. */
  lemma YearStep(y: int)
    requires y >= 1
    ensures DaysBeforeYear(y + 1) == DaysBeforeYear(y) + 365 + (if IsLeap(y) then 1 else 0)
  {
    var p := y - 1;
    DivStep4(p);
    DivStep100(p);
    DivStep400(p);
    assert DaysBeforeYear(y + 1) == 365 * y + y / 4 - y / 100 + y / 400;
    assert DaysBeforeYear(y) == 365 * p + p / 4 - p / 100 + p / 400;
    if y % 100 == 0 {
      Century4(y);
    }
    if y % 400 == 0 {
      Cycle100(y);
    }
  }

  lemma {:induction false} YearsBefore(y: int, z: int)
    requires 1 <= y < z
    ensures DaysBeforeYear(y) + 365 + (if IsLeap(y) then 1 else 0) <= DaysBeforeYear(z)
    decreases z - y
  {
    YearStep(y);
    if y + 1 < z {
      YearsBefore(y + 1, z);
    }
  }

  /** The day number follows the calendar: an earlier date has a smaller number. */
  lemma DayNumberOrder(a: Date, b: Date)
    requires Valid(a) && Valid(b) && Before(a, b)
    ensures DayNumber(a) < DayNumber(b)
  {
    if a.year == b.year {
      if a.month < b.month {
        MonthsBefore(a.year, a.month, b.month);
      }
    } else {
      if a.month < 12 {
        MonthsBefore(a.year, a.month, 12);
      }
      YearsBefore(a.year, b.year);
    }
  }

  function Pow10(w: nat): nat {
    if w == 0 then 1 else 10 * Pow10(w - 1)
  }

  /** `'%0{width}d' % n`: the last `width` decimal digits, zero-padded. */
  function Fixed(n: nat, width: nat): (s: string)
    ensures |s| == width
    ensures forall k :: 0 <= k < |s| ==> Numerals.IsDigit(s[k])
  {
    if width == 0 then [] else Fixed(n / 10, width - 1) + [Numerals.DigitChar(n % 10)]
  }

  /** A number that fits reads back from its padded digits. */
  lemma {:induction false} FixedValue(n: nat, width: nat)
    requires n < Pow10(width)
    ensures Numerals.DigitsValue(Fixed(n, width)) == n
  {
    if width > 0 {
      var s := Fixed(n, width);
      assert s[..|s| - 1] == Fixed(n / 10, width - 1);
      FixedValue(n / 10, width - 1);
    }
  }

  /** `str(date)`: `YYYY-MM-DD`. */
  function Iso(d: Date): string
    requires Valid(d)
  {
    Fixed(d.year, 4) + "-" + Fixed(d.month, 2) + "-" + Fixed(d.day, 2)
  }

  /** `date.strftime('%Y-%m')`: `YYYY-MM`. */
  function YearMonth(d: Date): string
    requires Valid(d)
  {
    Fixed(d.year, 4) + "-" + Fixed(d.month, 2)
  }

  predicate Digits(t: string) {
    forall k :: 0 <= k < |t| ==> Numerals.IsDigit(t[k])
  }

  /** `%Y`: exactly four digits. */
  function YearField(t: string): Option<int> {
    if |t| == 4 && Digits(t) then Some(Numerals.DigitsValue(t)) else None
  }

  /** `%m`: one or two digits naming a month. */
  function MonthField(t: string): Option<int> {
    if 1 <= |t| <= 2 && Digits(t) && 1 <= Numerals.DigitsValue(t) <= 12 then Some(Numerals.DigitsValue(t)) else None
  }

  /** `%d`: one or two digits from 1 to 31, or a space and a digit from 1 to 9. */
  function DayField(t: string): Option<int> {
    if 1 <= |t| <= 2 && Digits(t) && 1 <= Numerals.DigitsValue(t) <= 31 then Some(Numerals.DigitsValue(t))
    else if |t| == 2 && t[0] == ' ' && '1' <= t[1] <= '9' then Some(t[1] as int - '0' as int)
    else None
  }

  /**
   * `datetime.strptime(text, "%Y-%m-%d").date()`, or None where it raises:
   * three fields between dashes, then the calendar check of `date`.
   */
  function ParseIso(text: string): (r: Option<Date>)
    ensures r.Some? ==> Valid(r.value)
  {
    var parts := Strings.Split(text, '-');
    if |parts| != 3 then None
    else
      match (YearField(parts[0]), MonthField(parts[1]), DayField(parts[2]))
      case (Some(y), Some(m), Some(d)) => if Valid(Date(y, m, d)) then Some(Date(y, m, d)) else None
      case _ => None
  }

  /** The three dash-separated fields of `str(date)`. */
  lemma IsoFields(d: Date)
    requires Valid(d)
    ensures Strings.Split(Iso(d), '-') == [Fixed(d.year, 4), Fixed(d.month, 2), Fixed(d.day, 2)]
  {
    var y, m, n := Fixed(d.year, 4), Fixed(d.month, 2), Fixed(d.day, 2);
    assert '-' !in y && '-' !in m && '-' !in n;
    assert Iso(d) == y + ['-'] + (m + ['-'] + n);
    Strings.SplitAfterHead(y, '-', m + ['-'] + n);
    Strings.SplitAfterHead(m, '-', n);
    Strings.SplitNoSep(n, '-');
  }

  /** Reading back what `str(date)` wrote gives the date. */
  lemma IsoRoundTrip(d: Date)
    requires Valid(d)
    ensures ParseIso(Iso(d)) == Some(d)
  {
    IsoFields(d);
    assert Pow10(4) == 10000 && Pow10(2) == 100;
    FixedValue(d.year, 4);
    FixedValue(d.month, 2);
    FixedValue(d.day, 2);
  }

  /** The text of a date holds no `_` and no `.`, so it survives the file-name splits. */
  lemma IsoHasNo(d: Date)
    requires Valid(d)
    ensures '_' !in Iso(d) && '.' !in Iso(d)
  {
    var s := Iso(d);
    assert forall k :: 0 <= k < |s| ==> s[k] == '-' || Numerals.IsDigit(s[k]);
  }
}
