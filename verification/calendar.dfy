/**
 The local calendar the streak model is anchored to: proleptic Gregorian
 dates, their chronological order, the day before a date, the number of days
 in a month, and the `YYYY-MM-DD` key the application stores check-ins under.
 */
module Calendar {
  import Decimal

  datatype CalendarDate = CalendarDate(year: int, month: int, day: int) {
    /** A real day of the Gregorian calendar. */
    predicate Valid() {
      1 <= month <= 12 && 1 <= day <= DaysInMonth(year, month)
    }
  }

  /** A valid calendar date; every date the application produces is one. */
  type Date = d: CalendarDate | d.Valid() witness CalendarDate(1970, 1, 1)

  predicate IsLeapYear(year: int) {
    (year % 4 == 0 && year % 100 != 0) || year % 400 == 0
  }

  /**
   The length of a month, as the application obtains it from
   `new Date(year, month + 1, 0).getDate()` (day 0 of the next month).
   */
  function DaysInMonth(year: int, month: int): (n: int)
    requires 1 <= month <= 12
    ensures 28 <= n <= 31
    ensures month == 2 ==> (n == 29 <==> IsLeapYear(year))
    ensures month != 2 ==> 30 <= n
  {
    if month == 2 then (if IsLeapYear(year) then 29 else 28)
    else if month == 4 || month == 6 || month == 9 || month == 11 then 30
    else 31
  }

  /** Chronological order: `a` is strictly earlier than `b`. */
  predicate Before(a: Date, b: Date) {
    || a.year < b.year
    || (a.year == b.year && a.month < b.month)
    || (a.year == b.year && a.month == b.month && a.day < b.day)
  }

  /** `Before` is a strict total order. */
  lemma BeforeIsStrictTotalOrder(a: Date, b: Date, c: Date)
    ensures !Before(a, a)
    ensures Before(a, b) ==> !Before(b, a)
    ensures Before(a, b) && Before(b, c) ==> Before(a, c)
    ensures a == b || Before(a, b) || Before(b, a)
  {
  }

  /** The previous calendar day ("yesterday" of `d`), rolling over months and years. */
  function Pred(d: Date): (p: Date)
    ensures Before(p, d)
  {
    if d.day > 1 then CalendarDate(d.year, d.month, d.day - 1)
    else if d.month > 1 then CalendarDate(d.year, d.month - 1, DaysInMonth(d.year, d.month - 1))
    else CalendarDate(d.year - 1, 12, 31)
  }

  /** No date lies strictly between `Pred(d)` and `d`. */
  lemma PredIsImmediate(d: Date, e: Date)
    requires Before(e, d)
    ensures e == Pred(d) || Before(e, Pred(d))
  {
  }

  /** The date `k` days before `d`. */
  function DaysBack(d: Date, k: nat): Date {
    if k == 0 then d else Pred(DaysBack(d, k - 1))
  }

  // ----- Date keys -----

  /**
   The key the application files a check-in under: `${year}-${MM}-${DD}` with
   the month and day zero-padded to two digits and the year written as is.
   */
  function DateKey(d: Date): (key: string)
    ensures 0 <= d.year ==> |key| == |Decimal.NatToString(d.year)| + 6
  {
    YearText(d.year) + KeyTail(d)
  }

  /** The `-MM-DD` part of a key. */
  function KeyTail(d: Date): string {
    "-" + Decimal.TwoDigits(d.month) + "-" + Decimal.TwoDigits(d.day)
  }

  function YearText(year: int): string {
    if year < 0 then "-" + Decimal.NatToString(-year) else Decimal.NatToString(year)
  }

  /** Code-unit (lexicographic) order on strings, the order the keys are sorted in. */
  predicate LexLess(a: string, b: string) {
    if a == [] then b != []
    else if b == [] then false
    else if a[0] != b[0] then a[0] < b[0]
    else LexLess(a[1..], b[1..])
  }

  predicate FourDigitYear(d: Date) {
    1000 <= d.year <= 9999
  }

  /**
   For four-digit years, sorting keys lexicographically sorts their dates
   chronologically, so the model may order dates directly.
   */
  lemma KeyOrderIsDateOrder(a: Date, b: Date)
    requires FourDigitYear(a) && FourDigitYear(b)
    ensures LexLess(DateKey(a), DateKey(b)) <==> Before(a, b)
  {
    KeySplits(a);
    KeySplits(b);
    NumeralOrder(a.year, b.year);
    TailOrder(a, b);
    KeyParts(Decimal.NatToString(a.year), KeyTail(a), Decimal.NatToString(b.year), KeyTail(b), a, b);
  }

  /** A key of a non-negative year is the year's numeral followed by its tail. */
  lemma KeySplits(d: Date)
    requires 0 <= d.year
    ensures DateKey(d) == Decimal.NatToString(d.year) + KeyTail(d)
  {
    assert YearText(d.year) == Decimal.NatToString(d.year);
  }

  /** A key compares by its year text first and its `-MM-DD` tail second. */
  lemma KeyParts(ya: string, ra: string, yb: string, rb: string, a: Date, b: Date)
    requires |ya| == |yb|
    requires LexLess(ya, yb) <==> a.year < b.year
    requires ya == yb <==> a.year == b.year
    requires LexLess(ra, rb) <==> a.month < b.month || (a.month == b.month && a.day < b.day)
    ensures LexLess(ya + ra, yb + rb) <==> Before(a, b)
  {
    LexConcat(ya, ra, yb, rb);
  }

  /** Within one year the `-MM-DD` tails compare as (month, day) pairs. */
  lemma TailOrder(a: Date, b: Date)
    ensures LexLess(KeyTail(a), KeyTail(b)) <==> a.month < b.month || (a.month == b.month && a.day < b.day)
  {
    var ma, mb := Decimal.TwoDigits(a.month), Decimal.TwoDigits(b.month);
    var da, db := Decimal.TwoDigits(a.day), Decimal.TwoDigits(b.day);
    TwoDigitOrder(a.month, b.month);
    TwoDigitOrder(a.day, b.day);
    TailParts("-", ma, da, mb, db, a.month, a.day, b.month, b.day);
  }

  /** Separated two-digit fields compare as (month, day) pairs when each field does. */
  lemma TailParts(sep: string, ma: string, da: string, mb: string, db: string, am: int, ad: int, bm: int, bd: int)
    requires |ma| == 2 && |mb| == 2
    requires LexLess(ma, mb) <==> am < bm
    requires ma == mb <==> am == bm
    requires LexLess(da, db) <==> ad < bd
    ensures LexLess(sep + ma + sep + da, sep + mb + sep + db) <==> am < bm || (am == bm && ad < bd)
  {
    assert sep + ma + sep + da == sep + (ma + (sep + da));
    assert sep + mb + sep + db == sep + (mb + (sep + db));
    SamePrefix(sep, ma + (sep + da), mb + (sep + db));
    LexConcat(ma, sep + da, mb, sep + db);
    SamePrefix(sep, da, db);
  }

  /** A common prefix does not change the comparison. */
  lemma SamePrefix(p: string, y: string, y': string)
    ensures LexLess(p + y, p + y') <==> LexLess(y, y')
  {
    LexConcat(p, y, p, y');
    LexIrreflexive(p);
  }

  lemma TwoDigitOrder(m: nat, n: nat)
    requires m < 100 && n < 100
    ensures LexLess(Decimal.TwoDigits(m), Decimal.TwoDigits(n)) <==> m < n
    ensures Decimal.TwoDigits(m) == Decimal.TwoDigits(n) <==> m == n
  {
    LexDigits(Decimal.TwoDigits(m), Decimal.TwoDigits(n));
    if m == n {
    } else {
      LexIrreflexive(Decimal.TwoDigits(m));
    }
  }

  lemma NumeralOrder(m: nat, n: nat)
    requires 1000 <= m <= 9999 && 1000 <= n <= 9999
    ensures LexLess(Decimal.NatToString(m), Decimal.NatToString(n)) <==> m < n
    ensures Decimal.NatToString(m) == Decimal.NatToString(n) <==> m == n
    ensures |Decimal.NatToString(m)| == |Decimal.NatToString(n)| == 4
  {
    FourDigitBounds();
    Decimal.NatToStringLength(m, 4);
    Decimal.NatToStringLength(n, 4);
    Decimal.ParseNatToString(m);
    Decimal.ParseNatToString(n);
    LexDigits(Decimal.NatToString(m), Decimal.NatToString(n));
  }

  lemma FourDigitBounds()
    ensures Decimal.Pow10(3) == 1000 && Decimal.Pow10(4) == 10000
  {
    assert Decimal.Pow10(1) == 10;
    assert Decimal.Pow10(2) == 100;
  }

  /** Different dates have different keys, whatever their years. */
  lemma KeyInjective(a: Date, b: Date)
    requires DateKey(a) == DateKey(b)
    ensures a == b
  {
    SplitKey(a);
    SplitKey(b);
    YearTextInjective(a.year, b.year);
    TailFields(a);
    TailFields(b);
  }

  /** A key is its year text followed by the six characters of its tail. */
  lemma SplitKey(d: Date)
    ensures |KeyTail(d)| == 6
    ensures DateKey(d)[..|DateKey(d)| - 6] == YearText(d.year)
    ensures DateKey(d)[|DateKey(d)| - 6..] == KeyTail(d)
  {
  }

  /** The month and day sit at fixed places in the tail. */
  lemma TailFields(d: Date)
    ensures KeyTail(d)[1..3] == Decimal.TwoDigits(d.month)
    ensures KeyTail(d)[4..6] == Decimal.TwoDigits(d.day)
  {
    var m, dd := Decimal.TwoDigits(d.month), Decimal.TwoDigits(d.day);
    assert KeyTail(d) == "-" + m + "-" + dd;
  }

  /** Different years are written differently: a sign never starts a numeral. */
  lemma YearTextInjective(x: int, y: int)
    requires YearText(x) == YearText(y)
    ensures x == y
  {
    if 0 <= x && 0 <= y {
      Decimal.NatToStringInjective(x, y);
    } else if x < 0 && y < 0 {
      assert YearText(x)[1..] == Decimal.NatToString(-x);
      assert YearText(y)[1..] == Decimal.NatToString(-y);
      Decimal.NatToStringInjective(-x, -y);
    }
  }

  lemma {:induction false} LexIrreflexive(s: string)
    ensures !LexLess(s, s)
    decreases |s|
  {
    if s != [] {
      LexIrreflexive(s[1..]);
    }
  }

  /** Comparing equal-length prefixes first, then the rest. */
  lemma {:induction false} LexConcat(x: string, y: string, x': string, y': string)
    requires |x| == |x'|
    ensures LexLess(x + y, x' + y') <==> LexLess(x, x') || (x == x' && LexLess(y, y'))
    decreases |x|
  {
    if x != [] {
      assert (x + y)[1..] == x[1..] + y;
      assert (x' + y')[1..] == x'[1..] + y';
      LexConcat(x[1..], y, x'[1..], y');
      if x[0] == x'[0] && x[1..] == x'[1..] {
        assert x == x';
      }
    } else {
      assert x + y == y;
      assert x' + y' == y';
    }
  }

  /** A numeral with a leading digit: the digit weighs 10^(rest length). */
  lemma {:induction false} ParseCons(c: char, s: string)
    requires Decimal.IsDigit(c) && Decimal.AllDigits(s)
    ensures Decimal.AllDigits([c] + s)
    ensures Decimal.ParseDigits([c] + s) == Decimal.DigitValue(c) * Decimal.Pow10(|s|) + Decimal.ParseDigits(s)
    decreases |s|
  {
    var t := [c] + s;
    AllDigitsCons(c, s);
    if s != [] {
      var init := s[..|s| - 1];
      assert t[..|t| - 1] == [c] + init;
      assert t[|t| - 1] == s[|s| - 1];
      ParseCons(c, init);
      var v, p := Decimal.DigitValue(c), Decimal.Pow10(|init|);
      var rest, last := Decimal.ParseDigits(init), Decimal.DigitValue(s[|s| - 1]);
      assert Decimal.ParseDigits(t) == 10 * (v * p + rest) + last;
      assert Decimal.ParseDigits(s) == 10 * rest + last;
      assert Decimal.Pow10(|s|) == 10 * p;
      ShiftDigit(v, p, rest, last);
    }
  }

  lemma ShiftDigit(v: nat, p: nat, rest: nat, last: nat)
    ensures 10 * (v * p + rest) + last == v * (10 * p) + (10 * rest + last)
  {
  }

  lemma AllDigitsCons(c: char, s: string)
    requires Decimal.IsDigit(c) && Decimal.AllDigits(s)
    ensures Decimal.AllDigits([c] + s)
  {
    var t := [c] + s;
    forall i | 0 <= i < |t|
      ensures Decimal.IsDigit(t[i])
    {
      if i > 0 {
        assert t[i] == s[i - 1];
      }
    }
  }

  lemma {:induction false} ParseBound(s: string)
    requires Decimal.AllDigits(s)
    ensures Decimal.ParseDigits(s) < Decimal.Pow10(|s|)
    decreases |s|
  {
    if s != [] {
      ParseBound(s[..|s| - 1]);
    }
  }

  /** On numerals of equal width, lexicographic order is numeric order. */
  lemma {:induction false} LexDigits(s: string, t: string)
    requires |s| == |t|
    requires Decimal.AllDigits(s) && Decimal.AllDigits(t)
    ensures LexLess(s, t) <==> Decimal.ParseDigits(s) < Decimal.ParseDigits(t)
    decreases |s|
  {
    if s != [] {
      var p := Decimal.Pow10(|s| - 1);
      assert s == [s[0]] + s[1..];
      assert t == [t[0]] + t[1..];
      ParseCons(s[0], s[1..]);
      ParseCons(t[0], t[1..]);
      ParseBound(s[1..]);
      ParseBound(t[1..]);
      var vs, vt := Decimal.DigitValue(s[0]), Decimal.DigitValue(t[0]);
      if s[0] < t[0] {
        LeadingDigitDominates(vs, vt, Decimal.ParseDigits(s[1..]), Decimal.ParseDigits(t[1..]), p);
      } else if t[0] < s[0] {
        LeadingDigitDominates(vt, vs, Decimal.ParseDigits(t[1..]), Decimal.ParseDigits(s[1..]), p);
      } else {
        LexDigits(s[1..], t[1..]);
      }
    }
  }

  lemma LeadingDigitDominates(hi: nat, hj: nat, lo: nat, lo': nat, p: nat)
    requires hi < hj && lo < p
    ensures hi * p + lo < hj * p + lo'
  {
    assert (hj - hi) * p >= p by {
      assert hj - hi >= 1;
    }
    assert hj * p - hi * p == (hj - hi) * p;
  }
}
