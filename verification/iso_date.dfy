/** Calendar dates and their ISO 8601 text "YYYY-MM-DD", as produced by
    `date.isoformat()` (bot.py:377-378, data/db.py:144) and stored in the
    `progress.date` column. The fixed-width, zero-padded form is what lets
    the database compare dates as text. */
module IsoDate {
  import opened Decimal
  import opened TextOrder

  datatype Date = Date(year: int, month: int, day: int)

  predicate IsLeapYear(y: int) {
    y % 4 == 0 && (y % 100 != 0 || y % 400 == 0)
  }

  function DaysInMonth(y: int, m: int): (n: int)
    requires 1 <= m <= 12
    ensures 28 <= n <= 31
  {
    if m == 2 then (if IsLeapYear(y) then 29 else 28)
    else if m == 4 || m == 6 || m == 9 || m == 11 then 30
    else 31
  }

  /** The dates Python's `datetime.date` can hold. */
  predicate Valid(d: Date) {
    1 <= d.year <= 9999 && 1 <= d.month <= 12 && 1 <= d.day <= DaysInMonth(d.year, d.month)
  }

  /** Chronological order: year, then month, then day. */
  predicate NotAfter(a: Date, b: Date) {
    a.year < b.year || (a.year == b.year && (a.month < b.month || (a.month == b.month && a.day <= b.day)))
  }

  function Pow10(w: nat): (p: nat)
    ensures p >= 1
  {
    if w == 0 then 1 else 10 * Pow10(w - 1)
  }

  /** `n` written with exactly `w` digits, zero-padded on the left. */
  function Pad(n: nat, w: nat): (s: string)
    requires n < Pow10(w)
    ensures |s| == w && AllDigits(s) && DigitsValue(s) == n
  {
    if w == 0 then []
    else
      var s := Pad(n / 10, w - 1) + [DigitChar(n % 10)];
      assert s[..|s| - 1] == Pad(n / 10, w - 1);
      s
  }

  function Iso(d: Date): (s: string)
    requires Valid(d)
    ensures |s| == 10 && s[4] == '-' && s[7] == '-'
  {
    Pad(d.year, 4) + "-" + Pad(d.month, 2) + "-" + Pad(d.day, 2)
  }

  /** The three numbers are read back from their fixed positions. */
  lemma IsoFields(d: Date)
    requires Valid(d)
    ensures var s := Iso(d);
      AllDigits(s[..4]) && DigitsValue(s[..4]) == d.year &&
      AllDigits(s[5..7]) && DigitsValue(s[5..7]) == d.month &&
      AllDigits(s[8..]) && DigitsValue(s[8..]) == d.day
  {
    var s := Iso(d);
    assert s[..4] == Pad(d.year, 4);
    assert s[5..7] == Pad(d.month, 2);
    assert s[8..] == Pad(d.day, 2);
  }

  lemma IsoInjective(a: Date, b: Date)
    requires Valid(a) && Valid(b)
    ensures Iso(a) == Iso(b) <==> a == b
  {
    if Iso(a) == Iso(b) {
      IsoFields(a);
      IsoFields(b);
    }
  }

  lemma LexLeSingle(c: char, e: char)
    ensures LexLe([c], [e]) <==> c <= e
  {
    assert [c][1..] == [];
  }

  lemma DigitSplit(n: nat)
    ensures n == 10 * (n / 10) + n % 10
  {
  }

  lemma {:induction false} PadOrder(a: nat, b: nat, w: nat)
    requires a < Pow10(w) && b < Pow10(w)
    ensures LexLe(Pad(a, w), Pad(b, w)) <==> a <= b
  {
    if w == 0 {
      assert a == 0 && b == 0;
    } else {
      var x1, x2 := Pad(a / 10, w - 1), Pad(b / 10, w - 1);
      LexLeBlocks(x1, [DigitChar(a % 10)], x2, [DigitChar(b % 10)]);
      LexLeSingle(DigitChar(a % 10), DigitChar(b % 10));
      PadOrder(a / 10, b / 10, w - 1);
      assert x1 == x2 <==> a / 10 == b / 10;
      DigitSplit(a);
      DigitSplit(b);
    }
  }

  lemma PadInjective(a: nat, b: nat, w: nat)
    requires a < Pow10(w) && b < Pow10(w)
    ensures Pad(a, w) == Pad(b, w) <==> a == b
  {
  }

  lemma IsoShape(d: Date)
    requires Valid(d)
    ensures Iso(d) == Pad(d.year, 4) + ("-" + (Pad(d.month, 2) + ("-" + Pad(d.day, 2))))
  {
  }

  /** A shared leading dash does not change the comparison. */
  lemma DashTie(x: string, y: string)
    ensures LexLe("-" + x, "-" + y) <==> LexLe(x, y)
  {
    LexLeBlocks("-", x, "-", y);
  }

  /** Three blocks of equal widths separated by dashes compare block by
      block. */
  lemma ThreeBlocks(ya: string, ma: string, da: string, yb: string, mb: string, db: string)
    requires |ya| == |yb| && |ma| == |mb|
    ensures LexLe(ya + ("-" + (ma + ("-" + da))), yb + ("-" + (mb + ("-" + db)))) <==>
      (ya != yb && LexLe(ya, yb)) ||
      (ya == yb && ((ma != mb && LexLe(ma, mb)) || (ma == mb && LexLe(da, db))))
  {
    LexLeBlocks(ya, "-" + (ma + ("-" + da)), yb, "-" + (mb + ("-" + db)));
    DashTie(ma + ("-" + da), mb + ("-" + db));
    LexLeBlocks(ma, "-" + da, mb, "-" + db);
    DashTie(da, db);
  }

  /** Comparing the ISO texts character by character orders the dates
      chronologically. */
  lemma {:induction false} IsoOrder(a: Date, b: Date)
    requires Valid(a) && Valid(b)
    ensures LexLe(Iso(a), Iso(b)) <==> NotAfter(a, b)
  {
    IsoShape(a);
    IsoShape(b);
    ThreeBlocks(Pad(a.year, 4), Pad(a.month, 2), Pad(a.day, 2), Pad(b.year, 4), Pad(b.month, 2), Pad(b.day, 2));
    PadOrder(a.year, b.year, 4);
    PadOrder(a.month, b.month, 2);
    PadOrder(a.day, b.day, 2);
    PadInjective(a.year, b.year, 4);
    PadInjective(a.month, b.month, 2);
  }
}
