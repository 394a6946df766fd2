/** The report rendering `pretty_percent` and `progress_bar`
    (bot.py:424-435). The source rounds the floating-point quotient with
    Python's `round` (nearest, ties to even); here the quotient is the exact
    rational `done / total`. */
module Formatter {
  import opened Decimal

  const Placeholder: string := "—"
  const FullGlyph: char := '█'
  const EmptyGlyph: char := '░'

  lemma MulMono(a: int, b: int, d: int)
    ensures a <= b && d >= 0 ==> a * d <= b * d
  {
    assert b * d - a * d == (b - a) * d;
  }

  lemma MulStep(a: int, b: int, d: int)
    ensures a < b && d > 0 ==> a * d + d <= b * d
  {
    MulMono(a + 1, b, d);
    assert (a + 1) * d == a * d + d;
  }

  lemma QuotientFacts(num: int, den: int)
    requires den > 0
    ensures 0 <= num % den < den
    ensures num - (num / den) * den == num % den
    ensures num - (num / den + 1) * den == num % den - den
  {
    assert (num / den + 1) * den == (num / den) * den + den;
  }

  /** The integer nearest to `num / den`, ties going to the even neighbour. */
  function RoundHalfEven(num: int, den: int): (r: int)
    requires den > 0
    ensures -den <= 2 * (num - r * den) <= den
    ensures (2 * (num - r * den) == den || 2 * (num - r * den) == -den) ==> r % 2 == 0
  {
    var q := num / den;
    var rem := num % den;
    QuotientFacts(num, den);
    if 2 * rem < den then q
    else if 2 * rem > den then q + 1
    else if q % 2 == 0 then q
    else q + 1
  }

  /** A rounded quotient is at least any integer the quotient is at least. */
  lemma RoundAtLeast(num: int, den: int, lo: int)
    requires den > 0 && lo * den <= num
    ensures lo <= RoundHalfEven(num, den)
  {
    MulStep(RoundHalfEven(num, den), lo, den);
  }

  /** A rounded quotient is at most any integer the quotient is at most. */
  lemma RoundAtMost(num: int, den: int, hi: int)
    requires den > 0 && num <= hi * den
    ensures RoundHalfEven(num, den) <= hi
  {
    MulStep(hi, RoundHalfEven(num, den), den);
  }

  /** A quotient that is a whole number rounds to itself. */
  lemma RoundExact(k: int, den: int)
    requires den > 0
    ensures RoundHalfEven(k * den, den) == k
  {
    RoundAtLeast(k * den, den, k);
    RoundAtMost(k * den, den, k);
  }

  /** Rounding the share `done / total` of `scale` lands in `[0, scale]`
      when the share lies between nothing and everything, and exactly on
      the ends at the ends. */
  lemma ShareFacts(done: int, total: int, scale: int)
    requires total > 0 && scale >= 0
    ensures done >= 0 ==> RoundHalfEven(done * scale, total) >= 0
    ensures 0 <= done <= total ==> RoundHalfEven(done * scale, total) <= scale
    ensures done == total ==> RoundHalfEven(done * scale, total) == scale
    ensures done == 0 ==> RoundHalfEven(done * scale, total) == 0
  {
    if done >= 0 {
      MulMono(0, done, scale);
      RoundAtLeast(done * scale, total, 0);
    }
    if 0 <= done <= total {
      MulMono(done, total, scale);
      assert total * scale == scale * total;
      RoundAtMost(done * scale, total, scale);
    }
    if done == total {
      assert done * scale == scale * total;
      RoundExact(scale, total);
    }
    if done == 0 {
      assert done * scale == 0 * total;
      RoundExact(0, total);
    }
  }

  /** `int(round(done / total * 100))`. */
  function PercentValue(done: int, total: int): (p: int)
    requires total > 0
    ensures 0 <= done <= total ==> 0 <= p <= 100
    ensures done == total ==> p == 100
    ensures done == 0 ==> p == 0
  {
    ShareFacts(done, total, 100);
    RoundHalfEven(done * 100, total)
  }

  /** `pretty_percent`: a placeholder dash when there is nothing to compare
      against, otherwise the rounded percentage followed by '%'. */
  function PrettyPercent(done: int, total: int): (r: string)
    ensures r == Placeholder <==> total <= 0
    ensures total > 0 ==> |r| >= 2 && r[|r| - 1] == '%'
    ensures total > 0 && done >= 0 ==>
      AllDigits(r[..|r| - 1]) && DigitsValue(r[..|r| - 1]) == PercentValue(done, total)
    ensures total > 0 && done == total ==> r == "100%"
    ensures total > 0 && done >= 0 ==> r[..|r| - 1] == NatToDigits(PercentValue(done, total))
    ensures total > 0 && r[0] == '0' ==> r == "0%"
    ensures total > 0 && PercentValue(done, total) < 0 ==>
      |r| >= 3 && r[0] == '-' && r[1] != '0' && AllDigits(r[1..|r| - 1]) &&
      DigitsValue(r[1..|r| - 1]) == -PercentValue(done, total)
  {
    if total <= 0 then Placeholder
    else
      var p := PercentValue(done, total);
      ShareFacts(done, total, 100);
      var r := IntToString(p) + "%";
      assert r[..|r| - 1] == IntToString(p);
      assert r[1..|r| - 1] == IntToString(p)[1..];
      assert IntToString(100) == "100";
      r
  }

  /** `c * n` for a one-character string: `n` copies, none when `n <= 0`. */
  function Repeat(c: char, n: int): (r: string)
    ensures |r| == if n <= 0 then 0 else n
    ensures forall i :: 0 <= i < |r| ==> r[i] == c
    decreases n
  {
    if n <= 0 then [] else [c] + Repeat(c, n - 1)
  }

  /** A share of at least everything rounds to at least `scale`; a share of
      at most nothing rounds to at most 0. */
  lemma OutsideShare(done: int, total: int, scale: int)
    requires total > 0 && scale >= 0
    ensures done >= total ==> RoundHalfEven(done * scale, total) >= scale
    ensures done <= 0 ==> RoundHalfEven(done * scale, total) <= 0
  {
    if done >= total {
      MulMono(total, done, scale);
      assert total * scale == scale * total;
      RoundAtLeast(done * scale, total, scale);
    }
    if done <= 0 {
      MulMono(done, 0, scale);
      RoundAtMost(done * scale, total, 0);
    }
  }

  /** The number of full cells, `min(max(round(share), 0), width)`: the
      rounded share of `width`, clamped to `[0, width]`; `width` itself when
      the width is negative. */
  function FilledCells(done: int, total: int, width: int): (f: int)
    requires total > 0
    ensures width >= 0 ==> 0 <= f <= width
    ensures width >= 0 && 0 <= done <= total ==> f == RoundHalfEven(done * width, total)
    ensures width >= 0 && done == total ==> f == width
    ensures width >= 0 && done >= total ==> f == width
    ensures width >= 0 && done <= 0 ==> f == 0
    ensures width < 0 ==> f == width
  {
    var raw := RoundHalfEven(done * width, total);
    if width >= 0 then
      ShareFacts(done, total, width);
      OutsideShare(done, total, width);
      if raw < 0 then 0 else if raw > width then width else raw
    else width
  }

  /** `progress_bar`: always `width` cells (none for a negative width);
      blank cells when there is nothing to compare against, otherwise full
      cells followed by empty ones. */
  function ProgressBar(done: int, total: int, width: int): (r: string)
    ensures |r| == if width < 0 then 0 else width
    ensures total <= 0 ==> forall i :: 0 <= i < |r| ==> r[i] == ' '
    ensures total > 0 ==> forall i :: 0 <= i < |r| ==>
      r[i] == if i < FilledCells(done, total, width) then FullGlyph else EmptyGlyph
    ensures total > 0 && done == total ==> forall i :: 0 <= i < |r| ==> r[i] == FullGlyph
    ensures total > 0 && done >= total ==> forall i :: 0 <= i < |r| ==> r[i] == FullGlyph
    ensures total > 0 && done <= 0 ==> forall i :: 0 <= i < |r| ==> r[i] == EmptyGlyph
  {
    if total <= 0 then Repeat(' ', width)
    else
      var f := FilledCells(done, total, width);
      Repeat(FullGlyph, f) + Repeat(EmptyGlyph, width - f)
  }
}
