/**
  Human-readable byte counts: the count is scaled down by 1024 until it is
  below 1024 or the largest unit is reached, printed with two decimals,
  and the trailing zeros and a trailing point are stripped.

  The scaled value `n / 1024^i` is kept exactly, as the pair of `n` and the
  divisor `1024^i`; dividing by a power of two is exact in binary floating
  point, so this is the value the source formats while `|n|` is below 2^53.
 */
module Humanize {
  import opened Text

  const Suffixes: seq<string> := ["B", "KB", "MB", "GB", "TB", "PB"]

  function Pow1024(i: nat): (p: nat)
    ensures p >= 1
  {
    if i == 0 then 1 else 1024 * Pow1024(i - 1)
  }

  lemma {:induction false} Pow1024Grows(a: nat, b: nat)
    requires a < b
    ensures 1024 * Pow1024(a) <= Pow1024(b)
    decreases b
  {
    if a + 1 < b {
      Pow1024Grows(a, b - 1);
    }
  }

  /**
    The unit the loop settles on, read off fixed thresholds: the result is
    the largest unit, or the scaled value is below 1024, and every division
    was made while the scaled value was at least 1024.
   */
  function UnitOf(n: int): (i: nat)
    ensures i < |Suffixes|
    ensures i < |Suffixes| - 1 ==> n < 1024 * Pow1024(i)
    ensures i > 0 ==> n >= Pow1024(i)
  {
    if n < 0x400 then 0
    else if n < 0x10_0000 then 1
    else if n < 0x4000_0000 then 2
    else if n < 0x100_0000_0000 then 3
    else if n < 0x4_0000_0000_0000 then 4
    else 5
  }

  /** The two exit conditions of the loop determine the unit. */
  lemma UnitOfUnique(n: int, i: nat)
    requires i < |Suffixes|
    requires i < |Suffixes| - 1 ==> n < 1024 * Pow1024(i)
    requires i > 0 ==> n >= Pow1024(i)
    ensures i == UnitOf(n)
  {
    var u := UnitOf(n);
    if i < u {
      Pow1024Grows(i, u);
    } else if u < i {
      Pow1024Grows(u, i);
    }
  }

  /** `a / b` rounded to an integer the way `'%.2f'` rounds an exact binary value. */
  function RoundHalfEven(a: nat, b: nat): nat
    requires b > 0
  {
    var q, r := a / b, a % b;
    if 2 * r < b then q
    else if 2 * r > b then q + 1
    else if q % 2 == 0 then q
    else q + 1
  }

  /** The rounding goes to a nearest integer, and on a tie to the even one. */
  lemma RoundHalfEvenNearest(a: nat, b: nat)
    requires b > 0
    ensures var h := RoundHalfEven(a, b);
            && -(b as int) <= 2 * (a - h * b) <= b
            && (2 * (a - h * b) == b || 2 * (a - h * b) == -(b as int) ==> h % 2 == 0)
  {
    var q, r := a / b, a % b;
    assert a == q * b + r;
    assert (q + 1) * b == q * b + b;
  }

  lemma MulAtLeast(d: int, b: nat)
    requires b > 0
    ensures d >= 1 ==> d * b >= b
    ensures d <= -1 ==> d * b <= -(b as int)
  {
    if d >= 1 {
      assert d * b == b + (d - 1) * b;
    } else if d <= -1 {
      assert d * b == -(b as int) + (d + 1) * b;
    }
  }

  /** An exact quotient is not moved by rounding. */
  lemma ExactRounding(c: nat, b: nat)
    requires b > 0
    ensures RoundHalfEven(c * b, b) == c
  {
    var q, r := (c * b) / b, (c * b) % b;
    assert c * b == q * b + r;
    assert (c - q) * b == r;
    MulAtLeast(c - q, b);
  }

  function Sign(n: int): string
  {
    if n < 0 then "-" else ""
  }

  /** The value `n / divisor` in hundredths, rounded as `'%.2f'` rounds, without its sign. */
  function Hundredths(n: int, divisor: nat): nat
    requires divisor > 0
  {
    RoundHalfEven((if n < 0 then -n else n) * 100, divisor)
  }

  /** `'%.2f' % (n / divisor)`: sign, integer part, point and two digits. */
  function FixedTwo(n: int, divisor: nat): string
    requires divisor > 0
  {
    var h := Hundredths(n, divisor);
    Sign(n) + NatToString(h / 100) + "." + [DigitChar(h / 10 % 10), DigitChar(h % 10)]
  }

  /** `('%.2f' % (n / divisor)).rstrip('0').rstrip('.')`. */
  function NumericPart(n: int, divisor: nat): string
    requires divisor > 0
  {
    RStrip(RStrip(FixedTwo(n, divisor), '0'), '.')
  }

  /** What `humanize(n)` returns. */
  function Humanized(n: int): string
  {
    if n == 0 then "0 B"
    else
      var i := UnitOf(n);
      NumericPart(n, Pow1024(i)) + " " + Suffixes[i]
  }

  /**
    The source's loop, with the float it divides kept as `n / divisor`:
    `divisor` is 1024 to the number of divisions made so far.
   */
  method Humanize(nbytes: int) returns (s: string)
    ensures s == Humanized(nbytes)
  {
    if nbytes == 0 {
      return "0 B";
    }
    var i := 0;
    var divisor := 1;
    while nbytes >= 1024 * divisor && i < |Suffixes| - 1
      invariant 0 <= i < |Suffixes|
      invariant divisor == Pow1024(i)
      invariant i > 0 ==> nbytes >= divisor
    {
      divisor := divisor * 1024;
      i := i + 1;
    }
    UnitOfUnique(nbytes, i);
    var f := NumericPart(nbytes, divisor);
    s := f + " " + Suffixes[i];
  }

  /** The decimals left by the stripping: up to the last non-zero one, behind a point only when there is one. */
  function Kept(tenths: char, hundredths: char): string
  {
    if hundredths != '0' then "." + [tenths, hundredths]
    else if tenths != '0' then "." + [tenths]
    else ""
  }

  lemma StripNonZeroHundredths(whole: string, tenths: char, hundredths: char)
    requires IsDigit(hundredths) && hundredths != '0'
    ensures RStrip(RStrip(whole + "." + [tenths, hundredths], '0'), '.') == whole + Kept(tenths, hundredths)
  {
    var fixed := whole + "." + [tenths, hundredths];
    assert fixed + "" == fixed;
    RStripTail(fixed, "", '0');
    RStripTail(fixed, "", '.');
    assert whole + Kept(tenths, hundredths) == fixed;
  }

  lemma StripZeroHundredths(whole: string, tenths: char, hundredths: char)
    requires IsDigit(tenths) && tenths != '0' && hundredths == '0'
    ensures RStrip(RStrip(whole + "." + [tenths, hundredths], '0'), '.') == whole + Kept(tenths, hundredths)
  {
    var kept := whole + "." + [tenths];
    assert whole + "." + [tenths, hundredths] == kept + "0";
    RStripTail(kept, "0", '0');
    assert kept + "" == kept;
    RStripTail(kept, "", '.');
    assert whole + Kept(tenths, hundredths) == kept;
  }

  lemma StripZeroDecimals(whole: string, tenths: char, hundredths: char)
    requires |whole| >= 1 && IsDigit(whole[|whole| - 1])
    requires tenths == '0' && hundredths == '0'
    ensures RStrip(RStrip(whole + "." + [tenths, hundredths], '0'), '.') == whole + Kept(tenths, hundredths)
  {
    assert whole + "." + [tenths, hundredths] == (whole + ".") + "00";
    RStripTail(whole + ".", "00", '0');
    RStripTail(whole, ".", '.');
    assert whole + Kept(tenths, hundredths) == whole;
  }

  /** Stripping two decimals behind an integer part that ends in a digit. */
  lemma StripTwoDecimals(whole: string, tenths: char, hundredths: char)
    requires |whole| >= 1 && IsDigit(whole[|whole| - 1])
    requires IsDigit(tenths) && IsDigit(hundredths)
    ensures RStrip(RStrip(whole + "." + [tenths, hundredths], '0'), '.') == whole + Kept(tenths, hundredths)
  {
    if hundredths != '0' {
      StripNonZeroHundredths(whole, tenths, hundredths);
    } else if tenths != '0' {
      StripZeroHundredths(whole, tenths, hundredths);
    } else {
      StripZeroDecimals(whole, tenths, hundredths);
    }
  }

  /** The number printed is the sign, the integer part and the decimals the stripping keeps. */
  lemma NumericPartDigits(n: int, divisor: nat)
    requires divisor > 0
    ensures var h := Hundredths(n, divisor);
            NumericPart(n, divisor)
              == Sign(n) + NatToString(h / 100) + Kept(DigitChar(h / 10 % 10), DigitChar(h % 10))
  {
    var h := Hundredths(n, divisor);
    StripTwoDecimals(Sign(n) + NatToString(h / 100), DigitChar(h / 10 % 10), DigitChar(h % 10));
  }

  lemma WholeHundredths(m: nat)
    ensures (100 * m) / 100 == m && (100 * m) / 10 % 10 == 0 && (100 * m) % 10 == 0
  {
    assert 100 * m == 10 * (10 * m);
    assert (100 * m) / 10 == 10 * m;
  }

  /** A value that rounds to a whole number prints as that number alone. */
  lemma NumericPartWhole(n: int, divisor: nat, m: nat)
    requires divisor > 0
    requires Hundredths(n, divisor) == 100 * m
    ensures NumericPart(n, divisor) == Sign(n) + NatToString(m)
  {
    WholeHundredths(m);
    NumericPartDigits(n, divisor);
    assert Kept(DigitChar(0), DigitChar(0)) == "";
    assert Sign(n) + NatToString(m) + "" == Sign(n) + NatToString(m);
  }

  /**
    The number part of the output: it ends in a digit, so never in a point,
    never in a zero after a point, and holds no space.
   */
  predicate CleanNumber(f: string)
  {
    && |f| >= 1
    && IsDigit(f[|f| - 1])
    && ('.' in f ==> f[|f| - 1] != '0')
    && ' ' !in f
  }

  lemma NumericPartClean(n: int, divisor: nat)
    requires divisor > 0
    ensures CleanNumber(NumericPart(n, divisor))
  {
    NumericPartDigits(n, divisor);
    var h := Hundredths(n, divisor);
    var whole := Sign(n) + NatToString(h / 100);
    assert '.' !in whole && ' ' !in whole by {
      var digits := NatToString(h / 100);
      forall k | 0 <= k < |whole|
        ensures whole[k] != '.' && whole[k] != ' '
      {
        if k >= |Sign(n)| {
          assert whole[k] == digits[k - |Sign(n)|];
        }
      }
    }
  }

  /**
    Every output, zero included, is a clean number, one space and one of
    the six unit names, the unit being the one the loop settles on.
   */
  lemma HumanizedShape(n: int)
    ensures var i := UnitOf(n);
            && Humanized(n) == NumericPart(n, Pow1024(i)) + " " + Suffixes[i]
            && CleanNumber(NumericPart(n, Pow1024(i)))
  {
    NumericPartClean(n, Pow1024(UnitOf(n)));
    if n == 0 {
      ExactRounding(0, 1);
      NumericPartWhole(0, 1, 0);
    }
  }

  /** Zero is printed as "0 B". */
  lemma HumanizedZero()
    ensures Humanized(0) == "0 B"
  {
  }

  lemma UndividedNumber(n: int)
    ensures NumericPart(n, 1) == IntToString(n)
  {
    var magnitude: nat := if n < 0 then -n else n;
    assert Hundredths(n, 1) == 100 * magnitude by {
      assert magnitude * 100 == (100 * magnitude) * 1;
      ExactRounding(100 * magnitude, 1);
    }
    NumericPartWhole(n, 1, magnitude);
  }

  /** Below 1024 nothing is divided: the integer itself, then " B". */
  lemma HumanizedSmall(n: int)
    requires n < 1024
    ensures Humanized(n) == IntToString(n) + " B"
  {
    if n != 0 {
      assert UnitOf(n) == 0 && Pow1024(0) == 1;
      UndividedNumber(n);
    }
  }

  lemma ExactMultipleUnit(k: nat, i: nat)
    requires 1 <= k && i < |Suffixes|
    requires i < |Suffixes| - 1 ==> k < 1024
    ensures k * Pow1024(i) >= 1
    ensures UnitOf(k * Pow1024(i)) == i
  {
    var p := Pow1024(i);
    MulAtLeast(k, p);
    if i < |Suffixes| - 1 {
      MulAtLeast(1024 - k, p);
    }
    UnitOfUnique(k * p, i);
  }

  lemma ExactMultipleNumber(k: nat, p: nat)
    requires p > 0
    ensures NumericPart(k * p, p) == NatToString(k)
  {
    var n := k * p;
    assert n >= 0;
    assert n * 100 == (100 * k) * p;
    ExactRounding(100 * k, p);
    assert Hundredths(n, p) == 100 * k;
    NumericPartWhole(n, p, k);
  }

  /** An exact multiple `k * 1024^i` of a unit is printed as `k` and that unit, without decimals. */
  lemma HumanizedExactMultiple(k: nat, i: nat)
    requires 1 <= k && i < |Suffixes|
    requires i < |Suffixes| - 1 ==> k < 1024
    ensures Humanized(k * Pow1024(i)) == NatToString(k) + " " + Suffixes[i]
  {
    ExactMultipleUnit(k, i);
    ExactMultipleNumber(k, Pow1024(i));
  }

  /** Division with remainder has one answer. */
  lemma DivModUnique(a: int, b: nat, q: int, r: int)
    requires b > 0 && 0 <= r < b && a == b * q + r
    ensures a / b == q && a % b == r
  {
    var q', r' := a / b, a % b;
    assert b * (q - q') == r' - r;
    MulAtLeast(q - q', b);
  }

  lemma HundredthsDigits(whole: nat, t: nat, u: nat)
    requires t < 10 && u < 10
    ensures var h := 100 * whole + 10 * t + u;
            h / 100 == whole && h / 10 % 10 == t && h % 10 == u
  {
    var h := 100 * whole + 10 * t + u;
    DivModUnique(h, 100, whole, 10 * t + u);
    DivModUnique(h, 10, 10 * whole + t, u);
    DivModUnique(10 * whole + t, 10, whole, t);
  }

  /** The number part of a value whose hundredths are `whole`, then digits `t` and `u`. */
  lemma NumericPartOfHundredths(n: int, divisor: nat, whole: nat, t: nat, u: nat)
    requires divisor > 0 && n >= 0
    requires t < 10 && u < 10
    requires Hundredths(n, divisor) == 100 * whole + 10 * t + u
    ensures NumericPart(n, divisor) == NatToString(whole) + Kept(DigitChar(t), DigitChar(u))
  {
    HundredthsDigits(whole, t, u);
    NumericPartDigits(n, divisor);
    assert Sign(n) + NatToString(whole) == NatToString(whole);
  }

  /** A value in the KB range whose hundredths are `whole`, then digits `t` and `u`. */
  lemma HumanizedKilobytes(n: int, whole: nat, t: nat, u: nat)
    requires 1024 <= n < 0x10_0000
    requires t < 10 && u < 10
    requires Hundredths(n, 1024) == 100 * whole + 10 * t + u
    ensures Humanized(n) == NatToString(whole) + Kept(DigitChar(t), DigitChar(u)) + " KB"
  {
    assert UnitOf(n) == 1 && Pow1024(1) == 1024;
    NumericPartOfHundredths(n, 1024, whole, t, u);
  }

  /** The average 2560 / 3 of the unit tests: 853 bytes. */
  lemma Humanized853()
    ensures Humanized(853) == "853 B"
  {
    HumanizedSmall(853);
    assert NatToString(85) == "85";
    assert NatToString(853) == "853";
  }

  lemma Humanized1024()
    ensures Humanized(1024) == "1 KB"
  {
    HumanizedExactMultiple(1, 1);
    assert 1 * Pow1024(1) == 1024;
    assert NatToString(1) + " " + Suffixes[1] == "1 KB";
  }

  lemma Humanized2048()
    ensures Humanized(2048) == "2 KB"
  {
    HumanizedExactMultiple(2, 1);
    assert 2 * Pow1024(1) == 2048;
    assert NatToString(2) + " " + Suffixes[1] == "2 KB";
  }

  lemma Humanized1536()
    ensures Humanized(1536) == "1.5 KB"
  {
    assert Hundredths(1536, 1024) == 150;
    HumanizedKilobytes(1536, 1, 5, 0);
    assert NatToString(1) + Kept('5', '0') + " KB" == "1.5 KB";
  }

  /** A tie is rounded to the even hundredth: 1.125 KB prints as 1.12. */
  lemma Humanized1152()
    ensures Humanized(1152) == "1.12 KB"
  {
    assert Hundredths(1152, 1024) == 112;
    HumanizedKilobytes(1152, 1, 1, 2);
    assert NatToString(1) + Kept('1', '2') + " KB" == "1.12 KB";
  }

  /** A tie is rounded to the even hundredth: 1.375 KB prints as 1.38. */
  lemma Humanized1408()
    ensures Humanized(1408) == "1.38 KB"
  {
    assert Hundredths(1408, 1024) == 138;
    HumanizedKilobytes(1408, 1, 3, 8);
    assert NatToString(1) + Kept('3', '8') + " KB" == "1.38 KB";
  }

  /**
    The unit is chosen before rounding: 1048575 bytes are just under 1024 KB,
    so the unit stays KB and the rounded number reaches 1024.
   */
  lemma Humanized1048575()
    ensures Humanized(1048575) == "1024 KB"
  {
    assert Hundredths(1048575, 1024) == 102400;
    HumanizedKilobytes(1048575, 1024, 0, 0);
    assert NatToString(10) == "10";
    assert NatToString(102) == "102";
    assert NatToString(1024) + Kept('0', '0') + " KB" == "1024 KB";
  }
}
