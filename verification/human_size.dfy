/**
 * `human_readable_size`: a byte count printed plainly below 1 KiB, otherwise
 * scaled to K, M or G (binary units) with one decimal place, as `:.1f`
 * prints the exact quotient: round to the nearest tenth, ties to even.
 */
module HumanSize {
  import opened Wrappers
  import opened Decimal

  const KiB: nat := 1_024
  const MiB: nat := 1_048_576
  const GiB: nat := 1_073_741_824

  function Abs(x: int): nat {
    if x < 0 then -x else x
  }

  /** `q` is `num / den` rounded to the nearest integer, a tie going to the even neighbour. */
  predicate IsNearestEven(q: int, num: int, den: int)
    requires den > 0
  {
    2 * Abs(num - q * den) < den || (2 * Abs(num - q * den) == den && q % 2 == 0)
  }

  function RoundHalfEven(num: nat, den: nat): (q: nat)
    requires den > 0
    ensures IsNearestEven(q, num, den)
  {
    var q0 := num / den;
    var r := num % den;
    Candidates(num, den);
    if 2 * r < den then q0
    else if 2 * r > den then q0 + 1
    else if q0 % 2 == 0 then q0
    else q0 + 1
  }

  /** The two integers around `num / den` and how far each is from it, times `den`. */
  lemma Candidates(num: nat, den: nat)
    requires den > 0
    ensures Abs(num - (num / den) * den) == num % den
    ensures Abs(num - (num / den + 1) * den) == den - num % den
  {
    var q0, r := num / den, num % den;
    assert num == q0 * den + r;
    assert (q0 + 1) * den == q0 * den + den;
  }

  /** There is only one nearest-even rounding, so `RoundHalfEven` is the rounding `:.1f` performs. */
  lemma NearestEvenUnique(q1: int, q2: int, num: int, den: int)
    requires den > 0
    requires IsNearestEven(q1, num, den) && IsNearestEven(q2, num, den)
    ensures q1 == q2
  {
    var a, b := num - q1 * den, num - q2 * den;
    var d := q2 - q1;
    assert a - b == d * den by {
      assert q2 * den - q1 * den == (q2 - q1) * den;
    }
    if 2 * Abs(a) < den && 2 * Abs(b) < den {
      MultipleBelow(d, den);
    } else {
      MultipleAtMost(d, den);
      assert 2 * Abs(a) == den && 2 * Abs(b) == den;
      assert q1 % 2 == 0 && q2 % 2 == 0;
    }
  }

  lemma AbsMul(d: int, den: int)
    requires den > 0
    ensures Abs(d * den) == Abs(d) * den
  {
    if d < 0 {
      assert d * den == -((-d) * den);
    }
  }

  /** A multiple of `den` smaller in magnitude than `den` is zero. */
  lemma MultipleBelow(d: int, den: int)
    requires den > 0 && Abs(d * den) < den
    ensures d == 0
  {
    AbsMul(d, den);
    assert Abs(d) >= 1 ==> Abs(d) * den >= den;
  }

  /** A multiple of `den` no larger in magnitude than `den` is at most one `den` away from zero. */
  lemma MultipleAtMost(d: int, den: int)
    requires den > 0 && Abs(d * den) <= den
    ensures -1 <= d <= 1
  {
    AbsMul(d, den);
    assert Abs(d) >= 2 ==> Abs(d) * den >= 2 * den;
  }

  /** The `%.1f` spelling of `q` tenths: integer part, a dot, one digit. */
  function TenthsText(q: nat): string {
    NatToDecimal(q / 10) + "." + [DigitChar(q % 10)]
  }

  /** Reads back a `<digits>.<digit>` spelling as a number of tenths. */
  function ParseTenths(s: string): Option<nat> {
    if |s| >= 3 && s[|s| - 2] == '.' && IsDigit(s[|s| - 1]) then
      match ParseNat(s[..|s| - 2])
      case Some(w) => Some(w * 10 + DigitValue(s[|s| - 1]))
      case None => None
    else None
  }

  lemma TenthsRoundTrip(q: nat)
    ensures ParseTenths(TenthsText(q)) == Some(q)
  {
    var s := TenthsText(q);
    assert s[..|s| - 2] == NatToDecimal(q / 10);
    assert s[|s| - 1] == DigitChar(q % 10);
  }

  /** `size / unit` printed to one decimal place with the unit letter appended. */
  function Scaled(size: nat, unit: nat, suffix: char): string
    requires unit > 0
  {
    TenthsText(RoundHalfEven(10 * size, unit)) + [suffix]
  }

  /** The unit a size at or above 1 KiB is scaled by. */
  function UnitFor(size: int): (u: nat)
    requires size >= KiB
  {
    if size >= GiB then GiB else if size >= MiB then MiB else KiB
  }

  function HumanReadableSize(size: int): (r: string)
    ensures |r| >= 1
    ensures r[|r| - 1] == 'G' <==> size >= GiB
    ensures r[|r| - 1] == 'M' <==> MiB <= size < GiB
    ensures r[|r| - 1] == 'K' <==> KiB <= size < MiB
    ensures IsDigit(r[|r| - 1]) <==> size < KiB
  {
    if size >= GiB then Scaled(size, GiB, 'G')
    else if size >= MiB then Scaled(size, MiB, 'M')
    else if size >= KiB then Scaled(size, KiB, 'K')
    else IntToDecimal(size)
  }

  /**
   * What the printed number means: below 1 KiB it reads back as the size
   * itself; from 1 KiB on, the text before the unit letter reads back as the
   * nearest-even number of tenths of `size / unit`.
   */
  lemma HumanReadableSizeValue(size: int)
    ensures var r := HumanReadableSize(size);
      && (size < KiB ==> ParseInt(r) == Some(size))
      && (size >= KiB ==>
            && ParseTenths(r[..|r| - 1]).Some?
            && IsNearestEven(ParseTenths(r[..|r| - 1]).value, 10 * size, UnitFor(size)))
  {
    var r := HumanReadableSize(size);
    if size >= KiB {
      var u := UnitFor(size);
      var q := RoundHalfEven(10 * size, u);
      assert r == TenthsText(q) + [r[|r| - 1]];
      assert r[..|r| - 1] == TenthsText(q);
      TenthsRoundTrip(q);
    }
  }

  /**
   * The scaled figure is never below 1.0, and for K and M never above 1024.0:
   * sizes just under the next threshold print as "1024.0K" / "1024.0M"
   * rather than moving to the next unit.
   */
  lemma {:induction false} HumanReadableSizeRange(size: int)
    requires size >= KiB
    ensures var q := RoundHalfEven(10 * size, UnitFor(size));
      && 10 <= q
      && (size < GiB ==> q <= 10240)
  {
    var u := UnitFor(size);
    var q := RoundHalfEven(10 * size, u);
    var q0 := (10 * size) / u;
    assert q0 * u <= 10 * size;
    assert 10 * u <= 10 * size;
    assert q >= q0;
    if size < GiB {
      assert 10 * size < 10240 * u;
      assert q0 < 10240;
      assert q <= q0 + 1;
    }
  }

  /** Sizes below 1 KiB print as plain integers. */
  lemma PlainExamples()
    ensures HumanReadableSize(0) == "0"
    ensures HumanReadableSize(1023) == "1023"
  {
    assert NatToDecimal(102) == "102";
  }

  /** Tenths of a KiB, with a tie (1280 bytes = 1.25K) going to the even 1.2K. */
  lemma KiBExamples()
    ensures HumanReadableSize(1024) == "1.0K"
    ensures HumanReadableSize(1280) == "1.2K"
    ensures HumanReadableSize(1500) == "1.5K"
    ensures HumanReadableSize(2048) == "2.0K"
  {
    assert NatToDecimal(0) == "0";
    assert NatToDecimal(1) == "1";
    assert NatToDecimal(2) == "2";
    assert RoundHalfEven(10 * 1024, KiB) == 10;
    assert RoundHalfEven(10 * 1280, KiB) == 12;
    assert RoundHalfEven(10 * 1500, KiB) == 15;
    assert RoundHalfEven(10 * 2048, KiB) == 20;
  }

  /** One byte short of 1 MiB still prints in K, rounded up to 1024.0K. */
  lemma JustBelowMiBExample()
    ensures HumanReadableSize(1_048_575) == "1024.0K"
  {
    assert NatToDecimal(102) == "102";
    assert NatToDecimal(1024) == "1024";
    assert RoundHalfEven(10 * 1_048_575, KiB) == 10240;
  }

  /** The M and G thresholds are inclusive. */
  lemma MiBGiBExamples()
    ensures HumanReadableSize(1_048_576) == "1.0M"
    ensures HumanReadableSize(1_073_741_824) == "1.0G"
  {
    assert NatToDecimal(1) == "1";
    assert RoundHalfEven(10 * MiB, MiB) == 10;
    assert RoundHalfEven(10 * GiB, GiB) == 10;
  }
}
