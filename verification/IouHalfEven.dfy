/** Round-half-to-even to sixteen digits: addition, and the quotient of the order book. */
module IouHalfEven {
  import opened Primitives
  import opened Decimal
  import opened Iou
  import opened IouMulDiv
  import IouDirected

  // ---------------------------------------------------------------- the rounding

  /** How many trailing digits do not fit in sixteen. */
  function DigitsOver(mag: nat): (k: nat)
    decreases mag
  {
    if mag > MAX_MANTISSA then 1 + DigitsOver(mag / 10) else 0
  }

  method CountDigitsOver(mag: nat) returns (k: nat)
    ensures k == DigitsOver(mag)
  {
    k := 0;
    var probe: nat := mag;
    while probe > MAX_MANTISSA
      invariant k + DigitsOver(probe) == DigitsOver(mag)
      decreases probe
    {
      probe := probe / 10;
      k := k + 1;
    }
  }

  /** Drop the excess digits, weighing them against half; a carry into a seventeenth digit is
      taken out again. */
  function RoundHalfEven(mag: nat, e: int): (r: (nat, int)) {
    if mag <= MAX_MANTISSA then (mag, e)
    else
      var k := DigitsOver(mag);
      var div := Pow10(k);
      var rem, q, half := mag % div, mag / div, div / 2;
      var rounded := if rem > half || (rem == half && q % 2 == 1) then q + 1 else q;
      if rounded > MAX_MANTISSA then (rounded / 10, e + k + 1) else (rounded, e + k)
  }

  /** `v` is `x` rounded to the nearer of its two sixteen-digit neighbours `q` and `q + 1` at
      exponent `e`, to the even one when `x` is half way. */
  ghost predicate NearestAt(x: real, q: nat, e: int, v: real) {
    && InRange(q) && Floors(x, q, e)
    && (2.0 * x < Value(2 * q + 1, e) ==> v == Value(q, e))
    && (2.0 * x > Value(2 * q + 1, e) ==> v == Value(q + 1, e))
    && (2.0 * x == Value(2 * q + 1, e) ==> v == Value(if q % 2 == 0 then q else q + 1, e))
  }

  ghost predicate IsNearestEven(x: real, v: real) {
    exists q: nat, e: int :: NearestAt(x, q, e, v)
  }

  /** Rounding to nearest even names one value. */
  lemma NearestEvenUnique(x: real, v: real, w: real)
    requires IsNearestEven(x, v) && IsNearestEven(x, w)
    ensures v == w
  {
    hide Value, Scale;
    var q: nat, e :| NearestAt(x, q, e, v);
    var r: nat, f :| NearestAt(x, r, f, w);
    TruncationUnique(x, q, e, r, f);
  }

  lemma {:induction false} DigitsOverBounds(mag: nat)
    requires mag >= MIN_MANTISSA
    ensures InRange(mag / Pow10(DigitsOver(mag)))
    ensures mag > MAX_MANTISSA ==> DigitsOver(mag) > 0
    decreases mag
  {
    if mag > MAX_MANTISSA {
      DigitsOverBounds(mag / 10);
      DivideTwice(mag, Pow10(DigitsOver(mag / 10)));
    } else {
      assert Pow10(DigitsOver(mag)) == 1;
    }
  }

  lemma DivideTwice(m: nat, d: nat)
    requires d > 0
    ensures m / (10 * d) == (m / 10) / d
  {
    var q := (m / 10) / d;
    assert q * d <= m / 10 < (q + 1) * d;
    assert q * (10 * d) == 10 * (q * d) && (q + 1) * (10 * d) == 10 * ((q + 1) * d);
    DivideWithin(m, 10 * d, q, q);
  }

  /** An exact value of at most sixteen digits is its own rounding. */
  lemma SmallIsNearest(mag: nat, e: int)
    requires 0 < mag <= MAX_MANTISSA
    ensures IsNearestEven(Value(mag, e), Value(mag, e))
  {
    ScaleUpValue(mag, e);
    var (q, f) := ScaleUp(mag, e);
    hide Scale, Value;
    var x := Value(mag, e);
    ValueMonotone(q, q + 1, f);
    ValueMonotone(2 * q, 2 * q + 1, f);
    DoubleValue(q, f);
    assert NearestAt(x, q, f, x);
  }

  lemma DoubleValue(m: int, e: int)
    ensures Value(2 * m, e) == 2.0 * Value(m, e)
  {}

  /** Splitting off the digits to drop. */
  lemma SplitDigits(mag: nat, e: int, k: nat)
    requires k > 0
    ensures var div := Pow10(k);
            var q, rem, half := mag / div, mag % div, div / 2;
            var x := Value(mag, e);
            && Floors(x, q, e + k)
            && (rem < half ==> 2.0 * x < Value(2 * q + 1, e + k))
            && (rem > half ==> 2.0 * x > Value(2 * q + 1, e + k))
            && (rem == half ==> 2.0 * x == Value(2 * q + 1, e + k))
  {
    var div := Pow10(k);
    assert div == 2 * (5 * Pow10(k - 1));
    hide Value, Scale, Pow10;
    var q := mag / div;
    FloorByPower(mag, e, k);
    HalfSplit(mag, div);
    ValueShift(2 * q + 1, k, e);
    DoubleValue(mag, e);
    ValueMonotone(2 * mag, (2 * q + 1) * div, e);
    ValueMonotone((2 * q + 1) * div, 2 * mag, e);
  }

  lemma HalfSplit(mag: nat, div: nat)
    requires div > 0 && div % 2 == 0
    ensures var q, rem, half := mag / div, mag % div, div / 2;
            && (rem < half <==> 2 * mag < (2 * q + 1) * div)
            && (rem > half <==> 2 * mag > (2 * q + 1) * div)
  {
    var q, rem := mag / div, mag % div;
    var p := q * div;
    assert mag == p + rem;
    assert (2 * q + 1) * div == 2 * p + div;
  }

  lemma RoundHalfEvenNearest(mag: nat, e: int)
    requires mag > 0
    ensures var (m, f) := RoundHalfEven(mag, e);
            && IsNearestEven(Value(mag, e), Value(m, f))
            && (mag > MAX_MANTISSA ==> InRange(m))
            && (mag <= MAX_MANTISSA ==> m == mag && f == e)
  {
    if mag <= MAX_MANTISSA {
      SmallIsNearest(mag, e);
    } else {
      hide Value, Scale, Pow10, DigitsOver;
      DigitsOverBounds(mag);
      var k := DigitsOver(mag);
      var q := mag / Pow10(k);
      SplitDigits(mag, e, k);
      var (m, f) := RoundHalfEven(mag, e);
      ValueTimesTen(MIN_MANTISSA, e + k);
      assert NearestAt(Value(mag, e), q, e + k, Value(m, f));
    }
  }

  /** `r` holds the value `v`, or says that `v` is out of range. */
  ghost predicate Carries(v: real, negative: bool, r: Result<IouAmount>) {
    && (r.Err? <==> v >= Scale(96))
    && (r == Ok(ZERO) <==> v < Scale(-81))
    && (r.Ok? && r.value != ZERO ==>
          Normalized(r.value) && Magnitude(r.value) == v && r.value.negative == negative)
  }

  /** `r` is the magnitude `x` rounded half-to-even to sixteen digits. */
  ghost predicate RoundsTo(x: real, negative: bool, r: Result<IouAmount>) {
    exists v: real {:trigger IsNearestEven(x, v)} :: IsNearestEven(x, v) && Carries(v, negative, r)
  }

  /** Normalizing a magnitude of at most sixteen digits is exact. */
  lemma FromPartsExact(m: nat, e: int, negative: bool)
    requires 0 < m <= MAX_MANTISSA
    ensures Carries(Value(m, e), negative, FromParts(m, e, negative))
  {
    FromPartsTruncates(m, e, negative);
    ScaleUpValue(m, e);
    FromPartsScaled(m, e, negative);
    hide Value, Scale, FromParts, ScaleUp;
    var (m1, e1) := ScaleUp(m, e);
    IouDirected.FromPartsInRange(m1, e1, negative);
  }

  // ---------------------------------------------------------------- addition

  function AddRound(a: IouAmount, b: IouAmount): (r: Result<IouAmount>) {
    if a.mantissa == 0 then Ok(b)
    else if b.mantissa == 0 then Ok(a)
    else
      var lo := if a.exponent < b.exponent then a.exponent else b.exponent;
      var hi := if a.exponent > b.exponent then a.exponent else b.exponent;
      if hi - lo > 19 then Ok(if a.exponent == hi then a else b)
      else
        var sum := SignedAt(a, lo) + SignedAt(b, lo);
        if sum == 0 then Ok(ZERO)
        else
          var (m, e) := RoundHalfEven(if sum < 0 then -sum else sum, lo);
          FromParts(m, e, sum < 0)
  }

  /** The signed mantissa of an amount at a lower exponent. */
  function SignedAt(a: IouAmount, lo: int): (v: int)
    requires lo <= a.exponent
  {
    var m := a.mantissa * Pow10(a.exponent - lo);
    if a.negative then -m else m
  }

  ghost function Abs(x: real): (r: real)
    ensures r >= 0.0 && (r == x || r == -x)
  {
    if x < 0.0 then -x else x
  }

  /** `r` is the number `s` rounded half-to-even to sixteen digits, with the sign of `s`. */
  ghost predicate RoundedSum(s: real, r: Result<IouAmount>) {
    if s == 0.0 then r == Ok(ZERO) else RoundsTo(Abs(s), s < 0.0, r)
  }

  lemma SignedAtValue(a: IouAmount, lo: int)
    requires lo <= a.exponent
    ensures Value(SignedAt(a, lo), lo) == Denotes(a)
  {
    ValueShift(a.mantissa, a.exponent - lo, lo);
    NegateValue(a.mantissa * Pow10(a.exponent - lo), lo);
  }

  lemma NegateValue(m: int, e: int)
    ensures Value(-m, e) == -Value(m, e)
  {}

  lemma SumValue(m: int, n: int, e: int)
    ensures Value(m + n, e) == Value(m, e) + Value(n, e)
  {}

  /** Nonzero amounts are inside the representable range. */
  lemma NormalizedRange(a: IouAmount)
    requires Normalized(a) && a != ZERO
    ensures Scale(-81) <= Magnitude(a) < Scale(96) && Magnitude(a) > 0.0
    ensures IsNearestEven(Magnitude(a), Magnitude(a))
  {
    hide Value, Scale;
    SmallIsNearest(a.mantissa, a.exponent);
    ValueMonotone(a.mantissa, a.mantissa + 1, a.exponent);
    DecadeBounds(Magnitude(a), a.mantissa, a.exponent);
    ScaleMonotone(-81, a.exponent + 15);
    ScaleMonotone(a.exponent + 16, 96);
    ScalePositive(-81);
  }

  /** Adding zero. */
  lemma AddZero(a: IouAmount)
    requires Normalized(a)
    ensures RoundedSum(Denotes(a), Ok(a))
  {
    hide Value, Scale, IsNearestEven;
    if a == ZERO {
      ZeroValue(ZERO_EXPONENT);
    } else {
      NormalizedRange(a);
      assert IsNearestEven(Abs(Denotes(a)), Magnitude(a));
    }
  }

  /** A far smaller term of the same sign does not reach half a unit. */
  lemma NearSameSign(m: nat, e: int, y: real)
    requires InRange(m) && 0.0 < y && 100.0 * y < Scale(e)
    ensures NearestAt(Value(m, e) + y, m, e, Value(m, e))
  {
    hide Value, Scale;
    NextValue(m, e);
    DoubleValue(m, e);
    NextValue(2 * m, e);
  }

  /** A far smaller term of the opposite sign does not either, even across a decade. */
  lemma NearOppositeSign(m: nat, e: int, y: real)
    requires InRange(m) && 0.0 < y && 100.0 * y < Scale(e)
    ensures IsNearestEven(Value(m, e) - y, Value(m, e))
  {
    hide Value, Scale;
    var x := Value(m, e) - y;
    if m > MIN_MANTISSA {
      NextValue(m - 1, e);
      DoubleValue(m - 1, e);
      NextValue(2 * (m - 1), e);
      assert NearestAt(x, m - 1, e, Value(m, e));
    } else {
      var q := 10 * m - 1;
      ValueTimesTen(m, e - 1);
      ScaleStep(e - 1);
      NextValue(q, e - 1);
      DoubleValue(q, e - 1);
      NextValue(2 * q, e - 1);
      assert NearestAt(x, q, e - 1, Value(m, e));
    }
  }

  /** The early return for exponent gaps above nineteen is the correctly rounded sum. */
  lemma GapSum(big: IouAmount, small: IouAmount)
    requires Normalized(big) && Normalized(small) && big != ZERO && small != ZERO
    requires big.exponent - small.exponent > 19
    ensures RoundedSum(Denotes(big) + Denotes(small), Ok(big))
    ensures RoundedSum(Denotes(small) + Denotes(big), Ok(big))
  {
    hide Value, Scale, IsNearestEven;
    NormalizedRange(big);
    NormalizedRange(small);
    var y := Magnitude(small);
    FarBelow(big, small);
    NearSameSign(big.mantissa, big.exponent, y);
    NearOppositeSign(big.mantissa, big.exponent, y);
    NearestWitness(Magnitude(big) + y, big.mantissa, big.exponent, Magnitude(big));
    SignOfSum(big, small);
    assert Denotes(big) + Denotes(small) == Denotes(small) + Denotes(big);
  }

  lemma NearestWitness(x: real, q: nat, e: int, v: real)
    requires NearestAt(x, q, e, v)
    ensures IsNearestEven(x, v)
  {}

  lemma FarBelow(big: IouAmount, small: IouAmount)
    requires Normalized(small) && small != ZERO && big.exponent - small.exponent > 19
    ensures 100.0 * Magnitude(small) < Scale(big.exponent)
  {
    hide Value, Scale;
    var e := small.exponent;
    ValueMonotone(small.mantissa, small.mantissa + 1, e);
    DecadeBounds(Magnitude(small), small.mantissa, e);
    ScaleStep(e + 16);
    ScaleStep(e + 17);
    ScaleMonotone(e + 18, big.exponent);
  }

  lemma SignOfSum(big: IouAmount, small: IouAmount)
    requires Magnitude(small) > 0.0 && 100.0 * Magnitude(small) < Scale(big.exponent) && InRange(big.mantissa)
    ensures var s := Denotes(big) + Denotes(small);
            && s != 0.0 && (s < 0.0 <==> big.negative)
            && Abs(s) == if big.negative == small.negative then Magnitude(big) + Magnitude(small)
                         else Magnitude(big) - Magnitude(small)
  {
    hide Value, Scale;
    ValueMonotone(1, big.mantissa, big.exponent);
    OneUnit(big.exponent);
  }

  lemma OneUnit(e: int)
    ensures Value(1, e) == Scale(e)
  {}

  /** Aligned sums are exact before they are rounded. */
  lemma AlignedSum(sum: int, lo: int, s: real)
    requires Value(sum, lo) == s
    ensures var (m, e) := RoundHalfEven(if sum < 0 then -sum else sum, lo);
            RoundedSum(s, if sum == 0 then Ok(ZERO) else FromParts(m, e, sum < 0))
  {
    ScalePositive(lo);
    ZeroValue(lo);
    hide Value, Scale, FromParts, RoundHalfEven, IsNearestEven;
    ValueMonotone(sum, 0, lo);
    ValueMonotone(0, sum, lo);
    NegateValue(sum, lo);
    if sum != 0 {
      var mag := if sum < 0 then -sum else sum;
      RoundHalfEvenNearest(mag, lo);
      var (m, e) := RoundHalfEven(mag, lo);
      FromPartsExact(m, e, sum < 0);
      assert Abs(s) == Value(mag, lo);
    }
  }

  /** The sum is the exact sum rounded half-to-even to sixteen digits, for all amounts. */
  lemma AddRoundIsNearest(a: IouAmount, b: IouAmount)
    requires Normalized(a) && Normalized(b)
    ensures RoundedSum(Denotes(a) + Denotes(b), AddRound(a, b))
  {
    ZeroValue(ZERO_EXPONENT);
    hide Value, Scale, FromParts, RoundHalfEven, RoundedSum, SignedAt;
    if a == ZERO {
      AddZero(b);
    } else if b == ZERO {
      AddZero(a);
    } else if a.exponent - b.exponent > 19 {
      GapSum(a, b);
    } else if b.exponent - a.exponent > 19 {
      GapSum(b, a);
    } else {
      var lo := if a.exponent < b.exponent then a.exponent else b.exponent;
      SignedAtValue(a, lo);
      SignedAtValue(b, lo);
      var sum := SignedAt(a, lo) + SignedAt(b, lo);
      SumValue(SignedAt(a, lo), SignedAt(b, lo), lo);
      AlignedSum(sum, lo, Denotes(a) + Denotes(b));
    }
  }

  // ---------------------------------------------------------------- the order-book quotient

  /** The `+ 5` biased quotient, reduced half-to-even instead of truncated. */
  function DivideRoundEven(num: IouAmount, den: IouAmount): (r: Result<IouAmount>) {
    if den.mantissa == 0 then Err(DivisionByZero)
    else if num.mantissa == 0 then Ok(ZERO)
    else
      var (m1, e1) := ScaleUp(num.mantissa, num.exponent);
      var (m2, e2) := ScaleUp(den.mantissa, den.exponent);
      var (m, e) := RoundHalfEven(m1 * TEN_TO_17 / m2 + 5, e1 - e2 - 17);
      if m > U64_MAX then Err(Overflow) else FromParts(m, e, num.negative != den.negative)
  }

  /** Rounding to nearest moves by at most half a unit of the sixteen-digit result. */
  lemma NearestWithinHalf(mag: nat, e: int, v: IouAmount)
    requires mag > MAX_MANTISSA && Normalized(v) && v != ZERO && IsNearestEven(Value(mag, e), Magnitude(v))
    ensures v.exponent > e
    ensures -Ulp(v) <= 2.0 * (Magnitude(v) - Value(mag, e)) <= Ulp(v)
  {
    hide Value, Scale;
    var x := Value(mag, e);
    var q: nat, f :| NearestAt(x, q, f, Magnitude(v));
    TruncatesADigit(x, mag, e, q, f);
    DoubleValue(q, f);
    NextValue(2 * q, f);
    NextValue(q, f);
    NeighbourExponent(q, f, v);
    ScaleMonotone(f, v.exponent);
    ScalePositive(f);
  }

  /** Both neighbours of a sixteen-digit floor sit at its exponent or one above. */
  lemma NeighbourExponent(q: nat, f: int, v: IouAmount)
    requires InRange(q) && Normalized(v) && v != ZERO
    requires Magnitude(v) == Value(q, f) || Magnitude(v) == Value(q + 1, f)
    ensures v.exponent >= f
  {
    hide Value, Scale;
    ValueMonotone(q, q + 1, f);
    ValueMonotone(v.mantissa, v.mantissa + 1, v.exponent);
    DecadeBounds(Value(q, f), q, f);
    DecadeBounds(Magnitude(v), v.mantissa, v.exponent);
    if v.exponent < f { ScaleMonotone(v.exponent + 16, f + 15); }
  }

  /** What DivideRoundEven computes, in terms of the exact quotient `x` and its whole part. */
  lemma DivideRoundEvenParts(num: IouAmount, den: IouAmount)
    requires Normalized(num) && Normalized(den) && num != ZERO && den != ZERO
    ensures Magnitude(den) > 0.0
    ensures var p, e := num.mantissa * TEN_TO_17 / den.mantissa, num.exponent - den.exponent - 17;
            var x, r := Magnitude(num) / Magnitude(den), DivideRoundEven(num, den);
            && Floors(x, p, e) && p > MAX_MANTISSA
            && RoundsTo(Value(p + 5, e), num.negative != den.negative, r)
  {
    hide Value, Scale, FromParts, RoundHalfEven, IsNearestEven, Carries;
    IouDirected.QuotientCounts(num, den);
    var raw, e := num.mantissa * TEN_TO_17 / den.mantissa + 5, num.exponent - den.exponent - 17;
    RoundHalfEvenNearest(raw, e);
    var (m, f) := RoundHalfEven(raw, e);
    FromPartsExact(m, f, num.negative != den.negative);
  }

  /** The order-book quotient is within one unit in the last place of the exact quotient. */
  lemma DivideRoundEvenWithinOneUlp(num: IouAmount, den: IouAmount)
    requires Normalized(num) && Normalized(den) && num != ZERO && den != ZERO
    requires DivideRoundEven(num, den).Ok? && DivideRoundEven(num, den).value != ZERO
    ensures Magnitude(den) > 0.0
    ensures var x, v := Magnitude(num) / Magnitude(den), DivideRoundEven(num, den).value;
            -Ulp(v) <= Magnitude(v) - x <= Ulp(v) && v.negative == (num.negative != den.negative)
  {
    hide Value, Scale, DivideRoundEven, IsNearestEven;
    DivideRoundEvenParts(num, den);
    var p, e := num.mantissa * TEN_TO_17 / den.mantissa, num.exponent - den.exponent - 17;
    var x, v := Magnitude(num) / Magnitude(den), DivideRoundEven(num, den).value;
    NearestWithinHalf(p + 5, e, v);
    FiveUnits(x, p, e);
    ScaleStep(e);
    ScaleMonotone(e + 1, v.exponent);
  }

  /** Rounding to nearest stays within the decade of the value, or carries to the next one. */
  lemma NearestRange(x: real, v: real)
    requires IsNearestEven(x, v)
    ensures x >= Scale(-81) ==> v >= Scale(-81)
    ensures x >= Scale(96) ==> v >= Scale(96)
    ensures v >= Scale(96) ==> 2.0 * x >= 2.0 * Scale(96) - Scale(80)
  {
    hide Value, Scale;
    var q: nat, f :| NearestAt(x, q, f, v);
    DecadeBounds(x, q, f);
    DecadeBounds(Value(q, f), q, f);
    ValueMonotone(q, q + 1, f);
    ValueMonotone(q + 1, MAX_MANTISSA + 1, f);
    SixteenDigits(f);
    if f + 16 <= -81 { ScaleMonotone(f + 16, -81); } else { ScaleMonotone(-81, f + 15); }
    ScalePositive(80);
    if f + 16 <= 96 { ScaleMonotone(f + 16, 96); } else { ScaleMonotone(96, f + 15); }
    if f + 16 < 96 {
      ScaleStep(95);
      ScaleMonotone(f + 16, 95);
      ScalePositive(95);
    } else if f == 80 && v >= Scale(96) {
      CarryIsHalf(x, q, v);
    }
  }

  lemma CarryIsHalf(x: real, q: nat, v: real)
    requires NearestAt(x, q, 80, v) && v >= Scale(96)
    ensures 2.0 * x >= 2.0 * Scale(96) - Scale(80)
  {
    hide Value, Scale;
    SixteenDigits(80);
    ValueMonotone(q, MAX_MANTISSA, 80);
    ValueMonotone(q + 1, MAX_MANTISSA, 80);
    ValueMonotone(MAX_MANTISSA, MAX_MANTISSA + 1, 80);
    DoubleValue(MAX_MANTISSA + 1, 80);
    NextValue(2 * MAX_MANTISSA + 1, 80);
  }

  /** The order-book quotient overflows from 10^96 up and only near it, and vanishes only below 10^-81. */
  lemma DivideRoundEvenRange(num: IouAmount, den: IouAmount)
    requires Normalized(num) && Normalized(den) && num != ZERO && den != ZERO
    ensures Magnitude(den) > 0.0
    ensures var x, r := Magnitude(num) / Magnitude(den), DivideRoundEven(num, den);
            && (x >= Scale(96) ==> r.Err?) && (r.Err? ==> x >= Scale(96) - Scale(80))
            && (r == Ok(ZERO) ==> x < Scale(-81))
  {
    hide Value, Scale, DivideRoundEven, IsNearestEven;
    DivideRoundEvenParts(num, den);
    var p, e := num.mantissa * TEN_TO_17 / den.mantissa, num.exponent - den.exponent - 17;
    var x, r := Magnitude(num) / Magnitude(den), DivideRoundEven(num, den);
    var v :| IsNearestEven(Value(p + 5, e), v) && Carries(v, num.negative != den.negative, r);
    NearestRange(Value(p + 5, e), v);
    FiveUnits(x, p, e);
    ScalePositive(80);
    if e >= 80 {
      SixteenDigits(e);
      ValueMonotone(MAX_MANTISSA + 1, p, e);
      ScaleMonotone(96, e + 16);
    } else {
      ScaleMonotone(e, 79);
      ScaleStep(79);
    }
  }

  lemma FiveUnits(x: real, p: nat, e: int)
    requires Floors(x, p, e)
    ensures x < Value(p + 5, e) <= x + 5.0 * Scale(e)
  {
    ScalePositive(e);
    ValueMonotone(p + 1, p + 5, e);
    assert Value(p + 5, e) == Value(p, e) + 5.0 * Scale(e);
  }

  /** The bias meets the rounding: an exact quotient comes back exact except when it is a
      seventeen-digit count (the numerator's mantissa is the smaller) with an odd last digit;
      then the `+ 5` is a tie and rounds away from it. */
  lemma DivideRoundEvenExactIff(num: IouAmount, den: IouAmount, v: IouAmount)
    requires Normalized(num) && Normalized(den) && num != ZERO && den != ZERO
    requires Normalized(v) && v != ZERO && v.negative == (num.negative != den.negative)
    requires Magnitude(den) > 0.0 && Magnitude(v) == Magnitude(num) / Magnitude(den)
    ensures DivideRoundEven(num, den) == Ok(v) <==> !(num.mantissa < den.mantissa && v.mantissa % 2 == 1)
  {
    hide Value, Scale, DivideRoundEven;
    DivideRoundEvenParts(num, den);
    var p, e := num.mantissa * TEN_TO_17 / den.mantissa, num.exponent - den.exponent - 17;
    var x, r := Magnitude(v), DivideRoundEven(num, den);
    ExactDigits(x, p, e, v);
    SeventeenDigits(num.mantissa, den.mantissa);
    var k := v.exponent - e;
    assert k == 1 <==> num.mantissa < den.mantissa by {
      if k == 1 { assert Pow10(1) == 10; } else { LargePower(k); MultipleBound(v.mantissa, Pow10(k)); }
    }
    var w := if k == 1 && v.mantissa % 2 == 1 then v.mantissa + 1 else v.mantissa;
    assert NearestAt(Value(p + 5, e), v.mantissa, v.exponent, Value(w, v.exponent));
    NearestWitness(Value(p + 5, e), v.mantissa, v.exponent, Value(w, v.exponent));
    var y :| IsNearestEven(Value(p + 5, e), y) && Carries(y, v.negative, r);
    NearestEvenUnique(Value(p + 5, e), y, Value(w, v.exponent));
    NormalizedRange(v);
    ValueMonotone(v.mantissa, v.mantissa + 1, v.exponent);
    if w == v.mantissa {
      MagnitudeOrder(r.value, v);
    }
  }

  lemma LargePower(k: nat)
    requires k >= 2
    ensures Pow10(k) >= 100
  {
    Pow10Monotone(2, k);
    assert Pow10(2) == 100;
  }

  lemma MultipleBound(m: nat, d: nat)
    requires m >= MIN_MANTISSA && d >= 100
    ensures m * d >= TEN_TO_17
  {
    MultiplyBounds(MIN_MANTISSA, m, 100, d);
  }

  /** The whole part has seventeen digits exactly when the numerator's mantissa is smaller. */
  lemma SeventeenDigits(m: nat, n: nat)
    requires InRange(m) && InRange(n)
    ensures m * TEN_TO_17 / n < TEN_TO_17 <==> m < n
  {
    if m < n {
      MultiplyBounds(m, n - 1, TEN_TO_17, TEN_TO_17);
      DivideWithin(m * TEN_TO_17, n, 0, TEN_TO_17 - 1);
    } else {
      MultiplyBounds(n, m, TEN_TO_17, TEN_TO_17);
      assert m * TEN_TO_17 < (m * TEN_TO_17 + 1) * n;
      DivideWithin(m * TEN_TO_17, n, TEN_TO_17, m * TEN_TO_17);
    }
  }

  /** An exact magnitude's whole part, and where five more units put it against half way. */
  lemma ExactDigits(x: real, p: nat, e: int, v: IouAmount)
    requires Floors(x, p, e) && p > MAX_MANTISSA && Normalized(v) && v != ZERO && x == Magnitude(v)
    ensures v.exponent > e && p == v.mantissa * Pow10(v.exponent - e)
    ensures Floors(Value(p + 5, e), v.mantissa, v.exponent)
    ensures var twice, half := 2.0 * Value(p + 5, e), Value(2 * v.mantissa + 1, v.exponent);
            if v.exponent == e + 1 then twice == half else twice < half
  {
    hide Value, Scale;
    BiasKeepsDigits(x, p, 5, e, v);
    TruncatesADigit(Value(p + 5, e), p + 5, e, v.mantissa, v.exponent);
    var k := v.exponent - e;
    var unit := Pow10(k);
    if k == 1 { assert unit == 10; } else { LargePower(k); }
    hide Pow10;
    ValueShift(v.mantissa, k, e);
    ValueMonotone(v.mantissa * unit, v.mantissa * unit + 1, e);
    FloorsUnique(x, p, v.mantissa * unit, e);
    assert (2 * v.mantissa + 1) * unit == 2 * p + unit;
    ValueShift(2 * v.mantissa + 1, k, e);
    DoubleValue(p + 5, e);
    ValueMonotone(2 * (p + 5), 2 * p + unit, e);
  }

  /** The smallest odd case: 1.000000000000001 / 2 is 0.5000000000000005 but comes back one unit up. */
  lemma DivideRoundEvenCanMissExact()
    ensures var num, den := IouAmount(1_000_000_000_000_001, -15, false), IouAmount(2_000_000_000_000_000, -15, false);
            var v := IouAmount(5_000_000_000_000_005, -16, false);
            && Normalized(num) && Normalized(den) && Normalized(v)
            && Magnitude(den) > 0.0 && Magnitude(v) == Magnitude(num) / Magnitude(den)
            && DivideRoundEven(num, den) != Ok(v)
  {
    var num, den := IouAmount(1_000_000_000_000_001, -15, false), IouAmount(2_000_000_000_000_000, -15, false);
    var v := IouAmount(5_000_000_000_000_005, -16, false);
    hide Value, Scale, DivideRoundEven;
    QuotientBounds(num.mantissa, -15, den.mantissa, -15, v.mantissa, 16);
    assert Pow10(16) == 10_000_000_000_000_000 by {
      assert Pow10(8) == 100_000_000;
      Pow10Add(8, 8);
    }
    assert v.mantissa * den.mantissa == num.mantissa * 10_000_000_000_000_000;
    DivideRoundEvenExactIff(num, den, v);
  }
}
