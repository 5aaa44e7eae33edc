/** Products and quotients of IOU amounts rounded in a chosen direction. */
module IouDirected {
  import opened Primitives
  import opened Decimal
  import opened Iou
  import opened IouMulDiv

  // ---------------------------------------------------------------- rounding an oversized mantissa up

  /** Cut to at most seventeen digits, truncating. */
  function ReduceAbove(amount: nat, offset: int): (r: (nat, int))
    decreases amount
  {
    if amount > 10 * MAX_MANTISSA then ReduceAbove(amount / 10, offset + 1) else (amount, offset)
  }

  /** Sixteen digits, the last one rounded up. */
  function CanonicalizeRound(amount: nat, offset: int): (r: (nat, int)) {
    if amount > MAX_MANTISSA then
      var (v, o) := ReduceAbove(amount, offset);
      ((v + 9) / 10, o + 1)
    else (amount, offset)
  }

  /** The canonicalization loop, in place on amount and offset. */
  method CanonicalizeRoundInPlace(amount: nat, offset: int) returns (v: nat, o: int)
    ensures (v, o) == CanonicalizeRound(amount, offset)
  {
    v, o := amount, offset;
    if v > MAX_MANTISSA {
      while v > 10 * MAX_MANTISSA
        invariant ReduceAbove(v, o) == ReduceAbove(amount, offset)
        decreases v
      {
        v := v / 10;
        o := o + 1;
      }
      v := v + 9;
      v := v / 10;
      o := o + 1;
    }
  }

  /** The shared tail: canonicalize away from zero if asked to, normalize, and lift a positive
      result that vanished to the smallest amount. */
  function DirectedFinish(raw: nat, offset: int, negative: bool, roundUp: bool): (r: Result<IouAmount>) {
    if raw > U64_MAX then Err(Overflow)
    else
      var (amount, o) := if negative != roundUp then CanonicalizeRound(raw, offset) else (raw, offset);
      var r := FromParts(amount, o, negative);
      if r == Ok(ZERO) && roundUp && !negative then Ok(MIN_POSITIVE) else r
  }

  predicate IsNegative(a: IouAmount) {
    a.negative && a.mantissa != 0
  }

  function MulRound(a: IouAmount, b: IouAmount, roundUp: bool): (r: Result<IouAmount>) {
    if a.mantissa == 0 || b.mantissa == 0 then
      if roundUp && !(IsNegative(a) || IsNegative(b)) then Ok(MIN_POSITIVE) else Ok(ZERO)
    else
      var (m1, e1) := ScaleUp(a.mantissa, a.exponent);
      var (m2, e2) := ScaleUp(b.mantissa, b.exponent);
      var negative := a.negative != b.negative;
      var bias := if negative != roundUp then TEN_TO_14 - 1 else 0;
      DirectedFinish((m1 * m2 + bias) / TEN_TO_14, e1 + e2 + 14, negative, roundUp)
  }

  function DivRound(num: IouAmount, den: IouAmount, roundUp: bool): (r: Result<IouAmount>) {
    if den.mantissa == 0 then Err(DivisionByZero)
    else if num.mantissa == 0 then
      if roundUp && !IsNegative(num) then Ok(MIN_POSITIVE) else Ok(ZERO)
    else
      var (m1, e1) := ScaleUp(num.mantissa, num.exponent);
      var (m2, e2) := ScaleUp(den.mantissa, den.exponent);
      var negative := num.negative != den.negative;
      var bias := if negative != roundUp then m2 - 1 else 0;
      DirectedFinish((m1 * TEN_TO_17 + bias) / m2, e1 - e2 - 17, negative, roundUp)
  }

  // ---------------------------------------------------------------- what the directions mean

  /** `q` is the least integer count of units of ten to the `e` that reaches `x`. */
  ghost predicate Ceils(x: real, q: int, e: int) {
    Value(q - 1, e) < x <= Value(q, e)
  }

  /** The raw counts the biased division produces for normalized operands. */
  predicate RawRange(raw: nat) {
    MAX_MANTISSA < raw <= TEN_TO_17 * 10 - 100
  }

  /** Away from zero: less than one unit in the last place above the exact magnitude, less than a
      tenth of one below it, and below it exactly for an oversized raw value that ends in 01 to 09. */
  ghost predicate RoundedAway(x: real, raw: nat, v: IouAmount) {
    && Magnitude(v) - x < Ulp(v)
    && 10.0 * (x - Magnitude(v)) < Ulp(v)
    && (Magnitude(v) < x <==> raw > 10 * MAX_MANTISSA && 1 <= raw % 100 <= 9)
  }

  lemma CanonicalizeRoundCases(raw: nat, e: int)
    requires RawRange(raw)
    ensures var (m, f) := CanonicalizeRound(raw, e);
            && InRange(m)
            && (raw <= 10 * MAX_MANTISSA ==> f == e + 1 && raw <= 10 * m <= raw + 9)
            && (raw > 10 * MAX_MANTISSA ==>
                  && f == e + 2 && raw - 9 <= 100 * m <= raw + 90
                  && (100 * m < raw <==> 1 <= raw % 100 <= 9)
                  && (100 * m < raw ==> 100 * m == raw - raw % 100))
  {
    if raw > 10 * MAX_MANTISSA {
      assert raw / 10 <= 10 * MAX_MANTISSA;
      assert ReduceAbove(raw / 10, e + 1) == (raw / 10, e + 1);
    }
  }

  /** The away-from-zero mantissa against the exact magnitude. */
  lemma RoundedAwayHolds(x: real, raw: nat, e: int, negative: bool)
    requires RawRange(raw) && Ceils(x, raw, e)
    ensures var (m, f) := CanonicalizeRound(raw, e);
            InRange(m) && RoundedAway(x, raw, IouAmount(m, f, negative))
  {
    CanonicalizeRoundCases(raw, e);
    hide CanonicalizeRound, Value, Scale;
    var (m, f) := CanonicalizeRound(raw, e);
    ScaleStep(e);
    ScaleStep(e + 1);
    ValueTimesTen(m, e);
    ValueTimesTen(10 * m, e);
    ValueTimesTen(m, e + 1);
    if f == e + 1 {
      UnitBounds(10 * m - raw, x, raw, e);
    } else {
      UnitBounds(100 * m - raw, x, raw, e);
    }
  }

  /** A count `d` units away from the ceiling of `x`. */
  lemma UnitBounds(d: int, x: real, raw: nat, e: int)
    requires Ceils(x, raw, e)
    ensures Scale(e) > 0.0
    ensures d <= 9 ==> Value(raw + d, e) - x < 10.0 * Scale(e)
    ensures d <= 90 ==> Value(raw + d, e) - x < 100.0 * Scale(e)
    ensures d >= -9 ==> 10.0 * (x - Value(raw + d, e)) < 100.0 * Scale(e)
    ensures d >= 0 ==> x - Value(raw + d, e) <= 0.0
    ensures Value(raw + d, e) < x <==> d < 0
  {
    ScalePositive(e);
    ValueMonotone(raw + d, raw + 9, e);
    ValueMonotone(raw + d, raw + 90, e);
    ValueMonotone(raw - 9, raw + d, e);
    ValueMonotone(raw, raw + d, e);
    ValueMonotone(raw + d, raw - 1, e);
    FixedSteps(raw, e);
  }

  lemma FixedSteps(m: int, e: int)
    ensures Value(m - 1, e) == Value(m, e) - Scale(e)
    ensures Value(m - 9, e) == Value(m, e) - 9.0 * Scale(e)
    ensures Value(m + 9, e) == Value(m, e) + 9.0 * Scale(e)
    ensures Value(m + 90, e) == Value(m, e) + 90.0 * Scale(e)
  {}

  /** Normalizing a mantissa that already has sixteen digits. */
  lemma FromPartsInRange(m: nat, e: int, negative: bool)
    requires InRange(m)
    ensures FromParts(m, e, negative)
         == if e < MIN_EXPONENT then Ok(ZERO) else if e > MAX_EXPONENT then Err(Overflow)
           else Ok(IouAmount(m, e, negative))
  {}

  // ---------------------------------------------------------------- the four directed operations

  /** The raw counts of a product: floor and ceiling of the exact magnitude. */
  lemma ProductCounts(a: IouAmount, b: IouAmount)
    requires Normalized(a) && Normalized(b) && a != ZERO && b != ZERO
    ensures var p, e := a.mantissa * b.mantissa, a.exponent + b.exponent + 14;
            var x := Magnitude(a) * Magnitude(b);
            && Floors(x, p / TEN_TO_14, e) && Ceils(x, (p + TEN_TO_14 - 1) / TEN_TO_14, e)
            && RawRange(p / TEN_TO_14) && RawRange((p + TEN_TO_14 - 1) / TEN_TO_14)
  {
    hide Value, Scale, Pow10;
    var p, d := a.mantissa * b.mantissa, a.exponent + b.exponent;
    ProductValue(a.mantissa, a.exponent, b.mantissa, b.exponent);
    assert Magnitude(a) * Magnitude(b) == Value(p, d);
    MantissaProduct(a.mantissa, b.mantissa);
    PowersOfTen();
    FloorByPower(p, d, 14);
    var c := (p + TEN_TO_14 - 1) / TEN_TO_14;
    ValueShift(c, 14, d);
    ValueShift(c - 1, 14, d);
    ValueMonotone(p, c * TEN_TO_14, d);
    ValueMonotone((c - 1) * TEN_TO_14, p, d);
  }

  lemma QuotientCounts(num: IouAmount, den: IouAmount)
    requires Normalized(num) && Normalized(den) && num != ZERO && den != ZERO
    ensures Magnitude(den) > 0.0
    ensures var s, n, e := num.mantissa * TEN_TO_17, den.mantissa, num.exponent - den.exponent - 17;
            var x := Magnitude(num) / Magnitude(den);
            && Floors(x, s / n, e) && Ceils(x, (s + n - 1) / n, e)
            && RawRange(s / n) && RawRange((s + n - 1) / n)
  {
    hide Value, Scale, Pow10;
    var s, n := num.mantissa * TEN_TO_17, den.mantissa;
    MantissaQuotient(num.mantissa, den.mantissa);
    PowersOfTen();
    FloorAndCeiling(s, n);
    var q, c := s / n, (s + n - 1) / n;
    QuotientBounds(num.mantissa, num.exponent, n, den.exponent, q, 17);
    QuotientBounds(num.mantissa, num.exponent, n, den.exponent, q + 1, 17);
    QuotientBounds(num.mantissa, num.exponent, n, den.exponent, c, 17);
    QuotientBounds(num.mantissa, num.exponent, n, den.exponent, c - 1, 17);
    QuotientCeiling(num.mantissa, n);
  }

  lemma FloorAndCeiling(s: nat, n: nat)
    requires n > 0 && s > 0
    ensures (s / n) * n <= s < (s / n + 1) * n
    ensures var c := (s + n - 1) / n; c >= 1 && (c - 1) * n < s <= c * n && s / n <= c <= s / n + 1
  {
    var q, c := s / n, (s + n - 1) / n;
    assert q * n <= s < (q + 1) * n;
    assert c * n <= s + n - 1 < (c + 1) * n;
    assert (c - 1) * n == c * n - n && (c + 1) * n == c * n + n;
    assert c < q ==> (c + 1) * n <= q * n;
    assert c > q + 1 ==> (q + 1) * n <= (c - 1) * n;
    assert c == 0 ==> c * n == 0;
  }

  /** Even rounded up, the quotient of two mantissas stays in range. */
  lemma QuotientCeiling(m: nat, n: nat)
    requires InRange(m) && InRange(n)
    ensures (m * TEN_TO_17 + n - 1) / n <= TEN_TO_17 * 10 - 100
  {
    MultiplyBounds(m, MAX_MANTISSA, TEN_TO_17, TEN_TO_17);
    MultiplyBounds(TEN_TO_17 * 10 - 100, TEN_TO_17 * 10 - 100, MIN_MANTISSA, n);
    var top := TEN_TO_17 * 10 - 100;
    assert (top + 1) * n == top * n + n;
    DivideWithin(m * TEN_TO_17 + n - 1, n, 0, top);
  }

  /** Above every amount whose exponent is smaller than `k`. */
  ghost predicate Beyond(x: real, k: int) {
    x > Value(MAX_MANTISSA, k - 1)
  }

  /** Away from zero, over the whole range: overflow exactly beyond the largest amount, RoundedAway
      below that, and at the bottom zero for a negative result and the smallest amount for a positive one. */
  ghost predicate AwayFromZero(x: real, raw: nat, negative: bool, r: Result<IouAmount>) {
    && (r.Err? <==> Beyond(x, MAX_EXPONENT + 1))
    && (r.Err? ==> r.error == Overflow)
    && (r.Ok? && Beyond(x, MIN_EXPONENT) ==>
          Normalized(r.value) && r.value != ZERO && r.value.negative == negative && RoundedAway(x, raw, r.value))
    && (!Beyond(x, MIN_EXPONENT) ==> r == Ok(if negative then ZERO else MIN_POSITIVE))
  }

  lemma AwayFinish(x: real, raw: nat, e: int, negative: bool, roundUp: bool)
    requires RawRange(raw) && Ceils(x, raw, e) && negative != roundUp
    ensures AwayFromZero(x, raw, negative, DirectedFinish(raw, e, negative, roundUp))
    ensures var r := DirectedFinish(raw, e, negative, roundUp);
            r.Ok? && Beyond(x, MIN_EXPONENT) ==> (r.value.mantissa, r.value.exponent) == CanonicalizeRound(raw, e)
  {
    RoundedAwayHolds(x, raw, e, negative);
    var (m, f) := CanonicalizeRound(raw, e);
    FromPartsInRange(m, f, negative);
    AwayExponent(x, raw, e, MIN_EXPONENT);
    AwayExponent(x, raw, e, MAX_EXPONENT + 1);
    BeyondOrder(x, MIN_EXPONENT, MAX_EXPONENT + 1);
    hide CanonicalizeRound, RoundedAway, FromParts, Scale, Value, Beyond;
  }

  lemma BeyondOrder(x: real, j: int, k: int)
    requires j <= k
    ensures Beyond(x, k) ==> Beyond(x, j)
  {
    ScaleMonotone(j - 1, k - 1);
    hide Scale;
    assert MAX_MANTISSA as real * Scale(j - 1) <= MAX_MANTISSA as real * Scale(k - 1);
  }

  /** The rounded exponent reaches `k` exactly when the exact magnitude is beyond what fits below it. */
  lemma AwayExponent(x: real, raw: nat, e: int, k: int)
    requires RawRange(raw) && Ceils(x, raw, e)
    ensures CanonicalizeRound(raw, e).1 >= k <==> Beyond(x, k)
  {
    CanonicalizeRoundCases(raw, e);
    var f := CanonicalizeRound(raw, e).1;
    assert Beyond(x, f) && !Beyond(x, f + 1) by {
      hide CanonicalizeRound, Value, Scale;
      ValueTimesTen(MAX_MANTISSA, e);
      ValueTimesTen(10 * MAX_MANTISSA, e);
      ValueTimesTen(MAX_MANTISSA, e + 1);
      ValueMonotone(MAX_MANTISSA, raw - 1, e);
      ValueMonotone(10 * MAX_MANTISSA, raw - 1, e);
      ValueMonotone(raw, 10 * MAX_MANTISSA, e);
      ValueMonotone(raw, 100 * MAX_MANTISSA, e);
    }
    hide Beyond, CanonicalizeRound;
    if f >= k { BeyondOrder(x, k, f); } else { BeyondOrder(x, f + 1, k); }
  }

  /** Up is never below down: the away result against the toward result for the same magnitude. */
  lemma AwayNotBelowToward(x: real, raw: nat, e: int, t: Result<IouAmount>, r: Result<IouAmount>)
    requires RawRange(raw) && Ceils(x, raw, e)
    requires Truncates(x, false, t) && t.Ok? && r.Ok?
    requires Beyond(x, MIN_EXPONENT) ==>
               (r.value.mantissa, r.value.exponent) == CanonicalizeRound(raw, e) && RoundedAway(x, raw, r.value)
    ensures Magnitude(t.value) <= Magnitude(r.value)
  {
    CanonicalizeRoundCases(raw, e);
    hide CanonicalizeRound, Value, Scale;
    if t.value == ZERO {
      ZeroValue(ZERO_EXPONENT);
      ZeroValue(r.value.exponent);
      ValueMonotone(0, r.value.mantissa, r.value.exponent);
    } else if Magnitude(r.value) < x {
      SixteenDigits(MIN_EXPONENT - 1);
      ValueMonotone(MAX_MANTISSA, MAX_MANTISSA + 1, MIN_EXPONENT - 1);
      TopOfCeiling(x, raw, r.value.mantissa, e);
      TruncationUnique(x, r.value.mantissa, r.value.exponent, t.value.mantissa, t.value.exponent);
    }
  }

  lemma TopOfCeiling(x: real, hi: nat, m: nat, e: int)
    requires Ceils(x, hi, e) && 100 * m < hi && hi <= 100 * m + 9
    ensures Floors(x, m, e + 2)
  {
    hide Value, Scale;
    ValueTimesTen(m, e + 1);
    ValueTimesTen(10 * m, e);
    ValueTimesTen(m + 1, e + 1);
    ValueTimesTen(10 * (m + 1), e);
    ValueMonotone(100 * m, hi - 1, e);
    ValueMonotone(hi, 100 * (m + 1), e);
  }

  // ---------------------------------------------------------------- the theorems

  /** `r` is `x` rounded the way a result of sign `negative` goes under `roundUp`. */
  ghost predicate RoundedAsAsked(x: real, ceiling: nat, negative: bool, roundUp: bool, r: Result<IouAmount>) {
    if negative == roundUp then Truncates(x, negative, r) else AwayFromZero(x, ceiling, negative, r)
  }

  /** The directed product: toward zero it is the exact product truncated to sixteen digits, away
      from zero it is within the bounds of RoundedAway. */
  lemma MulRoundDirected(a: IouAmount, b: IouAmount, roundUp: bool)
    requires Normalized(a) && Normalized(b)
    ensures RoundedAsAsked(Magnitude(a) * Magnitude(b), (a.mantissa * b.mantissa + TEN_TO_14 - 1) / TEN_TO_14,
                           a.negative != b.negative, roundUp, MulRound(a, b, roundUp))
  {
    hide Value, Scale, FromParts, CanonicalizeRound, Truncates, AwayFromZero;
    if a == ZERO || b == ZERO {
      ZeroWithinOneUlp(a, b);
      ZeroAsAsked((a.mantissa * b.mantissa + TEN_TO_14 - 1) / TEN_TO_14, a.negative != b.negative, roundUp);
      return;
    }
    ProductCounts(a, b);
    var p, e, negative := a.mantissa * b.mantissa, a.exponent + b.exponent + 14, a.negative != b.negative;
    var x := Magnitude(a) * Magnitude(b);
    if negative == roundUp {
      FromPartsFloors(x, p / TEN_TO_14, e, negative);
    } else {
      AwayFinish(x, (p + TEN_TO_14 - 1) / TEN_TO_14, e, negative, roundUp);
    }
  }

  /** An exact zero: nothing toward zero or below it, the smallest amount above it. */
  lemma ZeroAsAsked(ceiling: nat, negative: bool, roundUp: bool)
    ensures RoundedAsAsked(0.0, ceiling, negative, roundUp, Ok(if roundUp && !negative then MIN_POSITIVE else ZERO))
  {
    hide Scale, Value;
    ScalePositive(-81);
    ScalePositive(96);
    ZeroValue(MIN_EXPONENT - 1);
    ZeroValue(MAX_EXPONENT);
    ValueMonotone(0, MAX_MANTISSA, MIN_EXPONENT - 1);
    ValueMonotone(0, MAX_MANTISSA, MAX_EXPONENT);
  }

  /** The directed quotient, likewise; zero divided by anything counts as positive. */
  lemma DivRoundDirected(num: IouAmount, den: IouAmount, roundUp: bool)
    requires Normalized(num) && Normalized(den) && den != ZERO
    ensures DivRound(num, ZERO, roundUp) == Err(DivisionByZero)
    ensures Magnitude(den) > 0.0
    ensures RoundedAsAsked(Magnitude(num) / Magnitude(den),
                           (num.mantissa * TEN_TO_17 + den.mantissa - 1) / den.mantissa,
                           num != ZERO && num.negative != den.negative, roundUp, DivRound(num, den, roundUp))
  {
    hide Value, Scale, FromParts, CanonicalizeRound, Truncates, AwayFromZero;
    PositiveMagnitude(den);
    if num == ZERO {
      ZeroQuotient(num, den);
      ZeroAsAsked((num.mantissa * TEN_TO_17 + den.mantissa - 1) / den.mantissa, false, roundUp);
      return;
    }
    QuotientCounts(num, den);
    var s, n, e := num.mantissa * TEN_TO_17, den.mantissa, num.exponent - den.exponent - 17;
    var negative := num.negative != den.negative;
    var x := Magnitude(num) / Magnitude(den);
    if negative == roundUp {
      FromPartsFloors(x, s / n, e, negative);
    } else {
      AwayFinish(x, (s + n - 1) / n, e, negative, roundUp);
    }
  }

  /** For a positive product, rounding up never gives less than rounding down. */
  lemma MulRoundUpNotBelowDown(a: IouAmount, b: IouAmount)
    requires Normalized(a) && Normalized(b) && a != ZERO && b != ZERO && a.negative == b.negative
    requires MulRound(a, b, true).Ok? && MulRound(a, b, false).Ok?
    ensures Magnitude(MulRound(a, b, false).value) <= Magnitude(MulRound(a, b, true).value)
  {
    hide Value, Scale, FromParts, CanonicalizeRound, Truncates, RoundedAway, DirectedFinish;
    MulRoundDirected(a, b, true);
    MulRoundDirected(a, b, false);
    ProductCounts(a, b);
    var p, e := a.mantissa * b.mantissa, a.exponent + b.exponent + 14;
    var c := (p + TEN_TO_14 - 1) / TEN_TO_14;
    AwayFinish(Magnitude(a) * Magnitude(b), c, e, false, true);
    AwayNotBelowToward(Magnitude(a) * Magnitude(b), c, e, MulRound(a, b, false), MulRound(a, b, true));
  }

  lemma DivRoundUpNotBelowDown(num: IouAmount, den: IouAmount)
    requires Normalized(num) && Normalized(den) && num != ZERO && den != ZERO && num.negative == den.negative
    requires DivRound(num, den, true).Ok? && DivRound(num, den, false).Ok?
    ensures Magnitude(DivRound(num, den, false).value) <= Magnitude(DivRound(num, den, true).value)
  {
    hide Value, Scale, FromParts, CanonicalizeRound, Truncates, RoundedAway, DirectedFinish;
    DivRoundDirected(num, den, true);
    DivRoundDirected(num, den, false);
    QuotientCounts(num, den);
    var s, n, e := num.mantissa * TEN_TO_17, den.mantissa, num.exponent - den.exponent - 17;
    var c := (s + n - 1) / n;
    AwayFinish(Magnitude(num) / Magnitude(den), c, e, false, true);
    AwayNotBelowToward(Magnitude(num) / Magnitude(den), c, e, DivRound(num, den, false), DivRound(num, den, true));
  }

  /** "Round up" is not always an upper bound: an eighteen-digit raw product loses its last digit
      before the last kept one is rounded. */
  lemma RoundUpCanFallBelow()
    ensures var a := IouAmount(9_000_000_000_000_001, 0, false);
            var b := IouAmount(9_000_000_000_000_009, 0, false);
            && Normalized(a) && Normalized(b)
            && MulRound(a, b, true) == Ok(IouAmount(8_100_000_000_000_009, 16, false))
            && Magnitude(MulRound(a, b, true).value) < Magnitude(a) * Magnitude(b)
  {
    var a := IouAmount(9_000_000_000_000_001, 0, false);
    var b := IouAmount(9_000_000_000_000_009, 0, false);
    var raw := 810_000_000_000_000_901;
    assert (a.mantissa * b.mantissa + TEN_TO_14 - 1) / TEN_TO_14 == raw;
    assert ReduceAbove(raw / 10, 15) == (raw / 10, 15);
    assert CanonicalizeRound(raw, 14) == (8_100_000_000_000_009, 16);
    hide Value, Scale, CanonicalizeRound;
    FromPartsInRange(8_100_000_000_000_009, 16, false);
    ProductCounts(a, b);
    RoundedAwayHolds(Magnitude(a) * Magnitude(b), raw, 14, false);
  }
}
