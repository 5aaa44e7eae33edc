/** What the guarded arithmetic of numbers has to compute: rounding to sixteen digits (Small), or to
    the digits that fit an i64 (Large), in four modes. */
module NumberRounding {
  import opened Primitives
  import opened Decimal
  import opened Iou
  import opened IouMulDiv
  import IouHalfEven

  datatype Scales = Small | Large
  datatype RoundingMode = ToNearest | TowardsZero | Downward | Upward

  const LARGE_MIN: nat := 1_000_000_000_000_000_000
  const LARGE_MAX: nat := 9_999_999_999_999_999_999
  const MAX_REP: nat := 9_223_372_036_854_775_807
  const MIN_NUMBER_EXPONENT: int := -32768
  const ZERO_NUMBER_EXPONENT: int := -0x8000_0000

  datatype Number = Number(negative: bool, mantissa: nat, exponent: int)

  const ZERO_NUMBER := Number(false, 0, ZERO_NUMBER_EXPONENT)

  function MinMantissa(scale: Scales): (m: nat) {
    if scale.Small? then MIN_MANTISSA else LARGE_MIN
  }

  function MaxMantissa(scale: Scales): (m: nat) {
    if scale.Small? then MAX_MANTISSA else LARGE_MAX
  }

  // ---------------------------------------------------------------- what correct rounding is

  /** Whether a magnitude with whole part `m` and dropped digits `rem` of `count` is rounded away
      from zero. */
  predicate RoundsUp(mode: RoundingMode, negative: bool, rem: nat, count: nat, m: nat) {
    match mode
    case ToNearest => 2 * rem > Pow10(count) || (2 * rem == Pow10(count) && m % 2 == 1)
    case TowardsZero => false
    case Downward => negative && rem > 0
    case Upward => !negative && rem > 0
  }

  /** `v` is the magnitude `x` of a number of the given sign, rounded to whole units of exponent `e`,
      of which it has `q`. */
  ghost predicate RoundedFrom(x: real, q: nat, e: int, negative: bool, mode: RoundingMode, v: real) {
    && Floors(x, q, e)
    && match mode
       case ToNearest =>
         && (2.0 * x < Value(2 * q + 1, e) ==> v == Value(q, e))
         && (2.0 * x > Value(2 * q + 1, e) ==> v == Value(q + 1, e))
         && (2.0 * x == Value(2 * q + 1, e) ==> v == Value(if q % 2 == 0 then q else q + 1, e))
       case TowardsZero => v == Value(q, e)
       case Downward => v == Value(if negative && x > Value(q, e) then q + 1 else q, e)
       case Upward => v == Value(if !negative && x > Value(q, e) then q + 1 else q, e)
  }

  /** The same at the unit of sixteen digits. */
  ghost predicate RoundedAt(x: real, q: nat, e: int, negative: bool, mode: RoundingMode, v: real) {
    InRange(q) && RoundedFrom(x, q, e, negative, mode, v)
  }

  ghost predicate CorrectlyRounded(x: real, negative: bool, mode: RoundingMode, v: real) {
    exists q: nat, e: int :: RoundedAt(x, q, e, negative, mode, v)
  }

  /** Rounding by the dropped digits is rounding of the exact integer they came from. */
  lemma RoundsUpFrom(exact: nat, e0: int, count: nat, q: nat, rem: nat, negative: bool, mode: RoundingMode)
    requires q * Pow10(count) + rem == exact && rem < Pow10(count)
    ensures RoundedFrom(Value(exact, e0), q, e0 + count, negative, mode,
                        Value(if RoundsUp(mode, negative, rem, count, q) then q + 1 else q, e0 + count))
  {
    var x, e := Value(exact, e0), e0 + count;
    DivModUnique(exact, Pow10(count), q, rem);
    assert count == 0 ==> Pow10(count) == 1 && rem == 0;
    hide Value, Scale, Pow10;
    FloorByPower(exact, e0, count);
    AboveFloor(exact, e0, count);
    if count > 0 {
      IouHalfEven.SplitDigits(exact, e0, count);
      HalfOfPower(count, rem);
    } else {
      IouHalfEven.DoubleValue(q, e);
      ValueMonotone(2 * q, 2 * q + 1, e);
    }
  }

  lemma RoundsUpIsCorrect(exact: nat, e0: int, count: nat, negative: bool, mode: RoundingMode)
    requires InRange(exact / Pow10(count))
    ensures var q, rem, e := exact / Pow10(count), exact % Pow10(count), e0 + count;
            CorrectlyRounded(Value(exact, e0), negative, mode,
                             Value(if RoundsUp(mode, negative, rem, count, q) then q + 1 else q, e))
  {
    hide Value, Scale, Pow10, RoundsUp;
    var q, rem, e := exact / Pow10(count), exact % Pow10(count), e0 + count;
    RoundsUpFrom(exact, e0, count, q, rem, negative, mode);
    assert RoundedAt(Value(exact, e0), q, e, negative, mode,
                     Value(if RoundsUp(mode, negative, rem, count, q) then q + 1 else q, e));
  }

  lemma HalfOfPower(count: nat, rem: nat)
    requires count > 0
    ensures (2 * rem > Pow10(count) <==> rem > Pow10(count) / 2)
            && (2 * rem == Pow10(count) <==> rem == Pow10(count) / 2)
  {
    assert Pow10(count) == 2 * (5 * Pow10(count - 1));
  }

  lemma AboveFloor(exact: nat, e0: int, count: nat)
    ensures Value(exact, e0) > Value(exact / Pow10(count), e0 + count) <==> exact % Pow10(count) > 0
  {
    var d := Pow10(count);
    hide Value, Scale, Pow10;
    var q := exact / d;
    assert exact == q * d + exact % d;
    ValueShift(q, count, e0);
    ValueMonotone(q * d, exact, e0);
  }

  /** Adding one stays inside the mantissa range and inside i64. */
  predicate Safe(scale: Scales, m: nat) {
    m < MaxMantissa(scale) && m < MAX_REP
  }

  /** The rounded mantissa and exponent before they are brought into range. */
  function RoundUpResult(scale: Scales, mode: RoundingMode, negative: bool, rem: nat, count: nat, m: nat, e: int)
    : (r: (nat, int))
  {
    if !RoundsUp(mode, negative, rem, count, m) then (m, e)
    else if Safe(scale, m) then (m + 1, e)
    else
      var rem' := (m % 10) * Pow10(count) + rem;
      (if RoundsUp(mode, negative, rem', count + 1, m / 10) then m / 10 + 1 else m / 10, e + 1)
  }

  /** One multiplication by ten if the mantissa is short, and zero below the least exponent. */
  function BroughtIntoRange(scale: Scales, r: (nat, int)): (s: (nat, int)) {
    var (m, e) := if r.0 < MinMantissa(scale) then (10 * r.0, r.1 - 1) else r;
    if e < MIN_NUMBER_EXPONENT then (0, ZERO_NUMBER_EXPONENT) else (m, e)
  }

  /** After a carry at the Small scale the dropped nine decides: the second look rounds up as well,
      and what comes out is the next sixteen-digit value. */
  lemma SmallRoundUp(mode: RoundingMode, negative: bool, rem: nat, count: nat, m: nat, e: int)
    requires InRange(m)
    ensures var (n, f) := RoundUpResult(Small, mode, negative, rem, count, m, e);
            && InRange(n) && e <= f <= e + 1
            && Value(n, f) == Value(if RoundsUp(mode, negative, rem, count, m) then m + 1 else m, e)
            && (rem == 0 ==> (n, f) == (m, e))
  {
    assert Pow10(count + 1) == 10 * Pow10(count);
    hide Pow10;
    ValueTimesTen(MIN_MANTISSA, e);
  }

  /** The rounded guard, as a statement about the exact integer the digits came from. */
  lemma SmallRounded(mode: RoundingMode, negative: bool, whole: nat, e0: int, rem: nat, count: nat, m: nat, e: int)
    requires InRange(m) && rem < Pow10(count) && m * Pow10(count) + rem == whole && e == e0 + count
    ensures var (n, f) := RoundUpResult(Small, mode, negative, rem, count, m, e);
            && InRange(n) && e <= f <= e + 1
            && CorrectlyRounded(Value(whole, e0), negative, mode, Value(n, f))
            && Value(whole, e0) < Scale(e + 16)
  {
    hide Value, Scale, Pow10, RoundUpResult, CorrectlyRounded;
    DivModUnique(whole, Pow10(count), m, rem);
    SmallRoundUp(mode, negative, rem, count, m, e);
    RoundsUpIsCorrect(whole, e0, count, negative, mode);
    FloorByPower(whole, e0, count);
    DecadeBounds(Value(whole, e0), m, e);
  }

  /** Nothing dropped, nothing rounded. */
  lemma NoRemainder(scale: Scales, mode: RoundingMode, negative: bool, count: nat, m: nat, e: int)
    ensures RoundUpResult(scale, mode, negative, 0, count, m, e) == (m, e)
  {}

  /** `r` is the magnitude `x` correctly rounded at the Small scale, or zero for lack of exponent. */
  ghost predicate RoundedNumber(x: real, negative: bool, mode: RoundingMode, r: Number) {
    if r == ZERO_NUMBER then x < LeastNumber(Small)
    else
      && InRange(r.mantissa) && r.negative == negative && r.exponent >= MIN_NUMBER_EXPONENT
      && CorrectlyRounded(x, negative, mode, Value(r.mantissa, r.exponent))
  }

  /** Normalization gives zero only to what lies below the least value of full length. */
  lemma UnderflowBound(scale: Scales, whole: nat, e0: int, m: nat, e: int, count: nat, rem: nat)
    requires rem < Pow10(count) && m * Pow10(count) + rem == whole && e == e0 + count
    requires m <= MaxMantissa(scale) && (whole > MaxMantissa(scale) ==> m >= (MaxMantissa(scale) + 1) / 10)
    requires whole <= MaxMantissa(scale) ==> m == whole && count == 0
    requires whole < MinMantissa(scale) ==> e0 <= MIN_NUMBER_EXPONENT
    requires e < MIN_NUMBER_EXPONENT || m < MinMantissa(scale)
    ensures Value(whole, e0) < LeastNumber(scale)
  {
    hide Value, Scale, Pow10;
    DivModUnique(whole, Pow10(count), m, rem);
    FloorByPower(whole, e0, count);
    FullLength(scale, e);
    var digits := if scale.Small? then 15 else 18;
    if m < MinMantissa(scale) {
      ValueMonotone(m + 1, MinMantissa(scale), e);
      ScaleMonotone(e + digits, MIN_NUMBER_EXPONENT + digits);
    } else {
      ValueMonotone(m + 1, MaxMantissa(scale) + 1, e);
      ScaleMonotone(e + digits + 1, MIN_NUMBER_EXPONENT + digits);
    }
  }

  /** The least value of full length. */
  ghost function LeastNumber(scale: Scales): (x: real) {
    Scale(MIN_NUMBER_EXPONENT + if scale.Small? then 15 else 18)
  }

  lemma FullLength(scale: Scales, e: int)
    ensures var digits := if scale.Small? then 15 else 18;
            && Value(MinMantissa(scale), e) == Scale(e + digits)
            && Value(MaxMantissa(scale) + 1, e) == Scale(e + digits + 1)
  {
    SixteenDigits(e);
    SixteenDigits(e + 3);
    assert Pow10(3) == 1000;
    hide Value, Scale;
    ValueShift(MIN_MANTISSA, 3, e);
    ValueShift(MAX_MANTISSA + 1, 3, e);
  }

  // ---------------------------------------------------------------- the large scale

  /** The unit of the large scale: the least at which the whole part `q` of `x` fits an i64. */
  ghost predicate LargeUnit(x: real, q: nat, e: int) {
    Floors(x, q, e) && q <= MAX_REP && x >= Value(MAX_REP + 1, e - 1)
  }

  /** Rounded to that unit; but where rounding up would leave i64, three units up instead. */
  ghost predicate RoundedLargeAt(x: real, q: nat, e: int, negative: bool, mode: RoundingMode, v: real) {
    && LargeUnit(x, q, e)
    && if CarriesOut(x, q, e, negative, mode) then v == Value(q + 3, e) else RoundedFrom(x, q, e, negative, mode, v)
  }

  ghost predicate CarriesOut(x: real, q: nat, e: int, negative: bool, mode: RoundingMode) {
    q == MAX_REP && RoundedFrom(x, q, e, negative, mode, Value(q + 1, e))
  }

  ghost predicate RoundedLarge(x: real, negative: bool, mode: RoundingMode, v: real) {
    exists q: nat, e: int :: RoundedLargeAt(x, q, e, negative, mode, v)
  }

  /** A value has one such unit and count. */
  lemma LargeUnitUnique(x: real, q: nat, e: int, r: nat, f: int)
    requires LargeUnit(x, q, e) && LargeUnit(x, r, f)
    ensures q == r && e == f
  {
    hide Value, Scale;
    if e < f {
      UnitsApart(x, q, e, f);
    } else if f < e {
      UnitsApart(x, r, f, e);
    }
    FloorsUnique(x, q, r, e);
  }

  lemma UnitsApart(x: real, q: nat, e: int, f: int)
    requires Floors(x, q, e) && q <= MAX_REP && e < f
    ensures x < Value(MAX_REP + 1, f - 1)
  {
    hide Value, Scale;
    ValueMonotone(q + 1, MAX_REP + 1, e);
    ValueShift(MAX_REP + 1, f - 1 - e, e);
    Pow10Monotone(0, f - 1 - e);
    assert Pow10(0) == 1;
    MultiplyBounds(MAX_REP + 1, MAX_REP + 1, 1, Pow10(f - 1 - e));
    ValueMonotone(MAX_REP + 1, (MAX_REP + 1) * Pow10(f - 1 - e), e);
  }

  /** So the large scale too names one value in every mode. */
  lemma LargeRoundingUnique(x: real, negative: bool, mode: RoundingMode, v: real, w: real)
    requires RoundedLarge(x, negative, mode, v) && RoundedLarge(x, negative, mode, w)
    ensures v == w
  {
    hide Value, Scale, LargeUnit;
    var q: nat, e :| RoundedLargeAt(x, q, e, negative, mode, v);
    var r: nat, f :| RoundedLargeAt(x, r, f, negative, mode, w);
    LargeUnitUnique(x, q, e, r, f);
  }

  /** The result is the value rounded to its unit exactly unless the rounding carries out of i64. */
  lemma LargeIsCorrectIff(x: real, q: nat, e: int, negative: bool, mode: RoundingMode, v: real)
    requires RoundedLargeAt(x, q, e, negative, mode, v)
    ensures RoundedFrom(x, q, e, negative, mode, v) <==> !CarriesOut(x, q, e, negative, mode)
  {
    hide Value, Scale;
    ValueCancel(q + 3, q + 1, e);
  }

  /** A whole part that was cut no more than needed is at its unit. */
  lemma CutAtUnit(whole: nat, e0: int, m: nat, count: nat, rem: nat)
    requires rem < Pow10(count) && m * Pow10(count) + rem == whole && m <= MAX_REP
    requires count == 0 ==> whole >= LARGE_MIN
    requires count > 0 ==> whole >= (MAX_REP + 1) * Pow10(count - 1)
    ensures LargeUnit(Value(whole, e0), m, e0 + count)
  {
    assert count == 0 ==> Pow10(count) == 1;
    hide Value, Scale, Pow10;
    var x, e := Value(whole, e0), e0 + count;
    DivModUnique(whole, Pow10(count), m, rem);
    FloorByPower(whole, e0, count);
    if count == 0 {
      ValueMonotone(LARGE_MIN, m, e);
      ValueTimesTen(LARGE_MIN, e - 1);
      ValueMonotone(MAX_REP + 1, 10 * LARGE_MIN, e - 1);
    } else {
      ValueShift(MAX_REP + 1, count - 1, e0);
      ValueMonotone((MAX_REP + 1) * Pow10(count - 1), whole, e0);
    }
  }

  /** A whole part at its unit has at least eighteen digits. */
  lemma UnitIsLong(x: real, q: nat, e: int)
    requires LargeUnit(x, q, e)
    ensures q >= MAX_REP / 10
  {
    hide Value, Scale;
    ValueTimesTen(q + 1, e - 1);
    ValueCancel(MAX_REP + 1, 10 * (q + 1), e - 1);
  }

  /** What the guard makes of such a part at the large scale. */
  lemma LargeRoundUp(mode: RoundingMode, negative: bool, whole: nat, e0: int, rem: nat, count: nat, m: nat, e: int)
    requires LargeUnit(Value(whole, e0), m, e) && e == e0 + count
    requires m * Pow10(count) + rem == whole && rem < Pow10(count)
    ensures var (n, f) := RoundUpResult(Large, mode, negative, rem, count, m, e);
            && RoundedLarge(Value(whole, e0), negative, mode, Value(n, f))
            && m <= MAX_REP && (if m == MAX_REP && RoundsUp(mode, negative, rem, count, m)
                                then n == MAX_REP / 10 + 1 && f == e + 1 else m <= n <= MAX_REP && f == e)
  {
    var x := Value(whole, e0);
    RoundsUpFrom(whole, e0, count, m, rem, negative, mode);
    CarryAgain(mode, negative, rem, count);
    hide Value, Scale, Pow10, RoundsUp, RoundedFrom;
    var up := RoundsUp(mode, negative, rem, count, m);
    var (n, f) := RoundUpResult(Large, mode, negative, rem, count, m, e);
    UpwardIff(x, m, e, negative, mode, up);
    ValueTimesTen(MAX_REP / 10 + 1, e);
    assert RoundedLargeAt(x, m, e, negative, mode, Value(n, f));
  }

  lemma UpwardIff(x: real, q: nat, e: int, negative: bool, mode: RoundingMode, up: bool)
    requires RoundedFrom(x, q, e, negative, mode, Value(if up then q + 1 else q, e))
    ensures RoundedFrom(x, q, e, negative, mode, Value(q + 1, e)) <==> up
  {
    hide Value, Scale;
    ValueCancel(q + 1, q, e);
  }

  /** After the carry the dropped seven decides: the second look rounds up as well. */
  lemma CarryAgain(mode: RoundingMode, negative: bool, rem: nat, count: nat)
    ensures RoundsUp(mode, negative, rem, count, MAX_REP) ==>
              RoundsUp(mode, negative, (MAX_REP % 10) * Pow10(count) + rem, count + 1, MAX_REP / 10)
  {
    var p := Pow10(count);
    assert Pow10(count + 1) == 10 * p;
    assert MAX_REP % 10 == 7;
    hide Pow10;
    assert 2 * rem >= p ==> 2 * (7 * p + rem) > 10 * p;
  }

  /** Canonical mantissas of the large scale: nineteen digits that fit an i64, or end in zero. */
  predicate LargeCanonical(m: nat) {
    LARGE_MIN <= m <= LARGE_MAX && (m <= MAX_REP || m % 10 == 0)
  }

  /** `r` is the magnitude `x` rounded at the large scale, or zero for lack of exponent. */
  ghost predicate RoundedLargeNumber(x: real, negative: bool, mode: RoundingMode, r: Number) {
    if r == ZERO_NUMBER then x < LeastNumber(Large)
    else
      && LargeCanonical(r.mantissa) && r.negative == negative && r.exponent >= MIN_NUMBER_EXPONENT
      && RoundedLarge(x, negative, mode, Value(r.mantissa, r.exponent))
  }

  /** Bringing a rounded part into range gives a canonical number of that value, or zero when the
      value rounded lies below the least one. */
  lemma LargeBrought(x: real, m: nat, e: int, n: nat, f: int)
    requires LargeUnit(x, m, e) && ((m <= n <= MAX_REP && f == e) || (n == MAX_REP / 10 + 1 && f == e + 1))
    ensures var (p, g) := BroughtIntoRange(Large, (n, f));
            if p == 0 then g == ZERO_NUMBER_EXPONENT && x < LeastNumber(Large)
            else LargeCanonical(p) && g >= MIN_NUMBER_EXPONENT && Value(p, g) == Value(n, f)
  {
    UnitIsLong(x, m, e);
    FullLength(Large, e);
    hide Value, Scale;
    ValueTimesTen(n, f - 1);
    if n < LARGE_MIN {
      if f - 1 < MIN_NUMBER_EXPONENT {
        LongPartBelow(x, m, e, f);
      }
    } else if f < MIN_NUMBER_EXPONENT {
      ValueMonotone(m + 1, LARGE_MAX + 1, e);
      ScaleMonotone(e + 19, MIN_NUMBER_EXPONENT + 18);
    }
  }

  lemma LongPartBelow(x: real, m: nat, e: int, f: int)
    requires Floors(x, m, e) && f <= MIN_NUMBER_EXPONENT
    requires (m < LARGE_MIN && f == e) || (m <= MAX_REP && f == e + 1)
    ensures x < LeastNumber(Large)
  {
    FullLength(Large, e);
    hide Value, Scale;
    if f == e {
      ValueMonotone(m + 1, LARGE_MIN, e);
      ScaleMonotone(e + 18, MIN_NUMBER_EXPONENT + 18);
    } else {
      ValueMonotone(m + 1, LARGE_MAX + 1, e);
      ScaleMonotone(e + 19, MIN_NUMBER_EXPONENT + 18);
    }
  }

  /** Correct rounding names one value, in every mode. */
  lemma CorrectRoundingUnique(x: real, negative: bool, mode: RoundingMode, v: real, w: real)
    requires CorrectlyRounded(x, negative, mode, v) && CorrectlyRounded(x, negative, mode, w)
    ensures v == w
  {
    hide Value, Scale;
    var q: nat, e :| RoundedAt(x, q, e, negative, mode, v);
    var r: nat, f :| RoundedAt(x, r, f, negative, mode, w);
    TruncationUnique(x, q, e, r, f);
  }
}
