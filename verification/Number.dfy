/** The guarded decimal arithmetic of AMM math: a mantissa of 16 (Small) or 19 (Large) digits, and
    sixteen guard digits with a sticky bit for what is dropped. */
module Number {
  import opened Primitives
  import opened Decimal
  import opened Iou
  import opened IouMulDiv
  import opened NumberRounding

  /** The weight of the top guard nibble. */
  const TOP: nat := 0x1000_0000_0000_0000

  // ---------------------------------------------------------------- the guard

  /** What the nibbles and the sticky bit say about the `count` digits `rem` dropped so far. */
  ghost predicate Standing(digits: nat, xbit: bool, rem: nat, count: nat) {
    && digits < 16 * TOP && rem < Pow10(count)
    && (digits == 0 && !xbit <==> rem == 0)
    && (count > 0 ==>
          && (digits > 5 * TOP ==> 2 * rem > Pow10(count))
          && (digits < 5 * TOP ==> 2 * rem < Pow10(count))
          && (digits == 5 * TOP ==> (if xbit then 2 * rem > Pow10(count) else 2 * rem == Pow10(count))))
    && (count == 0 ==> digits == 0 && !xbit)
  }

  lemma PushStanding(digits: nat, xbit: bool, rem: nat, count: nat, d: nat)
    requires Standing(digits, xbit, rem, count) && d < 10
    ensures Standing(d * TOP + digits / 16, xbit || digits % 16 != 0, d * Pow10(count) + rem, count + 1)
  {
    var p := Pow10(count);
    assert Pow10(count + 1) == 10 * p;
    var t := d * p;
    MultiplyBounds(d, 9, p, p);
    if d <= 4 { MultiplyBounds(d, 4, p, p); }
    if d >= 6 { MultiplyBounds(6, d, p, p); }
    if d > 0 { MultiplyBounds(1, d, p, p); }
    assert d == 5 ==> t == 5 * p;
  }

  class Guard {
    var digits: nat
    var xbit: bool
    var sbit: bool

    /** The decimal digits dropped so far, as a number and as a count. */
    ghost var Rem: nat
    ghost var Count: nat

    ghost predicate Valid()
      reads this
    {
      Standing(digits, xbit, Rem, Count)
    }

    constructor (negative: bool)
      ensures Valid() && Rem == 0 && Count == 0 && sbit == negative
    {
      digits, xbit, sbit := 0, false, negative;
      Rem, Count := 0, 0;
    }

    /** Shift the nibbles down, keep what falls off in the sticky bit, put `d` on top. */
    method Push(d: nat)
      requires Valid() && d < 10
      modifies this
      ensures Valid() && sbit == old(sbit)
      ensures Rem == d * Pow10(old(Count)) + old(Rem) && Count == old(Count) + 1
    {
      PushStanding(digits, xbit, Rem, Count, d);
      xbit := xbit || digits % 16 != 0;
      digits := d * TOP + digits / 16;
      Rem := d * Pow10(Count) + Rem;
      Count := Count + 1;
    }

    method DropDigit(mantissa: nat, exponent: int) returns (m: nat, e: int)
      requires Valid()
      modifies this
      ensures Valid() && sbit == old(sbit)
      ensures m == mantissa / 10 && e == exponent + 1 && Count == old(Count) + 1
      ensures Rem == (mantissa % 10) * Pow10(old(Count)) + old(Rem)
      ensures m * Pow10(Count) + Rem == mantissa * Pow10(old(Count)) + old(Rem)
    {
      DropKeepsWhole(mantissa, Pow10(Count));
      Push(mantissa % 10);
      m, e := mantissa / 10, exponent + 1;
    }

    /** Below half, half, or above half, relative to the rounding mode. */
    method Round(mode: RoundingMode) returns (r: int)
      requires Valid()
      ensures r == -1 || r == 0 || r == 1
      ensures forall m: nat :: RoundsUp(mode, sbit, Rem, Count, m) <==> r == 1 || (r == 0 && m % 2 == 1)
    {
      assert Count == 0 ==> Pow10(Count) == 1;
      match mode {
        case TowardsZero =>
          r := -1;
        case Downward =>
          r := if sbit && (digits > 0 || xbit) then 1 else -1;
        case Upward =>
          r := if sbit then -1 else if digits > 0 || xbit then 1 else -1;
        case ToNearest =>
          r := if digits > 5 * TOP then 1
               else if digits < 5 * TOP then -1
               else if xbit then 1
               else 0;
      }
    }

    /** Round the mantissa away from zero if the guard says so. A carry out of the range drops one
        more digit and looks again; `again` counts how often. */
    method DoRoundUp(scale: Scales, mode: RoundingMode, mantissa: nat, exponent: int)
      returns (r: (nat, int), ghost again: nat)
      requires Valid() && mantissa <= MaxMantissa(scale)
      modifies this
      ensures sbit == old(sbit) && again <= 1
      ensures r == BroughtIntoRange(scale, RoundUpResult(scale, mode, sbit, old(Rem), old(Count), mantissa, exponent))
      ensures Safe(scale, mantissa) ==> again == 0
      decreases mantissa
    {
      var rounding := Round(mode);
      var m, e := mantissa, exponent;
      again := 0;
      if rounding == 1 || (rounding == 0 && m % 2 == 1) {
        if Safe(scale, m) {
          m := m + 1;
        } else {
          m, e := DropDigit(m, e);
          r, again := DoRoundUp(scale, mode, m, e);
          again := again + 1;
          return;
        }
      }
      r := BroughtIntoRange(scale, (m, e));
    }
  }

  lemma DropKeepsWhole(m: nat, p: nat)
    ensures (m / 10) * (10 * p) + (m % 10) * p == m * p
  {
    var q, d := m / 10, m % 10;
    assert m == 10 * q + d;
    assert q * (10 * p) == 10 * q * p;
    assert (10 * q + d) * p == 10 * q * p + d * p;
  }

  // ---------------------------------------------------------------- normalization

  function Packed(negative: bool, r: (nat, int)): (n: Number) {
    Number(negative && r.0 != 0, r.0, r.1)
  }

  /** Drop digits into a fresh guard until the mantissa fits. */
  method DropExcess(negative: bool, mantissa: nat, exponent: int, limit: nat)
    returns (g: Guard, m: nat, e: int)
    requires limit > 0
    ensures fresh(g) && g.Valid() && g.sbit == negative
    ensures m <= limit && e == exponent + g.Count && g.Rem < Pow10(g.Count)
    ensures m * Pow10(g.Count) + g.Rem == mantissa
    ensures mantissa <= limit ==> m == mantissa && g.Count == 0 && g.Rem == 0
    ensures mantissa > limit ==> m >= (limit + 1) / 10
    ensures if g.Count == 0 then m == mantissa else mantissa >= (limit + 1) * Pow10(g.Count - 1)
  {
    g := new Guard(negative);
    m, e := mantissa, exponent;
    assert Pow10(0) == 1;
    while m > limit
      invariant fresh(g) && g.Valid() && g.sbit == negative
      invariant e == exponent + g.Count && m * Pow10(g.Count) + g.Rem == mantissa
      invariant mantissa <= limit ==> m == mantissa && g.Count == 0 && g.Rem == 0
      invariant mantissa > limit ==> m >= (limit + 1) / 10
      invariant if g.Count == 0 then m == mantissa else mantissa >= (limit + 1) * Pow10(g.Count - 1)
      decreases m
    {
      MultiplyBounds(limit + 1, m, Pow10(g.Count), Pow10(g.Count));
      m, e := g.DropDigit(m, e);
    }
  }

  /** Raise a short mantissa as far as the least exponent allows. */
  method RaiseNumber(scale: Scales, mantissa: nat, exponent: int) returns (m: nat, e: int)
    requires mantissa > 0
    ensures m > 0 && Value(m, e) == Value(mantissa, exponent)
    ensures mantissa >= MinMantissa(scale) ==> m == mantissa && e == exponent
    ensures m < MinMantissa(scale) ==> e <= MIN_NUMBER_EXPONENT
    ensures scale.Large? && InRange(mantissa) && exponent >= MIN_NUMBER_EXPONENT + 3 ==>
              m == 1000 * mantissa && e == exponent - 3
  {
    hide Value, Scale;
    m, e := mantissa, exponent;
    while m < MinMantissa(scale) && e > MIN_NUMBER_EXPONENT
      invariant m > 0 && Value(m, e) == Value(mantissa, exponent)
      invariant mantissa >= MinMantissa(scale) ==> m == mantissa && e == exponent
      invariant scale.Large? && InRange(mantissa) && exponent >= MIN_NUMBER_EXPONENT + 3 ==>
                  || (e == exponent && m == mantissa) || (e == exponent - 1 && m == 10 * mantissa)
                  || (e == exponent - 2 && m == 100 * mantissa) || (e == exponent - 3 && m == 1000 * mantissa)
      decreases e - MIN_NUMBER_EXPONENT
    {
      ValueTimesTen(m, e - 1);
      m := m * 10;
      e := e - 1;
    }
  }

  /** Normalize a raw mantissa: scale up, drop digits into the guard, round. At the Small scale the
      result is the raw value correctly rounded to sixteen digits, at the Large scale to the digits
      that fit an i64; canonical mantissas and sixteen-digit ones come out exactly. */
  method DoNormalize(scale: Scales, mode: RoundingMode, negative: bool, mantissa: nat, exponent: int)
    returns (r: Number)
    ensures mantissa == 0 ==> r == ZERO_NUMBER
    ensures mantissa > 0 ==> Rounded(scale, Value(mantissa, exponent), negative, mode, r)
    ensures Canonical(scale, mantissa) && exponent >= MIN_NUMBER_EXPONENT ==> r == Number(negative, mantissa, exponent)
    ensures scale.Large? && InRange(mantissa) && exponent >= MIN_NUMBER_EXPONENT + 3 ==>
              r == Number(negative, 1000 * mantissa, exponent - 3)
  {
    hide Value, Scale, Rounded;
    if mantissa == 0 {
      return ZERO_NUMBER;
    }
    var m, e := RaiseNumber(scale, mantissa, exponent);
    r := NormalizeRaised(scale, mode, negative, m, e);
  }

  /** The same once the mantissa is as long as the exponent allows. */
  method NormalizeRaised(scale: Scales, mode: RoundingMode, negative: bool, whole: nat, e0: int) returns (r: Number)
    requires whole > 0 && (whole < MinMantissa(scale) ==> e0 <= MIN_NUMBER_EXPONENT)
    ensures Rounded(scale, Value(whole, e0), negative, mode, r)
    ensures Canonical(scale, whole) && e0 >= MIN_NUMBER_EXPONENT ==> r == Number(negative, whole, e0)
  {
    hide Value, Scale, Rounded, Standing, Pow10, BroughtIntoRange, Ready, Packed;
    var g, m, e := DropExcess(negative, whole, e0, MaxMantissa(scale));
    StandingRem(g.digits, g.xbit, g.Rem, g.Count);
    if e < MIN_NUMBER_EXPONENT || m < MinMantissa(scale) {
      UnderflowBound(scale, whole, e0, m, e, g.Count, g.Rem);
      ZeroRounds(Value(whole, e0), scale, negative, mode);
      return ZERO_NUMBER;
    }
    ghost var before, dropped := m, g.Count;
    if m > MAX_REP {
      m, e := g.DropDigit(m, e);
      StandingRem(g.digits, g.xbit, g.Rem, g.Count);
    }
    CutReady(scale, before, dropped, m, g.Count, whole);
    r := RoundGuarded(scale, g, mode, negative, m, e, whole, e0);
    if Canonical(scale, whole) {
      BroughtBack(scale, negative, whole, e0);
    }
  }

  /** Mantissas that normalization leaves alone. */
  predicate Canonical(scale: Scales, m: nat) {
    if scale.Small? then InRange(m) else LargeCanonical(m)
  }

  /** A part cut to the mantissa range, and once more if it leaves i64, is ready to be rounded. */
  lemma CutReady(scale: Scales, before: nat, dropped: nat, m: nat, count: nat, whole: nat)
    requires MinMantissa(scale) <= before <= MaxMantissa(scale) && before * Pow10(dropped) <= whole
    requires dropped == 0 ==> before == whole
    requires dropped > 0 ==> whole >= (MaxMantissa(scale) + 1) * Pow10(dropped - 1)
    requires (m, count) == if before > MAX_REP then (before / 10, dropped + 1) else (before, dropped)
    ensures Ready(scale, m, count, whole) && m <= MaxMantissa(scale)
  {
    hide Pow10;
    if before > MAX_REP {
      MultiplyBounds(MAX_REP + 1, before, Pow10(dropped), Pow10(dropped));
    } else if dropped > 0 {
      MultiplyBounds(MAX_REP + 1, LARGE_MAX + 1, Pow10(dropped - 1), Pow10(dropped - 1));
    }
  }

  lemma StandingRem(digits: nat, xbit: bool, rem: nat, count: nat)
    requires Standing(digits, xbit, rem, count)
    ensures rem < Pow10(count)
  {
  }

  lemma ZeroRounds(x: real, scale: Scales, negative: bool, mode: RoundingMode)
    requires x < LeastNumber(scale)
    ensures Rounded(scale, x, negative, mode, ZERO_NUMBER)
  {
  }

  /** A mantissa in range comes back as it was, from its first eighteen digits if it leaves i64. */
  lemma BroughtBack(scale: Scales, negative: bool, m: nat, e: int)
    requires MinMantissa(scale) <= m <= MaxMantissa(scale) && e >= MIN_NUMBER_EXPONENT
    ensures Packed(negative, BroughtIntoRange(scale, (m, e))) == Number(negative, m, e)
    ensures m > MAX_REP && m % 10 == 0 ==>
              Packed(negative, BroughtIntoRange(scale, (m / 10, e + 1))) == Number(negative, m, e)
  {
  }

  /** Round by the guard and bring into range. */
  method RoundGuarded(scale: Scales, g: Guard, mode: RoundingMode, negative: bool, m: nat, e: int, ghost whole: nat,
                      ghost e0: int)
    returns (r: Number)
    requires g.Valid() && g.sbit == negative && g.Rem < Pow10(g.Count)
    requires m * Pow10(g.Count) + g.Rem == whole && e == e0 + g.Count
    requires m <= MaxMantissa(scale)
    modifies g
    ensures Ready(scale, m, old(g.Count), whole) ==> Rounded(scale, Value(whole, e0), negative, mode, r)
    ensures old(g.Rem) == 0 ==> r == Packed(negative, BroughtIntoRange(scale, (m, e)))
  {
    hide Value, Scale, RoundUpResult, Standing, Pow10, Rounded, Ready, BroughtIntoRange;
    if g.Rem == 0 {
      NoRemainder(scale, mode, negative, g.Count, m, e);
    }
    if Ready(scale, m, g.Count, whole) {
      ReadyRounds(scale, mode, negative, whole, e0, g.Rem, g.Count, m, e);
    }
    var rounded;
    ghost var again;
    rounded, again := g.DoRoundUp(scale, mode, m, e);
    r := Packed(negative, rounded);
  }

  /** The whole part was cut exactly as far as the scale needs. */
  predicate Ready(scale: Scales, m: nat, count: nat, whole: nat) {
    if scale.Small? then InRange(m)
    else m <= MAX_REP && if count == 0 then whole >= LARGE_MIN else whole >= (MAX_REP + 1) * Pow10(count - 1)
  }

  /** `r` is the magnitude `x` rounded at the scale, or zero below its least number. */
  ghost predicate Rounded(scale: Scales, x: real, negative: bool, mode: RoundingMode, r: Number) {
    if scale.Small? then RoundedNumber(x, negative, mode, r) else RoundedLargeNumber(x, negative, mode, r)
  }

  lemma ReadyRounds(scale: Scales, mode: RoundingMode, negative: bool, whole: nat, e0: int, rem: nat, count: nat,
                    m: nat, e: int)
    requires Ready(scale, m, count, whole)
    requires rem < Pow10(count) && m * Pow10(count) + rem == whole && e == e0 + count
    ensures Rounded(scale, Value(whole, e0), negative, mode,
                    Packed(negative, BroughtIntoRange(scale, RoundUpResult(scale, mode, negative, rem, count, m, e))))
  {
    hide Value, Scale, RoundUpResult, BroughtIntoRange, RoundedNumber, RoundedLargeNumber, Pow10, Packed;
    if scale.Small? {
      SmallNumber(mode, negative, whole, e0, rem, count, m, e);
    } else {
      LargeNumber(mode, negative, whole, e0, rem, count, m, e);
    }
  }

  lemma SmallNumber(mode: RoundingMode, negative: bool, whole: nat, e0: int, rem: nat, count: nat, m: nat, e: int)
    requires InRange(m) && rem < Pow10(count) && m * Pow10(count) + rem == whole && e == e0 + count
    ensures RoundedNumber(Value(whole, e0), negative, mode,
                          Packed(negative,
                            BroughtIntoRange(Small, RoundUpResult(Small, mode, negative, rem, count, m, e))))
  {
    hide Value, Scale, CorrectlyRounded, RoundUpResult, Pow10;
    SmallRounded(mode, negative, whole, e0, rem, count, m, e);
    if e < MIN_NUMBER_EXPONENT {
      ScaleMonotone(e + 16, MIN_NUMBER_EXPONENT + 15);
    }
  }

  lemma LargeNumber(mode: RoundingMode, negative: bool, whole: nat, e0: int, rem: nat, count: nat, m: nat, e: int)
    requires m <= MAX_REP && rem < Pow10(count) && m * Pow10(count) + rem == whole && e == e0 + count
    requires if count == 0 then whole >= LARGE_MIN else whole >= (MAX_REP + 1) * Pow10(count - 1)
    ensures RoundedLargeNumber(Value(whole, e0), negative, mode,
                               Packed(negative,
                                 BroughtIntoRange(Large, RoundUpResult(Large, mode, negative, rem, count, m, e))))
  {
    hide Value, Scale, RoundedLarge, RoundUpResult, BroughtIntoRange, LargeUnit, Pow10;
    CutAtUnit(whole, e0, m, count, rem);
    LargeRoundUp(mode, negative, whole, e0, rem, count, m, e);
    var (n, f) := RoundUpResult(Large, mode, negative, rem, count, m, e);
    LargeBrought(Value(whole, e0), m, e, n, f);
  }

  // ---------------------------------------------------------------- multiplication

  /** Drop what does not fit into the guard, round, normalize. */
  method RoundProduct(scale: Scales, mode: RoundingMode, negative: bool, whole: nat, exponent: int) returns (r: Number)
    requires whole > 0
    ensures Rounded(scale, Value(whole, exponent), negative, mode, r)
  {
    hide Value, Scale, CorrectlyRounded, RoundedLarge, Standing, Pow10, BroughtIntoRange;
    var limit := if MaxMantissa(scale) < MAX_REP then MaxMantissa(scale) else MAX_REP;
    var g, m, e := DropExcess(negative, whole, exponent, limit);
    StandingRem(g.digits, g.xbit, g.Rem, g.Count);
    var n := RoundGuarded(scale, g, mode, negative, m, e, whole, exponent);
    if whole < MinMantissa(scale) {
      ShortProduct(scale, negative, whole, exponent);
    }
    r := DoNormalize(scale, mode, n.negative, n.mantissa, n.exponent);
  }

  /** A short product is raised by one digit, or too small for the scale. */
  lemma ShortProduct(scale: Scales, negative: bool, whole: nat, e: int)
    requires 0 < whole < MinMantissa(scale)
    ensures var n := Packed(negative, BroughtIntoRange(scale, (whole, e)));
            if n.mantissa == 0 then Value(whole, e) < LeastNumber(scale)
            else n.negative == negative && Value(n.mantissa, n.exponent) == Value(whole, e)
  {
    FullLength(scale, e);
    hide Value, Scale;
    ValueTimesTen(whole, e - 1);
    ValueMonotone(whole, MinMantissa(scale), e);
    if e - 1 < MIN_NUMBER_EXPONENT {
      ScaleMonotone(e + if scale.Small? then 15 else 18, MIN_NUMBER_EXPONENT + if scale.Small? then 15 else 18);
    }
  }

  function WholeProduct(x: Number, y: Number): (m: nat)
    ensures x.mantissa > 0 && y.mantissa > 0 ==> m > 0
  {
    x.mantissa * y.mantissa
  }

  lemma WholeProductValue(x: Number, y: Number)
    ensures Times(Value(x.mantissa, x.exponent), Value(y.mantissa, y.exponent))
         == Value(WholeProduct(x, y), x.exponent + y.exponent)
  {
    hide Value, Times;
    ProductTimes(x.mantissa, x.exponent, y.mantissa, y.exponent);
  }

  /** The product of any two numbers: the exact product rounded at the scale in every mode; the guard,
      the sticky bit and the carry lose nothing. */
  method Mul(scale: Scales, mode: RoundingMode, x: Number, y: Number) returns (r: Number)
    ensures x.mantissa == 0 || y.mantissa == 0 ==> r == ZERO_NUMBER
    ensures x.mantissa > 0 && y.mantissa > 0 ==>
              Rounded(scale, Times(Value(x.mantissa, x.exponent), Value(y.mantissa, y.exponent)),
                      x.negative != y.negative, mode, r)
  {
    hide Value, Scale, Rounded, Times;
    if x.mantissa == 0 || y.mantissa == 0 {
      return ZERO_NUMBER;
    }
    WholeProductValue(x, y);
    hide WholeProduct;
    r := RoundProduct(scale, mode, x.negative != y.negative, WholeProduct(x, y), x.exponent + y.exponent);
  }

  /** Where the large scale misses: a product of a little more than the largest i64 in its unit, which
      nearest rounding takes to the next integer, goes three units up. */
  method CarryStepsThreeUnits() returns (r: Number)
    ensures Value(r.mantissa, r.exponent) == Value(MAX_REP + 3, 18)
    ensures Times(Value(3_000_000_000_000_000_021, 0), Value(3_074_457_345_618_258_581, 0)) < Value(MAX_REP + 1, 18)
  {
    var x, y := Number(false, 3_000_000_000_000_000_021, 0), Number(false, 3_074_457_345_618_258_581, 0);
    hide Value, Scale, Times, RoundedLarge, Pow10;
    r := Mul(Large, ToNearest, x, y);
    WholeProductValue(x, y);
    CarryOfProduct(WholeProduct(x, y));
    if r == ZERO_NUMBER {
      LargeEnough(WholeProduct(x, y));
    } else {
      LargeRoundingUnique(Value(WholeProduct(x, y), 0), false, ToNearest, Value(r.mantissa, r.exponent),
        Value(MAX_REP + 3, 18));
    }
  }

  lemma CarryOfProduct(whole: nat)
    requires whole == 9_223_372_036_854_775_807_563_604_257_983_430_201
    ensures RoundedLarge(Value(whole, 0), false, ToNearest, Value(MAX_REP + 3, 18))
            && Value(whole, 0) < Value(MAX_REP + 1, 18)
  {
    assert Pow10(9) == 1_000_000_000;
    Pow10Add(9, 9);
    assert Pow10(18) == 10 * Pow10(17);
    var rem := 563_604_257_983_430_201;
    assert MAX_REP * Pow10(18) + rem == whole && whole >= (MAX_REP + 1) * Pow10(17);
    assert RoundsUp(ToNearest, false, rem, 18, MAX_REP);
    hide Value, Scale, Pow10, RoundsUp, RoundedFrom;
    CutAtUnit(whole, 0, MAX_REP, 18, rem);
    RoundsUpFrom(whole, 0, 18, MAX_REP, rem, false, ToNearest);
    assert RoundedLargeAt(Value(whole, 0), MAX_REP, 18, false, ToNearest, Value(MAX_REP + 3, 18));
  }

  lemma LargeEnough(whole: nat)
    requires whole >= LARGE_MIN
    ensures Value(whole, 0) >= LeastNumber(Large)
  {
    FullLength(Large, 0);
    hide Value, Scale;
    ValueMonotone(LARGE_MIN, whole, 0);
    ScaleMonotone(MIN_NUMBER_EXPONENT + 18, 18);
  }

  // ---------------------------------------------------------------- to and from IOU amounts

  /** A sixteen-digit amount becomes a number of the same value at either scale. */
  method FromIou(scale: Scales, mode: RoundingMode, a: IouAmount) returns (n: Number)
    requires Normalized(a)
    ensures a == ZERO ==> n == ZERO_NUMBER
    ensures a != ZERO ==>
              n == if scale.Small? then Number(a.negative, a.mantissa, a.exponent)
                   else Number(a.negative, 1000 * a.mantissa, a.exponent - 3)
  {
    if a.mantissa == 0 {
      return ZERO_NUMBER;
    }
    n := DoNormalize(scale, mode, a.negative, a.mantissa, a.exponent);
  }

  /** Reduce to a sixteen-digit amount under the rounding mode. A value too large for an amount
      becomes zero, as one too small does. */
  method ToIou(mode: RoundingMode, n: Number) returns (a: IouAmount)
    ensures n.mantissa == 0 ==> a == ZERO
    ensures n.mantissa > 0 ==> ReducedTo(Value(n.mantissa, n.exponent), n.negative, mode, a)
  {
    hide Value, Scale, CorrectlyRounded, FromParts, Pow10, IouHalfEven.Carries, IouHalfEven.DigitsOver;
    if n.mantissa == 0 {
      return ZERO;
    }
    var m, e := n.mantissa, n.exponent;
    var drop := IouHalfEven.CountDigitsOver(m);
    ReductionIsCorrect(mode, n.negative, m, e);
    if drop > 0 {
      var div := Pow10(drop);
      var q, r, half := m / div, m % div, div / 2;
      var roundUp := match mode
        case ToNearest => r > half || (r == half && q % 2 == 1)
        case TowardsZero => false
        case Downward => n.negative && r != 0
        case Upward => !n.negative && r != 0;
      HalfOfPower(drop, r);
      m := if roundUp then q + 1 else q;
      e := e + drop;
    }
    ghost var v := Value(m, e);
    if m > MAX_MANTISSA {
      assert v == Value(MIN_MANTISSA, e + 1) by { ValueTimesTen(MIN_MANTISSA, e); }
      m, e := m / 10, e + 1;
    }
    IouHalfEven.FromPartsExact(m, e, n.negative);
    var r := Normalize(m, e, n.negative);
    a := if r.Ok? then r.value else ZERO;
    CarriedOrZero(v, n.negative, r);
  }

  /** `a` is `x` correctly rounded to sixteen digits, or zero when that is out of range. */
  ghost predicate ReducedTo(x: real, negative: bool, mode: RoundingMode, a: IouAmount) {
    exists v: real {:trigger CorrectlyRounded(x, negative, mode, v)} ::
      && CorrectlyRounded(x, negative, mode, v)
      && OutOfRangeIsZero(v, negative, a)
  }

  ghost predicate OutOfRangeIsZero(v: real, negative: bool, a: IouAmount) {
    if Scale(-81) <= v < Scale(96) then
      Normalized(a) && a != ZERO && Magnitude(a) == v && a.negative == negative
    else a == ZERO
  }

  lemma CarriedOrZero(v: real, negative: bool, r: Result<IouAmount>)
    requires IouHalfEven.Carries(v, negative, r)
    ensures OutOfRangeIsZero(v, negative, if r.Ok? then r.value else ZERO)
  {
    ScaleMonotone(-81, 96);
  }

  /** Dropping the digits beyond sixteen by the rounding rule is correct rounding. */
  lemma ReductionIsCorrect(mode: RoundingMode, negative: bool, m: nat, e: int)
    requires m > 0
    ensures var k := IouHalfEven.DigitsOver(m);
            var q, rem := m / Pow10(k), m % Pow10(k);
            && 0 < q <= MAX_MANTISSA && (k == 0 <==> m <= MAX_MANTISSA)
            && (k == 0 ==> CorrectlyRounded(Value(m, e), negative, mode, Value(m, e)))
            && (k > 0 ==> CorrectlyRounded(Value(m, e), negative, mode,
                                           Value(if RoundsUp(mode, negative, rem, k, q) then q + 1 else q, e + k)))
  {
    hide Value, Scale, CorrectlyRounded;
    var k := IouHalfEven.DigitsOver(m);
    if m <= MAX_MANTISSA {
      assert Pow10(k) == 1;
      ExactIsCorrect(m, e, negative, mode);
    } else {
      hide Pow10, RoundsUp;
      IouHalfEven.DigitsOverBounds(m);
      RoundsUpIsCorrect(m, e, k, negative, mode);
    }
  }

  /** A value of at most sixteen digits is its own rounding in every mode. */
  lemma ExactIsCorrect(m: nat, e: int, negative: bool, mode: RoundingMode)
    requires 0 < m <= MAX_MANTISSA
    ensures CorrectlyRounded(Value(m, e), negative, mode, Value(m, e))
  {
    ScaleUpValue(m, e);
    var (q, f) := ScaleUp(m, e);
    assert Pow10(0) == 1;
    hide Value, Scale, CorrectlyRounded, Pow10, ScaleUp;
    RoundsUpIsCorrect(q, f, 0, negative, mode);
  }

  /** An amount survives the round trip through a number, at either scale and in every mode. */
  method RoundTrip(scale: Scales, mode: RoundingMode, a: IouAmount) returns (b: IouAmount)
    requires Normalized(a)
    ensures b == a
  {
    hide Value, Scale, CorrectlyRounded;
    var n := FromIou(scale, mode, a);
    b := ToIou(mode, n);
    if a != ZERO {
      ghost var x := Magnitude(a);
      assert Value(n.mantissa, n.exponent) == x by {
        ValueTimesTen(a.mantissa, a.exponent - 1);
        ValueTimesTen(10 * a.mantissa, a.exponent - 2);
        ValueTimesTen(a.mantissa, a.exponent - 2);
        ValueTimesTen(100 * a.mantissa, a.exponent - 3);
        ValueTimesTen(10 * a.mantissa, a.exponent - 3);
        ValueTimesTen(a.mantissa, a.exponent - 3);
      }
      ExactIsCorrect(a.mantissa, a.exponent, a.negative, mode);
      ghost var v :| CorrectlyRounded(x, a.negative, mode, v) && OutOfRangeIsZero(v, a.negative, b);
      CorrectRoundingUnique(x, a.negative, mode, v, x);
      IouHalfEven.NormalizedRange(a);
      MagnitudeOrder(a, b);
    }
  }
}
