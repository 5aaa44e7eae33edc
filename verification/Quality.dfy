/** The order on amounts and the packed order-book rates that keep it. */
module Quality {
  import opened Primitives
  import opened Decimal
  import opened Iou
  import opened IouMulDiv
  import IouDirected
  import IouHalfEven

  // ---------------------------------------------------------------- comparison

  datatype Ordering = Less | Equal | Greater

  function CompareInts(x: int, y: int): (o: Ordering) {
    if x < y then Less else if x == y then Equal else Greater
  }

  function Reverse(o: Ordering): (r: Ordering) {
    match o
    case Less => Greater
    case Equal => Equal
    case Greater => Less
  }

  function Cmp(a: IouAmount, b: IouAmount): (o: Ordering) {
    if a.mantissa == 0 && b.mantissa == 0 then Equal
    else if a.mantissa == 0 then (if b.negative then Greater else Less)
    else if b.mantissa == 0 then (if a.negative then Less else Greater)
    else if a.negative != b.negative then (if a.negative then Less else Greater)
    else
      var mag := if a.exponent != b.exponent then CompareInts(a.exponent, b.exponent)
                 else CompareInts(a.mantissa, b.mantissa);
      if a.negative then Reverse(mag) else mag
  }

  /** Comparison is the order of the numbers denoted. */
  lemma CmpIsOrder(a: IouAmount, b: IouAmount)
    requires Normalized(a) && Normalized(b)
    ensures Cmp(a, b) == Less <==> Denotes(a) < Denotes(b)
    ensures Cmp(a, b) == Equal <==> Denotes(a) == Denotes(b)
    ensures Cmp(a, b) == Greater <==> Denotes(a) > Denotes(b)
    ensures Denotes(a) == Denotes(b) <==> a == b
  {
    ZeroValue(ZERO_EXPONENT);
    hide Value, Scale;
    if a != ZERO { IouHalfEven.NormalizedRange(a); ScalePositive(-81); }
    if b != ZERO { IouHalfEven.NormalizedRange(b); ScalePositive(-81); }
    if a != ZERO && b != ZERO {
      MagnitudeOrder(a, b);
      MagnitudeOrder(b, a);
    }
  }

  // ---------------------------------------------------------------- packing

  /** Two to the 56th: the exponent sits above the low 56 bits. */
  const FIELD: nat := 0x0100_0000_0000_0000

  /** Exponent biased by 100 in the high eight bits, mantissa in the low 56. */
  function Pack(rate: IouAmount): (r: int) {
    (rate.exponent + 100) * FIELD + rate.mantissa
  }

  function GetRate(offerIn: IouAmount, offerOut: IouAmount, roundEven: bool): (r: Result<int>) {
    if offerOut.mantissa == 0 then Ok(0)
    else
      var rate := if roundEven then IouHalfEven.DivideRoundEven(offerIn, offerOut) else Divide(offerIn, offerOut);
      if rate.Err? then Err(rate.error)
      else if rate.value.mantissa == 0 then Ok(0)
      else Ok(Pack(rate.value))
  }

  function FromRate(rate: int): (r: Result<IouAmount>) {
    if rate == 0 then Ok(ZERO) else FromParts(rate % FIELD, rate / FIELD - 100, false)
  }

  predicate PositiveRate(a: IouAmount) {
    Normalized(a) && a != ZERO && !a.negative
  }

  lemma Unpack(a: IouAmount)
    requires PositiveRate(a)
    ensures Pack(a) / FIELD == a.exponent + 100 && Pack(a) % FIELD == a.mantissa
    ensures 0 < Pack(a) <= U64_MAX
  {}

  /** Unpacking gives back the packed rate. */
  lemma PackRoundTrip(a: IouAmount)
    requires PositiveRate(a)
    ensures FromRate(Pack(a)) == Ok(a)
  {
    hide FromParts;
    Unpack(a);
    IouDirected.FromPartsInRange(a.mantissa, a.exponent, false);
  }

  /** Packed rates compare as the rates do. */
  lemma PackKeepsOrder(a: IouAmount, b: IouAmount)
    requires PositiveRate(a) && PositiveRate(b)
    ensures Pack(a) < Pack(b) <==> Denotes(a) < Denotes(b)
    ensures Pack(a) == Pack(b) <==> a == b
  {
    hide Value, Scale;
    MagnitudeOrder(a, b);
    MagnitudeOrder(b, a);
    assert a.exponent < b.exponent ==> a.exponent + 1 <= b.exponent;
  }

  predicate IsBetterQuality(a: int, b: int) {
    if a == 0 then false else if b == 0 then true else a < b
  }

  /** Of two representable rates the lower is the better one, and every rate beats none. */
  lemma BetterIsLower(a: IouAmount, b: IouAmount)
    requires PositiveRate(a) && PositiveRate(b)
    ensures IsBetterQuality(Pack(a), Pack(b)) <==> Denotes(a) < Denotes(b)
    ensures IsBetterQuality(Pack(a), 0) && !IsBetterQuality(0, Pack(a))
  {
    hide Value, Scale;
    Unpack(a);
    Unpack(b);
    PackKeepsOrder(a, b);
  }

  /** The packed rate of an offer decodes to the quotient it was computed from, so it is within
      one unit in the last place of the true price. */
  lemma OfferRateDecodes(offerIn: IouAmount, offerOut: IouAmount)
    requires PositiveRate(offerIn) && PositiveRate(offerOut)
    requires GetRate(offerIn, offerOut, false).Ok? && GetRate(offerIn, offerOut, false).value != 0
    ensures Magnitude(offerOut) > 0.0
    ensures var r := FromRate(GetRate(offerIn, offerOut, false).value);
            r.Ok? && WithinOneUlp(Magnitude(offerIn) / Magnitude(offerOut), r)
  {
    hide Value, Scale, Divide, FromParts, WithinOneUlp, FromRate, Pack;
    DivideWithinOneUlp(offerIn, offerOut);
    DivideNormalized(offerIn, offerOut);
    PackRoundTrip(Divide(offerIn, offerOut).value);
  }

  lemma DivideNormalized(num: IouAmount, den: IouAmount)
    requires PositiveRate(num) && PositiveRate(den) && Divide(num, den).Ok?
    ensures Normalized(Divide(num, den).value) && !Divide(num, den).value.negative
  {
    hide FromParts;
    var raw, e := num.mantissa * TEN_TO_17 / den.mantissa + 5, num.exponent - den.exponent - 17;
    FromPartsTruncates(raw, e, false);
  }

  /** A worthless offer has rate zero; any other one only when it is too good to represent, and fails
      only when it is too bad to. */
  lemma OfferRateRange(offerIn: IouAmount, offerOut: IouAmount, roundEven: bool)
    requires PositiveRate(offerIn) && Normalized(offerOut) && !offerOut.negative
    ensures GetRate(offerIn, ZERO, roundEven) == Ok(0)
    ensures offerOut != ZERO && GetRate(offerIn, offerOut, roundEven) == Ok(0) ==>
              Magnitude(offerOut) > 0.0 && Magnitude(offerIn) / Magnitude(offerOut) < Scale(-81)
    ensures offerOut != ZERO && GetRate(offerIn, offerOut, roundEven).Err? ==>
              Magnitude(offerOut) > 0.0 && Magnitude(offerIn) / Magnitude(offerOut) >= Scale(96) - Scale(80)
  {
    hide Value, Scale, Divide, IouHalfEven.DivideRoundEven, FromParts;
    if offerOut != ZERO {
      if roundEven {
        IouHalfEven.DivideRoundEvenRange(offerIn, offerOut);
        if IouHalfEven.DivideRoundEven(offerIn, offerOut).Ok? { EvenNormalized(offerIn, offerOut); }
      } else {
        DivideWithinOneUlp(offerIn, offerOut);
        if Divide(offerIn, offerOut).Ok? { DivideNormalized(offerIn, offerOut); }
      }
    }
  }

  lemma EvenNormalized(num: IouAmount, den: IouAmount)
    requires PositiveRate(num) && PositiveRate(den) && IouHalfEven.DivideRoundEven(num, den).Ok?
    ensures Normalized(IouHalfEven.DivideRoundEven(num, den).value)
    ensures !IouHalfEven.DivideRoundEven(num, den).value.negative
  {
    hide Value, Scale, IouHalfEven.DivideRoundEven, IouHalfEven.IsNearestEven;
    IouHalfEven.DivideRoundEvenParts(num, den);
  }

  /** The same for the rate that rounds half to even. */
  lemma EvenOfferRateDecodes(offerIn: IouAmount, offerOut: IouAmount)
    requires PositiveRate(offerIn) && PositiveRate(offerOut)
    requires GetRate(offerIn, offerOut, true).Ok? && GetRate(offerIn, offerOut, true).value != 0
    ensures Magnitude(offerOut) > 0.0
    ensures var x, r := Magnitude(offerIn) / Magnitude(offerOut), FromRate(GetRate(offerIn, offerOut, true).value);
            r.Ok? && PositiveRate(r.value) && -Ulp(r.value) <= Magnitude(r.value) - x <= Ulp(r.value)
  {
    hide Value, Scale, IouHalfEven.DivideRoundEven, FromRate, Pack;
    EvenNormalized(offerIn, offerOut);
    IouHalfEven.DivideRoundEvenWithinOneUlp(offerIn, offerOut);
    PackRoundTrip(IouHalfEven.DivideRoundEven(offerIn, offerOut).value);
  }

  // ---------------------------------------------------------------- tick sizes

  const TICKS: seq<nat> := [
    10_000_000_000_000_000, 1_000_000_000_000_000, 100_000_000_000_000, 10_000_000_000_000, 1_000_000_000_000,
    100_000_000_000, 10_000_000_000, 1_000_000_000, 100_000_000, 10_000_000, 1_000_000, 100_000, 10_000, 1_000,
    100, 10, 1]

  /** Round the mantissa up to a multiple of the tick. */
  function RoundQuality(rate: nat, digits: nat): (r: nat) {
    if rate == 0 || digits >= 16 then rate
    else
      var tick := TICKS[digits];
      var mantissa := rate % FIELD + tick - 1;
      rate / FIELD * FIELD + (mantissa - mantissa % tick)
  }

  /** The grid step for a number of significant digits. */
  lemma TicksArePowers(digits: nat)
    requires digits < 17
    ensures TICKS[digits] == Pow10(16 - digits)
  {
    assert Pow10(4) == 10_000;
    assert Pow10(8) == 100_000_000;
    assert Pow10(12) == 1_000_000_000_000 by { Pow10Add(8, 4); }
    assert Pow10(16) == 10_000_000_000_000_000 by { Pow10Add(8, 8); }
    if digits > 12 {
    } else if digits > 8 {
      Pow10Add(4, 12 - digits);
    } else if digits > 4 {
      Pow10Add(8, 8 - digits);
    } else {
      Pow10Add(12, 4 - digits);
    }
  }

  predicate OnGrid(rate: nat, digits: nat)
    requires digits < 17
  {
    rate % FIELD % TICKS[digits] == 0
  }

  /** A canonical packed rate. */
  predicate CanonicalRate(rate: nat) {
    InRange(rate % FIELD) && -96 <= rate / FIELD - 100 <= 80
  }

  lemma TickPositive(digits: nat)
    requires digits < 17
    ensures 0 < TICKS[digits] <= 10_000_000_000_000_000
  {}

  lemma UpToMultiple(x: nat, t: nat)
    requires t > 0
    ensures var y := x + t - 1 - (x + t - 1) % t;
            x <= y < x + t && y % t == 0
    ensures forall z: nat :: z >= x && z % t == 0 ==> z >= x + t - 1 - (x + t - 1) % t
  {
    var s := x + t - 1;
    var y := s - s % t;
    assert y == t * (s / t);
    MultipleMod(s / t, t);
    forall z: nat | z >= x && z % t == 0 ensures z >= y {
      assert z == t * (z / t);
      NextMultiple(z / t, s / t, t);
    }
  }

  lemma NextMultiple(a: nat, b: nat, t: nat)
    ensures a < b ==> t * a + t <= t * b
  {
    if a < b {
      MultiplyBounds(a + 1, b, t, t);
      assert (a + 1) * t == t * a + t;
    }
  }

  lemma MultipleMod(k: nat, t: nat)
    requires t > 0
    ensures (t * k) % t == 0
  {
    DivideWithin(t * k, t, k, k);
  }

  /** Rounding to a tick gives the least rate on the grid that is not below, at the same exponent. */
  lemma RoundQualityIsLeast(rate: nat, digits: nat)
    requires CanonicalRate(rate) && digits < 17
    ensures var r := RoundQuality(rate, digits);
            && r / FIELD == rate / FIELD && rate <= r < rate + TICKS[digits] && OnGrid(r, digits)
            && forall g: nat {:trigger OnGrid(g, digits)} :: g >= rate && OnGrid(g, digits) ==> r <= g
  {
    TickPositive(digits);
    var t, m := TICKS[digits], rate % FIELD;
    if digits == 16 {
      assert t == 1;
    } else {
      hide TICKS;
      UpToMultiple(m, t);
      var y := m + t - 1 - (m + t - 1) % t;
      var r := rate / FIELD * FIELD + y;
      assert r / FIELD == rate / FIELD && r % FIELD == y;
      forall g: nat | g >= rate && OnGrid(g, digits) ensures r <= g {
        if g / FIELD == rate / FIELD {
          assert g % FIELD >= m && g % FIELD % t == 0;
        }
      }
    }
  }

  /** The top of the mantissa range is on every grid, and so is the multiple before it. */
  lemma TopOnGrid(digits: nat)
    requires digits < 17
    ensures var t := TICKS[digits]; (MAX_MANTISSA + 1) % t == 0 && (MAX_MANTISSA + 1 - t) % t == 0
    ensures digits > 0 ==> MIN_MANTISSA % TICKS[digits] == 0
  {}

  /** The rounded mantissa stays in range exactly when the mantissa is at least one tick below ten to
      the sixteenth; above that it becomes that power, which is not canonical. */
  lemma RoundQualityCanonicalIff(rate: nat, digits: nat)
    requires CanonicalRate(rate) && digits < 16
    ensures var r := RoundQuality(rate, digits);
            && (CanonicalRate(r) <==> rate % FIELD <= MAX_MANTISSA + 1 - TICKS[digits])
            && (!CanonicalRate(r) ==> r % FIELD == MAX_MANTISSA + 1)
  {
    RoundQualityIsLeast(rate, digits);
    TickPositive(digits);
    TopOnGrid(digits);
    var t, m := TICKS[digits], rate % FIELD;
    hide TICKS;
    UpToMultiple(m, t);
    assert RoundQuality(rate, digits) % FIELD == m + t - 1 - (m + t - 1) % t;
  }

  lemma DecodeCarried(e: int)
    ensures FromParts(MAX_MANTISSA + 1, e, false) == FromParts(MIN_MANTISSA, e + 1, false)
  {
    assert ScaleUp(MAX_MANTISSA + 1, e) == (MAX_MANTISSA + 1, e);
    assert e < MAX_EXPONENT ==> ScaleDown(MAX_MANTISSA + 1, e) == ScaleDown(MIN_MANTISSA, e + 1);
    assert ScaleDown(MIN_MANTISSA, e + 1) == Some((MIN_MANTISSA, e + 1));
  }

  /** What a rounded rate decodes to: an amount, unless the carry leaves the exponent range. */
  lemma RoundedRateDecodes(rate: nat, digits: nat)
    requires CanonicalRate(rate) && digits < 16
    ensures var r, e := RoundQuality(rate, digits), rate / FIELD - 100;
            FromRate(r) == if CanonicalRate(r) then Ok(IouAmount(r % FIELD, e, false))
                           else if e < MAX_EXPONENT then Ok(IouAmount(MIN_MANTISSA, e + 1, false))
                           else Err(Overflow)
  {
    var r, e := RoundQuality(rate, digits), rate / FIELD - 100;
    RoundQualityIsLeast(rate, digits);
    RoundQualityCanonicalIff(rate, digits);
    DecodeCarried(e);
    hide FromParts, RoundQuality, TICKS;
    if CanonicalRate(r) {
      IouDirected.FromPartsInRange(r % FIELD, e, false);
    } else {
      IouDirected.FromPartsInRange(MIN_MANTISSA, e + 1, false);
    }
  }

  /** A rounded rate decodes to the least amount on the grid that is not below the rate, carry or not. */
  lemma RoundedAmountIsLeast(a: IouAmount, digits: nat)
    requires PositiveRate(a) && digits < 16
    ensures var r := FromRate(RoundQuality(Pack(a), digits));
            && (r.Err? <==> a.exponent == MAX_EXPONENT && a.mantissa > MAX_MANTISSA + 1 - TICKS[digits])
            && (r.Ok? ==>
                  && PositiveRate(r.value) && Denotes(a) <= Denotes(r.value)
                  && (digits > 0 ==> r.value.mantissa % TICKS[digits] == 0)
                  && forall g :: PositiveRate(g) && g.mantissa % TICKS[digits] == 0 && Denotes(a) <= Denotes(g) ==>
                       Denotes(r.value) <= Denotes(g))
  {
    Unpack(a);
    var rate := Pack(a);
    RoundQualityIsLeast(rate, digits);
    RoundQualityCanonicalIff(rate, digits);
    RoundedRateDecodes(rate, digits);
    TopOnGrid(digits);
    var r := FromRate(RoundQuality(rate, digits));
    hide FromRate, RoundQuality, TICKS, Value, Scale;
    if r.Ok? {
      MagnitudeOrder(a, r.value);
      forall g | PositiveRate(g) && g.mantissa % TICKS[digits] == 0 && Denotes(a) <= Denotes(g)
        ensures Denotes(r.value) <= Denotes(g)
      {
        MagnitudeOrder(a, g);
        MagnitudeOrder(r.value, g);
        Unpack(g);
        assert OnGrid(Pack(g), digits) && Pack(g) >= rate;
      }
    }
  }

  /** Less than a tick below the top the mantissa leaves the sixteen digits: the packed rate is not that of the
      amount it decodes to, and at the largest exponent it decodes to none. */
  lemma RoundQualityLeavesTheRange()
    ensures var rate := Pack(IouAmount(9_999_999_999_999_999, -15, false));
            var r := RoundQuality(rate, 5);
            && r % FIELD == 10_000_000_000_000_000 && !CanonicalRate(r)
            && FromRate(r) == Ok(IouAmount(MIN_MANTISSA, -14, false))
            && r != Pack(IouAmount(MIN_MANTISSA, -14, false))
    ensures FromRate(RoundQuality(Pack(IouAmount(9_999_999_999_999_999, 80, false)), 5)) == Err(Overflow)
  {
    var a, top := IouAmount(9_999_999_999_999_999, -15, false), IouAmount(9_999_999_999_999_999, 80, false);
    Unpack(a);
    Unpack(top);
    RoundQualityCanonicalIff(Pack(a), 5);
    RoundQualityCanonicalIff(Pack(top), 5);
    RoundedRateDecodes(Pack(a), 5);
    RoundedRateDecodes(Pack(top), 5);
    hide FromRate, RoundQuality;
  }

  /** Rounding twice is rounding once. */
  lemma RoundQualityIdempotent(rate: nat, digits: nat)
    requires CanonicalRate(rate)
    ensures RoundQuality(RoundQuality(rate, digits), digits) == RoundQuality(rate, digits)
  {
    if digits < 16 {
      RoundQualityIsLeast(rate, digits);
      TickPositive(digits);
      var r, t := RoundQuality(rate, digits), TICKS[digits];
      UpToMultiple(r % FIELD, t);
    }
  }

  /** A worse rate rounds to a rate no better. */
  lemma RoundQualityMonotone(rate: nat, other: nat, digits: nat)
    requires CanonicalRate(rate) && CanonicalRate(other) && rate <= other
    ensures RoundQuality(rate, digits) <= RoundQuality(other, digits)
  {
    if digits < 16 {
      RoundQualityIsLeast(rate, digits);
      RoundQualityIsLeast(other, digits);
      var r := RoundQuality(other, digits);
      if rate / FIELD == other / FIELD {
        assert r >= rate && OnGrid(r, digits);
      }
    }
  }
}
