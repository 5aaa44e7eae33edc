/** Products and quotients of IOU amounts: the biased legacy forms and the directed ones. */
module IouMulDiv {
  import opened Primitives
  import opened Decimal
  import opened Iou

  const TEN_TO_14: nat := 100_000_000_000_000
  const TEN_TO_17: nat := 100_000_000_000_000_000

  // ---------------------------------------------------------------- exact products and quotients

  /** Dividing a mantissa by ten to the `k` takes the whole part at the higher exponent. */
  lemma FloorByPower(m: nat, e: int, k: nat)
    ensures Floors(Value(m, e), m / Pow10(k), e + k)
  {
    var q := m / Pow10(k);
    assert q * Pow10(k) <= m < (q + 1) * Pow10(k) by { hide Pow10; }
    hide Scale, Value, Pow10;
    ValueShift(q, k, e);
    ValueShift(q + 1, k, e);
    ValueMonotone(q * Pow10(k), m, e);
    ValueMonotone(m, (q + 1) * Pow10(k), e);
  }

  lemma ProductValue(m: nat, d: int, n: nat, e: int)
    ensures Value(m, d) * Value(n, e) == Value(m * n, d + e)
  {
    ScaleAdd(d, e);
    hide Scale;
    assert (m as real * Scale(d)) * (n as real * Scale(e)) == (m as real * n as real) * (Scale(d) * Scale(e));
  }

  lemma ProductTimes(m: nat, d: int, n: nat, e: int)
    ensures Times(Value(m, d), Value(n, e)) == Value(m * n, d + e)
  {
    hide Value;
    ProductValue(m, d, n, e);
  }

  /** Cross-multiplied bounds on a quotient of values. */
  lemma QuotientBounds(m: nat, d: int, n: nat, e: int, q: nat, k: nat)
    requires n > 0
    ensures Value(n, e) > 0.0
    ensures q * n <= m * Pow10(k) <==> Value(q, d - e - k) <= Value(m, d) / Value(n, e)
    ensures q * n < m * Pow10(k) <==> Value(q, d - e - k) < Value(m, d) / Value(n, e)
  {
    ValuePositive(n, e);
    hide Scale, Value, Pow10;
    ProductValue(q, d - e - k, n, e);
    assert d - e - k + e == d - k;
    ValueShift(m, k, d - k);
    ValueMonotone(q * n, m * Pow10(k), d - k);
    ValueMonotone(m * Pow10(k), q * n, d - k);
    DivideBoth(Value(q, d - e - k), Value(n, e), Value(m, d));
  }

  lemma ValuePositive(m: nat, e: int)
    ensures m > 0 ==> Value(m, e) > 0.0
  {
    ScalePositive(e);
    if m > 0 { assert m as real * Scale(e) > 0.0; }
  }

  lemma DivideBoth(x: real, y: real, z: real)
    requires y > 0.0
    ensures x * y <= z <==> x <= z / y
    ensures x * y < z <==> x < z / y
  {
    var w := z / y;
    assert w * y == z;
    if x < w { assert (w - x) * y > 0.0; }
    if x > w { assert (x - w) * y > 0.0; }
  }

  // ---------------------------------------------------------------- the biased forms

  /** The product with its `+ 7` bias, cut to sixteen digits. */
  function Multiply(a: IouAmount, b: IouAmount): (r: Result<IouAmount>) {
    if a.mantissa == 0 || b.mantissa == 0 then Ok(ZERO)
    else
      var (m1, e1) := ScaleUp(a.mantissa, a.exponent);
      var (m2, e2) := ScaleUp(b.mantissa, b.exponent);
      var e := e1 + e2 + 14;
      if e > MAX_EXPONENT + 16 then Err(Overflow)
      else
        var raw := m1 * m2 / TEN_TO_14 + 7;
        if raw > U64_MAX then Err(Overflow) else FromParts(raw, e, a.negative != b.negative)
  }

  /** The quotient with its `+ 5` bias, cut to sixteen digits. */
  function Divide(num: IouAmount, den: IouAmount): (r: Result<IouAmount>) {
    if den.mantissa == 0 then Err(DivisionByZero)
    else if num.mantissa == 0 then Ok(ZERO)
    else
      var (m1, e1) := ScaleUp(num.mantissa, num.exponent);
      var (m2, e2) := ScaleUp(den.mantissa, den.exponent);
      var raw := m1 * TEN_TO_17 / m2 + 5;
      if raw > U64_MAX then Err(Overflow) else FromParts(raw, e1 - e2 - 17, num.negative != den.negative)
  }

  /** How a result relates to the exact magnitude `x` it was computed from: within one unit in
      the last place, and exact whenever `x` is itself an amount. */
  ghost predicate WithinOneUlp(x: real, r: Result<IouAmount>) {
    && (r.Ok? && r.value != ZERO ==> -Ulp(r.value) < Magnitude(r.value) - x < Ulp(r.value))
    && (x >= Scale(96) ==> r.Err?)
    && (r.Err? ==> x > Scale(96) - Scale(80))
    && (r == Ok(ZERO) ==> x < Scale(-81))
    && forall v: IouAmount {:trigger Magnitude(v)} ::
         Normalized(v) && v != ZERO && x == Magnitude(v) ==>
           r.Ok? && r.value.mantissa == v.mantissa && r.value.exponent == v.exponent
  }

  /** Truncating the whole part of `x` plus a small bias. */
  lemma BiasedFloor(x: real, p: nat, c: nat, e: int, negative: bool)
    requires Floors(x, p, e) && p > MAX_MANTISSA && 0 < c < 10
    ensures WithinOneUlp(x, FromParts(p + c, e, negative))
  {
    hide Scale, Value, FromParts;
    var raw := Value(p + c, e);
    var r := FromParts(p + c, e, negative);
    FromPartsTruncates(p + c, e, negative);
    BiasBounds(x, p, c, e);
    ScalePositive(e);
    if r.Ok? && r.value != ZERO {
      TruncatesADigit(raw, p + c, e, r.value.mantissa, r.value.exponent);
      ScaleStep(e);
      ScaleMonotone(e + 1, r.value.exponent);
      NextValue(r.value.mantissa, r.value.exponent);
    }
    if e >= 80 {
      BigValue(p, e);
      ScalePositive(80);
    } else {
      ScaleStep(79);
      ScaleMonotone(e, 79);
    }
    forall v: IouAmount | Normalized(v) && v != ZERO && x == Magnitude(v)
      ensures r.Ok? && r.value.mantissa == v.mantissa && r.value.exponent == v.exponent
    {
      BiasedExact(x, p, c, e, negative, v);
    }
  }

  lemma BiasBounds(x: real, p: nat, c: nat, e: int)
    requires Floors(x, p, e) && c < 10
    ensures x - Scale(e) < Value(p + c, e)
    ensures Value(p + c, e) <= x + 9.0 * Scale(e)
    ensures Value(p, e) <= Value(p + c, e)
    ensures c > 0 ==> x < Value(p + c, e)
  {
    ScalePositive(e);
    ValueMonotone(p, p + c, e);
    ValueMonotone(p + 1, p + c, e);
    ValueMonotone(p + c, p + 9, e);
    NextValue(p, e);
    assert Value(p + 9, e) == Value(p, e) + 9.0 * Scale(e);
  }

  lemma NextValue(m: int, e: int)
    ensures Value(m + 1, e) == Value(m, e) + Scale(e)
  {}

  /** More than sixteen digits: the sixteen-digit floor sits at a higher exponent. */
  lemma TruncatesADigit(x: real, m: nat, e: int, n: nat, f: int)
    requires m > MAX_MANTISSA && x == Value(m, e) && InRange(n) && Floors(x, n, f)
    ensures f > e
  {
    SixteenDigits(e);
    ValueMonotone(MAX_MANTISSA + 1, m, e);
    DecadeBounds(x, n, f);
    if f <= e { ScaleMonotone(f + 16, e + 16); }
  }

  /** When the exact magnitude is an amount, the bias does not reach its last digit. */
  lemma BiasedExact(x: real, p: nat, c: nat, e: int, negative: bool, v: IouAmount)
    requires Floors(x, p, e) && p > MAX_MANTISSA && c < 10
    requires Normalized(v) && v != ZERO && x == Magnitude(v)
    ensures var r := FromParts(p + c, e, negative);
            r.Ok? && r.value.mantissa == v.mantissa && r.value.exponent == v.exponent
  {
    hide Scale, Value, FromParts, Pow10;
    var raw := Value(p + c, e);
    BiasKeepsDigits(x, p, c, e, v);
    FromPartsTruncates(p + c, e, negative);
    DecadeBounds(raw, v.mantissa, v.exponent);
    ScaleMonotone(v.exponent + 16, 96);
    ScaleMonotone(-81, v.exponent + 15);
    var r := FromParts(p + c, e, negative);
    TruncationUnique(raw, v.mantissa, v.exponent, r.value.mantissa, r.value.exponent);
  }

  lemma BiasKeepsDigits(x: real, p: nat, c: nat, e: int, v: IouAmount)
    requires Floors(x, p, e) && p > MAX_MANTISSA && c < 10
    requires Normalized(v) && v != ZERO && x == Magnitude(v)
    ensures Floors(Value(p + c, e), v.mantissa, v.exponent)
  {
    hide Scale, Value;
    SixteenDigits(e);
    ValueMonotone(MAX_MANTISSA + 1, p, e);
    ValueMonotone(v.mantissa, v.mantissa + 1, v.exponent);
    DecadeBounds(x, v.mantissa, v.exponent);
    if v.exponent <= e { ScaleMonotone(v.exponent + 16, e + 16); }
    var k := v.exponent - e;
    var unit := Pow10(k);
    assert unit >= 10 by { assert unit == 10 * Pow10(k - 1); }
    hide Pow10;
    ValueShift(v.mantissa, k, e);
    ValueMonotone(v.mantissa * unit, v.mantissa * unit + 1, e);
    FloorsUnique(x, p, v.mantissa * unit, e);
    assert (v.mantissa + 1) * unit == p + unit;
    ValueShift(v.mantissa + 1, k, e);
    ValueMonotone(p, p + c, e);
    ValueMonotone(p + c, p + unit, e);
  }

  lemma MantissaProduct(m: nat, n: nat)
    requires InRange(m) && InRange(n)
    ensures MAX_MANTISSA < m * n / TEN_TO_14 <= TEN_TO_17 * 10 - 200
  {
    MultiplyBounds(MIN_MANTISSA, m, MIN_MANTISSA, n);
    MultiplyBounds(m, MAX_MANTISSA, n, MAX_MANTISSA);
    var p := m * n;
    assert MIN_MANTISSA * MIN_MANTISSA <= p <= MAX_MANTISSA * MAX_MANTISSA;
  }

  lemma MantissaQuotient(m: nat, n: nat)
    requires InRange(m) && InRange(n)
    ensures MAX_MANTISSA < m * TEN_TO_17 / n <= TEN_TO_17 * 10 - 100
  {
    MultiplyBounds(MIN_MANTISSA, m, TEN_TO_17, TEN_TO_17);
    MultiplyBounds(MAX_MANTISSA + 1, MAX_MANTISSA + 1, n, MAX_MANTISSA);
    MultiplyBounds(TEN_TO_17 * 10 - 99, TEN_TO_17 * 10 - 99, MIN_MANTISSA, n);
    DivideWithin(m * TEN_TO_17, n, MAX_MANTISSA + 1, TEN_TO_17 * 10 - 100);
  }

  lemma PowersOfTen()
    ensures Pow10(14) == TEN_TO_14 && Pow10(17) == TEN_TO_17
  {
    assert Pow10(7) == 10_000_000;
    assert Pow10(3) == 1_000;
    Pow10Add(7, 7);
    Pow10Add(14, 3);
  }

  /** The legacy product is within one unit in the last place of the exact product, and exact
      whenever the exact product is representable. */
  lemma MultiplyWithinOneUlp(a: IouAmount, b: IouAmount)
    requires Normalized(a) && Normalized(b)
    ensures WithinOneUlp(Magnitude(a) * Magnitude(b), Multiply(a, b))
    ensures Multiply(a, b).Ok? && Multiply(a, b).value != ZERO ==>
              Multiply(a, b).value.negative == (a.negative != b.negative)
  {
    hide Scale, Value, FromParts, Pow10, WithinOneUlp;
    if a == ZERO || b == ZERO {
      ZeroWithinOneUlp(a, b);
      return;
    }
    var m, e := a.mantissa * b.mantissa, a.exponent + b.exponent;
    ProductValue(a.mantissa, a.exponent, b.mantissa, b.exponent);
    MantissaProduct(a.mantissa, b.mantissa);
    PowersOfTen();
    FloorByPower(m, e, 14);
    BiasedFloor(Value(m, e), m / TEN_TO_14, 7, e + 14, a.negative != b.negative);
    FromPartsTruncates(m / TEN_TO_14 + 7, e + 14, a.negative != b.negative);
    if e + 14 > MAX_EXPONENT + 16 {
      BigValue(m / TEN_TO_14 + 7, e + 14);
    }
    assert Multiply(a, b) == FromParts(m / TEN_TO_14 + 7, e + 14, a.negative != b.negative);
    assert Magnitude(a) * Magnitude(b) == Value(m, e);
  }

  /** The legacy quotient, likewise. */
  lemma DivideWithinOneUlp(num: IouAmount, den: IouAmount)
    requires Normalized(num) && Normalized(den) && den != ZERO
    ensures Divide(num, ZERO) == Err(DivisionByZero)
    ensures Magnitude(den) > 0.0
    ensures WithinOneUlp(Magnitude(num) / Magnitude(den), Divide(num, den))
    ensures Divide(num, den).Ok? && Divide(num, den).value != ZERO ==>
              Divide(num, den).value.negative == (num.negative != den.negative)
  {
    hide Scale, Value, FromParts, Pow10, WithinOneUlp;
    PositiveMagnitude(den);
    if num == ZERO {
      ZeroQuotient(num, den);
      return;
    }
    var p, e := num.mantissa * TEN_TO_17 / den.mantissa, num.exponent - den.exponent - 17;
    MantissaQuotient(num.mantissa, den.mantissa);
    PowersOfTen();
    QuotientBounds(num.mantissa, num.exponent, den.mantissa, den.exponent, p, 17);
    QuotientBounds(num.mantissa, num.exponent, den.mantissa, den.exponent, p + 1, 17);
    assert p * den.mantissa <= num.mantissa * TEN_TO_17 < (p + 1) * den.mantissa;
    BiasedFloor(Magnitude(num) / Magnitude(den), p, 5, e, num.negative != den.negative);
    FromPartsTruncates(p + 5, e, num.negative != den.negative);
  }

  /** Whether the bias `c` carries into the digits that are kept, when `k` digits are cut. */
  predicate RoundsUpBy(p: nat, c: nat, k: nat) {
    p % Pow10(k) + c >= Pow10(k)
  }

  /** A biased raw count is cut by one or two digits, and rounded up when the bias carries. */
  lemma BiasedCut(p: nat, c: nat, e: int, negative: bool)
    requires MAX_MANTISSA < p && p + c < TEN_TO_17 * 10 && 0 < c < 10
    ensures var r := FromParts(p + c, e, negative);
            r.Ok? && r.value != ZERO ==>
              var k := r.value.exponent - e;
              1 <= k <= 2 && r.value.mantissa == p / Pow10(k) + if RoundsUpBy(p, c, k) then 1 else 0
  {
    assert Pow10(1) == 10 && Pow10(2) == 100;
    var m := p + c;
    assert ScaleUp(m, e) == (m, e);
    if m <= 10 * MAX_MANTISSA + 9 {
      assert e < MAX_EXPONENT ==> ScaleDown(m, e) == ScaleDown(m / 10, e + 1) == Some((m / 10, e + 1));
    } else {
      assert e < MAX_EXPONENT ==> ScaleDown(m, e) == ScaleDown(m / 10, e + 1);
      assert e + 1 < MAX_EXPONENT ==> ScaleDown(m / 10, e + 1) == ScaleDown(m / 10 / 10, e + 2);
      assert ScaleDown(m / 10 / 10, e + 2) == Some((m / 10 / 10, e + 2));
    }
    hide ScaleUp, ScaleDown, Pow10;
  }

  /** The product is cut by one digit, rounding up from three, or by two, rounding up from 93. */
  lemma MultiplyRoundsUpIff(a: IouAmount, b: IouAmount)
    requires Normalized(a) && Normalized(b) && a != ZERO && b != ZERO
    requires Multiply(a, b).Ok? && Multiply(a, b).value != ZERO
    ensures var p, v := a.mantissa * b.mantissa / TEN_TO_14, Multiply(a, b).value;
            var k := v.exponent - (a.exponent + b.exponent + 14);
            if k == 1 then v.mantissa == p / 10 + if p % 10 >= 3 then 1 else 0
            else k == 2 && v.mantissa == p / 100 + if p % 100 >= 93 then 1 else 0
  {
    assert Pow10(1) == 10 && Pow10(2) == 100;
    hide FromParts, Pow10;
    MantissaProduct(a.mantissa, b.mantissa);
    MultiplyIsFromParts(a, b);
    BiasedCut(a.mantissa * b.mantissa / TEN_TO_14, 7, a.exponent + b.exponent + 14, a.negative != b.negative);
  }

  /** The quotient rounds up from five, or from 95 when two digits are cut. */
  lemma DivideRoundsUpIff(num: IouAmount, den: IouAmount)
    requires Normalized(num) && Normalized(den) && num != ZERO && den != ZERO
    requires Divide(num, den).Ok? && Divide(num, den).value != ZERO
    ensures var p, v := num.mantissa * TEN_TO_17 / den.mantissa, Divide(num, den).value;
            var k := v.exponent - (num.exponent - den.exponent - 17);
            if k == 1 then v.mantissa == p / 10 + if p % 10 >= 5 then 1 else 0
            else k == 2 && v.mantissa == p / 100 + if p % 100 >= 95 then 1 else 0
  {
    assert Pow10(1) == 10 && Pow10(2) == 100;
    hide FromParts, Pow10;
    MantissaQuotient(num.mantissa, den.mantissa);
    BiasedCut(num.mantissa * TEN_TO_17 / den.mantissa, 5, num.exponent - den.exponent - 17,
      num.negative != den.negative);
  }

  lemma PositiveMagnitude(a: IouAmount)
    requires Normalized(a) && a != ZERO
    ensures Magnitude(a) > 0.0
  {
    hide Scale, Value;
    ZeroValue(a.exponent);
    ValueMonotone(0, a.mantissa, a.exponent);
  }

  /** Zero is what an exact zero comes back as. */
  lemma ZeroIsExact(r: Result<IouAmount>)
    requires r == Ok(ZERO)
    ensures WithinOneUlp(0.0, r)
  {
    hide Scale, Value;
    ScalePositive(-81);
    ScalePositive(96);
    forall v: IouAmount | Normalized(v) && v != ZERO ensures Magnitude(v) > 0.0 {
      PositiveMagnitude(v);
    }
  }

  lemma ZeroWithinOneUlp(a: IouAmount, b: IouAmount)
    requires a == ZERO || b == ZERO
    ensures Magnitude(a) * Magnitude(b) == 0.0 && Multiply(a, b) == Ok(ZERO)
    ensures WithinOneUlp(Magnitude(a) * Magnitude(b), Multiply(a, b))
  {
    ZeroValue(ZERO_EXPONENT);
    hide Scale, Value, WithinOneUlp;
    ZeroIsExact(Multiply(a, b));
  }

  lemma ZeroQuotient(num: IouAmount, den: IouAmount)
    requires num == ZERO && den.mantissa != 0 && Magnitude(den) > 0.0
    ensures Magnitude(num) / Magnitude(den) == 0.0 && Divide(num, den) == Ok(ZERO)
    ensures WithinOneUlp(Magnitude(num) / Magnitude(den), Divide(num, den))
  {
    ZeroValue(ZERO_EXPONENT);
    hide Scale, Value, WithinOneUlp;
    ZeroIsExact(Divide(num, den));
  }

  // ---------------------------------------------------------------- monotonicity

  lemma MultiplyIsFromParts(a: IouAmount, b: IouAmount)
    requires Normalized(a) && Normalized(b) && a != ZERO && b != ZERO
    ensures Multiply(a, b)
         == FromParts(a.mantissa * b.mantissa / TEN_TO_14 + 7, a.exponent + b.exponent + 14, a.negative != b.negative)
  {
    hide FromParts, Scale, Value;
    var raw, e := a.mantissa * b.mantissa / TEN_TO_14 + 7, a.exponent + b.exponent + 14;
    MantissaProduct(a.mantissa, b.mantissa);
    if e > MAX_EXPONENT + 16 {
      BigValue(raw, e);
      FromPartsTruncates(raw, e, a.negative != b.negative);
    }
  }

  /** A larger magnitude has a larger exponent, or the same one and a larger mantissa. */
  lemma MagnitudeOrder(a: IouAmount, b: IouAmount)
    requires Normalized(a) && Normalized(b) && a != ZERO && b != ZERO
    ensures Magnitude(a) <= Magnitude(b) <==>
              a.exponent < b.exponent || (a.exponent == b.exponent && a.mantissa <= b.mantissa)
    ensures Magnitude(a) == Magnitude(b) <==> a.exponent == b.exponent && a.mantissa == b.mantissa
  {
    hide Scale, Value;
    ValueMonotone(a.mantissa, a.mantissa + 1, a.exponent);
    ValueMonotone(b.mantissa, b.mantissa + 1, b.exponent);
    DecadeBounds(Magnitude(a), a.mantissa, a.exponent);
    DecadeBounds(Magnitude(b), b.mantissa, b.exponent);
    if a.exponent < b.exponent {
      ScaleMonotone(a.exponent + 16, b.exponent + 15);
    } else if b.exponent < a.exponent {
      ScaleMonotone(b.exponent + 16, a.exponent + 15);
    } else {
      ValueMonotone(a.mantissa, b.mantissa, a.exponent);
      ValueMonotone(b.mantissa, a.mantissa, a.exponent);
    }
  }

  lemma RawProductMonotone(m: nat, m': nat, n: nat)
    requires InRange(m) && InRange(m') && InRange(n)
    ensures m <= m' ==> m * n / TEN_TO_14 <= m' * n / TEN_TO_14
    ensures m * n / TEN_TO_14 + 7 <= 10 * (m' * n / TEN_TO_14 + 7)
  {
    if m <= m' { MultiplyBounds(m, m', n, n); }
    MultiplyBounds(m, 10 * m', n, n);
    assert 10 * m' * n == 10 * (m' * n);
    var p, p' := m * n, m' * n;
    assert p <= 10 * p';
  }

  lemma RawValueMonotone(a: IouAmount, a': IouAmount, b: IouAmount)
    requires Normalized(a) && Normalized(a') && Normalized(b) && a != ZERO && a' != ZERO && b != ZERO
    requires Magnitude(a) <= Magnitude(a')
    ensures Value(a.mantissa * b.mantissa / TEN_TO_14 + 7, a.exponent + b.exponent + 14)
         <= Value(a'.mantissa * b.mantissa / TEN_TO_14 + 7, a'.exponent + b.exponent + 14)
  {
    hide Scale, Value;
    MagnitudeOrder(a, a');
    RawProductMonotone(a.mantissa, a'.mantissa, b.mantissa);
    var p, p' := a.mantissa * b.mantissa / TEN_TO_14 + 7, a'.mantissa * b.mantissa / TEN_TO_14 + 7;
    var e, e' := a.exponent + b.exponent + 14, a'.exponent + b.exponent + 14;
    if e == e' {
      ValueMonotone(p, p', e);
    } else {
      ValueMonotone(p, 10 * p', e);
      ValueTimesTen(p', e);
      ValueExponentMonotone(p', e + 1, e');
    }
  }

  lemma ValueExponentMonotone(m: nat, d: int, e: int)
    requires d <= e
    ensures Value(m, d) <= Value(m, e)
  {
    ScaleMonotone(d, e);
    assert m as real * (Scale(e) - Scale(d)) >= 0.0;
  }

  /** The legacy product is monotone in its first operand, overflow included. */
  lemma MultiplyMonotone(a: IouAmount, a': IouAmount, b: IouAmount)
    requires Normalized(a) && Normalized(a') && Normalized(b) && a != ZERO && a' != ZERO && b != ZERO
    requires Magnitude(a) <= Magnitude(a')
    ensures Multiply(a, b).Err? ==> Multiply(a', b).Err?
    ensures Multiply(a, b).Ok? && Multiply(a', b).Ok? ==>
              Magnitude(Multiply(a, b).value) <= Magnitude(Multiply(a', b).value)
  {
    hide FromParts, Multiply, Scale, Value, Truncates;
    MultiplyIsFromParts(a, b);
    MultiplyIsFromParts(a', b);
    RawValueMonotone(a, a', b);
    var p, p' := a.mantissa * b.mantissa / TEN_TO_14 + 7, a'.mantissa * b.mantissa / TEN_TO_14 + 7;
    var e, e' := a.exponent + b.exponent + 14, a'.exponent + b.exponent + 14;
    FromPartsTruncates(p, e, a.negative != b.negative);
    FromPartsTruncates(p', e', a'.negative != b.negative);
    TruncationMonotone(Value(p, e), Multiply(a, b), Value(p', e'), Multiply(a', b),
                       a.negative != b.negative, a'.negative != b.negative);
  }

  /** ... and in its second, because it commutes. */
  lemma MultiplyCommutes(a: IouAmount, b: IouAmount)
    requires Normalized(a) && Normalized(b)
    ensures Multiply(a, b) == Multiply(b, a)
  {
    hide FromParts, Multiply;
    if a == ZERO || b == ZERO {
      MultiplyByZero(a, b);
      MultiplyByZero(b, a);
    } else {
      MultiplyIsFromParts(a, b);
      MultiplyIsFromParts(b, a);
      assert a.mantissa * b.mantissa == b.mantissa * a.mantissa;
    }
  }

  lemma MultiplyByZero(a: IouAmount, b: IouAmount)
    requires a == ZERO || b == ZERO
    ensures Multiply(a, b) == Ok(ZERO)
  {}
}
