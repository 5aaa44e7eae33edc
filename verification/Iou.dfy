/** IOU amounts: a 16-digit decimal mantissa, an exponent in [-96, 80] and a sign. */
module Iou {
  import opened Primitives
  import opened Decimal

  const MIN_MANTISSA: nat := 1_000_000_000_000_000
  const MAX_MANTISSA: nat := 9_999_999_999_999_999
  const MIN_EXPONENT: int := -96
  const MAX_EXPONENT: int := 80
  const ZERO_EXPONENT: int := -100

  datatype AmountError = Overflow | DivisionByZero
  datatype Result<+T> = Ok(value: T) | Err(error: AmountError)

  datatype IouAmount = IouAmount(mantissa: nat, exponent: int, negative: bool)

  const ZERO := IouAmount(0, ZERO_EXPONENT, false)
  const MIN_POSITIVE := IouAmount(MIN_MANTISSA, MIN_EXPONENT, false)

  predicate InRange(m: int) {
    MIN_MANTISSA <= m <= MAX_MANTISSA
  }

  /** The canonical form every constructor leaves an amount in. */
  predicate Normalized(a: IouAmount) {
    a == ZERO || (InRange(a.mantissa) && MIN_EXPONENT <= a.exponent <= MAX_EXPONENT)
  }

  ghost function Magnitude(a: IouAmount): (v: real) {
    Value(a.mantissa, a.exponent)
  }

  /** The number an amount stands for. */
  ghost function Denotes(a: IouAmount): (v: real) {
    if a.negative then -Magnitude(a) else Magnitude(a)
  }

  /** One unit in the last place of an amount. */
  ghost function Ulp(a: IouAmount): (v: real) {
    Scale(a.exponent)
  }

  // ---------------------------------------------------------------- normalization

  /** Raise a nonzero mantissa to at least sixteen digits. */
  function ScaleUp(m: nat, e: int): (r: (nat, int))
    requires m > 0
    ensures r.0 >= MIN_MANTISSA
    decreases MIN_MANTISSA - m
  {
    if m < MIN_MANTISSA then ScaleUp(10 * m, e - 1) else (m, e)
  }

  /** Cut a mantissa to at most sixteen digits, or give up at the largest exponent. */
  function ScaleDown(m: nat, e: int): (r: Option<(nat, int)>)
    decreases m
  {
    if m <= MAX_MANTISSA then Some((m, e))
    else if e >= MAX_EXPONENT then None
    else ScaleDown(m / 10, e + 1)
  }

  /** Canonical form of a raw mantissa, exponent and sign. */
  function FromParts(m: nat, e: int, negative: bool): (r: Result<IouAmount>) {
    if m == 0 then Ok(ZERO)
    else
      var up := ScaleUp(m, e);
      var down := ScaleDown(up.0, up.1);
      if down.None? then Err(Overflow)
      else
        var (m', e') := down.value;
        if e' < MIN_EXPONENT then Ok(ZERO)
        else if e' > MAX_EXPONENT then Err(Overflow)
        else Ok(IouAmount(m', e', negative))
  }

  lemma {:induction false} ScaleUpValue(m: nat, e: int)
    requires m > 0
    ensures var (m', e') := ScaleUp(m, e);
            && Value(m', e') == Value(m, e)
            && m' >= MIN_MANTISSA
            && (m < MIN_MANTISSA ==> m' <= MAX_MANTISSA)
            && (m >= MIN_MANTISSA ==> m' == m && e' == e)
            && e' <= e
    decreases MIN_MANTISSA - m
  {
    if m < MIN_MANTISSA {
      ScaleUpValue(10 * m, e - 1);
      ValueTimesTen(m, e - 1);
    }
  }

  lemma {:induction false} ScaleDownFloors(x: real, m: nat, e: int)
    requires m >= MIN_MANTISSA && Floors(x, m, e)
    ensures var r := ScaleDown(m, e);
            && (r.Some? ==> InRange(r.value.0) && Floors(x, r.value.0, r.value.1) && r.value.1 >= e)
            && (r.Some? && r.value.1 > MAX_EXPONENT ==> r.value == (m, e))
            && (r.None? ==> x >= Scale(MAX_EXPONENT + 16))
    decreases m
  {
    if m > MAX_MANTISSA {
      if e >= MAX_EXPONENT {
        BigValue(m, e);
      } else {
        FloorsDropDigit(x, m, e);
        ScaleDownFloors(x, m / 10, e + 1);
      }
    }
  }

  /** Sixteen digits at or above the largest exponent. */
  lemma BigValue(m: nat, e: int)
    requires (m > MAX_MANTISSA && e >= MAX_EXPONENT) || (m >= MIN_MANTISSA && e > MAX_EXPONENT)
    ensures Value(m, e) >= Scale(MAX_EXPONENT + 16)
  {
    if m > MAX_MANTISSA {
      SixteenDigits(e);
      ValueMonotone(MAX_MANTISSA + 1, m, e);
      ScaleMonotone(MAX_EXPONENT + 16, e + 16);
    } else {
      SixteenDigits(e);
      ValueMonotone(MIN_MANTISSA, m, e);
      ScaleMonotone(MAX_EXPONENT + 16, e + 15);
    }
  }

  lemma SixteenDigits(e: int)
    ensures Value(MIN_MANTISSA, e) == Scale(e + 15)
    ensures Value(MAX_MANTISSA + 1, e) == Scale(e + 16)
  {
    assert Scale(5) == 100_000.0;
    hide Scale;
    ScaleAdd(5, 5);
    ScaleAdd(10, 5);
    ScaleStep(15);
    ScaleAdd(15, e);
    ScaleAdd(16, e);
  }

  /** What a magnitude in the decade of an exponent means. */
  lemma DecadeBounds(x: real, m: nat, e: int)
    requires InRange(m) && Floors(x, m, e)
    ensures Scale(e + 15) <= x < Scale(e + 16)
  {
    SixteenDigits(e);
    ValueMonotone(MIN_MANTISSA, m, e);
    ValueMonotone(m + 1, MAX_MANTISSA + 1, e);
  }

  lemma DecadeUnique(x: real, d: int, e: int)
    requires Scale(d) <= x < Scale(d + 1) && Scale(e) <= x < Scale(e + 1)
    ensures d == e
  {
    if d < e { ScaleMonotone(d + 1, e); } else if e < d { ScaleMonotone(e + 1, d); }
  }

  /** Sixteen-digit truncation names one mantissa and one exponent. */
  lemma TruncationUnique(x: real, m: nat, e: int, n: nat, f: int)
    requires InRange(m) && InRange(n) && Floors(x, m, e) && Floors(x, n, f)
    ensures m == n && e == f
  {
    DecadeBounds(x, m, e);
    DecadeBounds(x, n, f);
    DecadeUnique(x, e + 15, f + 15);
    FloorsUnique(x, m, n, e);
  }

  /** What it means for `r` to be the magnitude `x` truncated toward zero to sixteen digits: an
      error exactly from 10^96 up, zero exactly below 10^-81, else the sixteen-digit floor. */
  ghost predicate Truncates(x: real, negative: bool, r: Result<IouAmount>) {
    && (r.Err? <==> x >= Scale(96))
    && (r.Err? ==> r.error == Overflow)
    && (r == Ok(ZERO) <==> x < Scale(-81))
    && (r.Ok? && r.value != ZERO ==>
          && Normalized(r.value) && r.value.negative == negative
          && Floors(x, r.value.mantissa, r.value.exponent))
  }

  /** A mantissa of sixteen digits or more that is the whole part of `x` loses nothing: cutting
      it to sixteen digits truncates `x` itself. */
  lemma FromPartsFloors(x: real, m: nat, e: int, negative: bool)
    requires m >= MIN_MANTISSA && Floors(x, m, e)
    ensures Truncates(x, negative, FromParts(m, e, negative))
  {
    ScaleDownFloors(x, m, e);
    hide Scale, Value, ScaleDown;
    ScaleMonotone(-81, 96);
    ScaleStrict(-81, 96);
    var down := ScaleDown(m, e);
    if down.Some? {
      var (m2, e2) := down.value;
      DecadeBounds(x, m2, e2);
      if e2 < MIN_EXPONENT {
        ScaleMonotone(e2 + 16, -81);
      } else if e2 > MAX_EXPONENT {
        ScaleMonotone(96, e2 + 15);
      } else {
        ScaleMonotone(e2 + 16, 96);
        ScaleMonotone(-81, e2 + 15);
      }
    }
  }

  lemma FromPartsScaled(m: nat, e: int, negative: bool)
    requires m > 0
    ensures FromParts(m, e, negative) == FromParts(ScaleUp(m, e).0, ScaleUp(m, e).1, negative)
  {}

  /** FromParts is exact truncation to the sixteen-digit grid, for every raw mantissa. */
  lemma FromPartsTruncates(m: nat, e: int, negative: bool)
    ensures Truncates(Value(m, e), negative, FromParts(m, e, negative))
  {
    if m == 0 {
      ScalePositive(96);
      ScalePositive(-81);
    } else {
      ScaleUpValue(m, e);
      var (m1, e1) := ScaleUp(m, e);
      FromPartsScaled(m, e, negative);
      hide FromParts, Truncates;
      ValueMonotone(m1, m1 + 1, e1);
      FromPartsFloors(Value(m, e), m1, e1, negative);
    }
  }

  /** Larger magnitudes normalize to larger or equal amounts, and overflow comes last. */
  lemma TruncationMonotone(x: real, r: Result<IouAmount>, y: real, s: Result<IouAmount>, n: bool, k: bool)
    requires Truncates(x, n, r) && Truncates(y, k, s) && x <= y
    ensures r.Err? ==> s.Err?
    ensures r.Ok? && s.Ok? ==> Magnitude(r.value) <= Magnitude(s.value)
  {
    hide Scale, Value;
    if r.Ok? && s.Ok? {
      if s.value != ZERO && r.value != ZERO {
        var (a, b) := (r.value, s.value);
        DecadeBounds(x, a.mantissa, a.exponent);
        DecadeBounds(y, b.mantissa, b.exponent);
        if b.exponent < a.exponent { ScaleMonotone(b.exponent + 16, a.exponent + 15); }
        if a.exponent < b.exponent {
          ScaleMonotone(a.exponent + 16, b.exponent + 15);
          SixteenDigits(b.exponent);
          ValueMonotone(MIN_MANTISSA, b.mantissa, b.exponent);
        } else {
          ValueCancel(a.mantissa, b.mantissa + 1, a.exponent);
          ValueMonotone(a.mantissa, b.mantissa, a.exponent);
        }
      } else {
        ZeroValue(ZERO_EXPONENT);
        ValueMonotone(0, s.value.mantissa, s.value.exponent);
        ZeroValue(s.value.exponent);
      }
    }
  }

  lemma ZeroValue(e: int)
    ensures Value(0, e) == 0.0
  {}

  /** The normalize loops, in place on mantissa and exponent. */
  method Normalize(mantissa: nat, exponent: int, negative: bool) returns (r: Result<IouAmount>)
    ensures r == FromParts(mantissa, exponent, negative)
  {
    if mantissa == 0 {
      return Ok(ZERO);
    }
    var m: nat, e := mantissa, exponent;
    while m < MIN_MANTISSA
      invariant m > 0 && ScaleUp(m, e) == ScaleUp(mantissa, exponent)
      decreases MIN_MANTISSA - m
    {
      m := m * 10;
      e := e - 1;
    }
    ghost var up := (m, e);
    while m > MAX_MANTISSA
      invariant ScaleDown(m, e) == ScaleDown(up.0, up.1)
      decreases m
    {
      if e >= MAX_EXPONENT {
        return Err(Overflow);
      }
      m := m / 10;
      e := e + 1;
    }
    if e < MIN_EXPONENT {
      return Ok(ZERO);
    }
    if e > MAX_EXPONENT {
      return Err(Overflow);
    }
    return Ok(IouAmount(m, e, negative));
  }

  /** The loop that raises a denormal operand before a product or quotient. */
  method RaiseMantissa(mantissa: nat, exponent: int) returns (m: nat, e: int)
    requires mantissa > 0
    ensures (m, e) == ScaleUp(mantissa, exponent)
    ensures Value(m, e) == Value(mantissa, exponent)
  {
    ScaleUpValue(mantissa, exponent);
    m, e := mantissa, exponent;
    while m < MIN_MANTISSA
      invariant m > 0 && ScaleUp(m, e) == ScaleUp(mantissa, exponent)
      decreases MIN_MANTISSA - m
    {
      m := m * 10;
      e := e - 1;
    }
  }
}
