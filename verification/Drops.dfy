/** Directed products of mixed XRP and IOU amounts that land on whole drops. */
module Drops {
  import opened Primitives
  import opened Decimal
  import opened Iou
  import opened IouMulDiv
  import opened IouDirected

  const I64_MAX: nat := 0x7FFF_FFFF_FFFF_FFFF

  /** Native XRP in signed drops, or an IOU. */
  datatype Amount = Xrp(drops: int) | Issued(iou: IouAmount)

  predicate IsZero(a: Amount) {
    match a
    case Xrp(d) => d == 0
    case Issued(i) => i.mantissa == 0
  }

  predicate Negative(a: Amount) {
    match a
    case Xrp(d) => d < 0
    case Issued(i) => IouDirected.IsNegative(i)
  }

  /** Magnitude and sign before scaling. */
  function Parts(a: Amount): (r: (nat, int, bool)) {
    match a
    case Xrp(d) => (if d < 0 then -d else d, 0, d < 0)
    case Issued(i) => (i.mantissa, i.exponent, i.negative)
  }

  /** The parts with the mantissa raised to at least sixteen digits. */
  function NormalizedParts(a: Amount): (r: (nat, int, bool)) {
    var (m, e, n) := Parts(a);
    if m == 0 then (m, e, n) else var (m', e') := ScaleUp(m, e); (m', e', n)
  }

  ghost function Size(a: Amount): (v: real) {
    Value(Parts(a).0, Parts(a).1)
  }

  // ---------------------------------------------------------------- scaling to drops

  /** `u64::saturating_mul(10)`. */
  function SaturatingTimesTen(v: nat): (r: nat) {
    if 10 * v > U64_MAX then U64_MAX else 10 * v
  }

  /** u64 addition, which wraps. */
  function WrappingAdd(v: nat, a: nat): (r: nat) {
    (v + a) % (U64_MAX + 1)
  }

  lemma WrapsPastTop(v: nat, a: nat)
    requires v <= U64_MAX && a <= 10
    ensures WrappingAdd(v, a) == if v + a <= U64_MAX then v + a else v + a - U64_MAX - 1
  {}

  /** `u64 as i64`: the upper half of the range turns negative. */
  function AsI64(v: nat): (r: int)
    requires v <= U64_MAX
  {
    if v <= I64_MAX then v else v - U64_MAX - 1
  }

  /** i64 negation, which wraps at the least value. */
  function NegateI64(v: int): (r: int) {
    if v == 0 - I64_MAX - 1 then v else 0 - v
  }

  function Raised(v: nat, e: nat): (r: nat)
    decreases e
  {
    if e == 0 then v else Raised(SaturatingTimesTen(v), e - 1)
  }

  /** Drop `k` digits, remembering whether any of them was not zero. */
  function Dropped(v: nat, k: nat, lost: bool): (r: (nat, bool))
    decreases k
  {
    if k == 0 then (v, lost) else Dropped(v / 10, k - 1, lost || v != v / 10 * 10)
  }

  function ScaleToDrops(v: nat, e: int): (r: nat) {
    if v == 0 || e <= -20 then 0 else if e >= 0 then Raised(v, e) else Dropped(v, -e, false).0
  }

  /** The legacy rule: the last digit is rounded with 10 after at most one dropped digit, with 9
      after more. */
  function DropsRound(v: nat, e: int): (r: nat) {
    if v == 0 then 0
    else if e >= 0 then Raised(v, e)
    else WrappingAdd(Dropped(v, -e - 1, false).0, if -e - 1 >= 2 then 9 else 10) / 10
  }

  /** The strict rule: 10 exactly when a nonzero digit was dropped on the way. */
  function DropsRoundStrict(v: nat, e: int, roundUp: bool): (r: nat) {
    if v == 0 then 0
    else if e >= 0 then Raised(v, e)
    else
      var (w, lost) := Dropped(v, -e - 1, false);
      WrappingAdd(w, if lost && roundUp then 10 else 9) / 10
  }

  /** The loops of the strict rule, in place on value and exponent. */
  method CanonicalizeDropsRoundStrict(mantissa: nat, scale: int, roundUp: bool) returns (drops: nat)
    ensures drops == DropsRoundStrict(mantissa, scale, roundUp)
  {
    var value: nat, exponent := mantissa, scale;
    if value == 0 {
      return 0;
    }
    while exponent > 0
      invariant scale >= 0 ==> exponent >= 0 && Raised(value, exponent) == Raised(mantissa, scale)
      invariant scale < 0 ==> value == mantissa && exponent == scale
      decreases exponent
    {
      value := SaturatingTimesTen(value);
      exponent := exponent - 1;
    }
    if exponent < 0 {
      var hadRemainder := false;
      while exponent < -1
        invariant exponent <= -1
        invariant Dropped(value, -exponent - 1, hadRemainder) == Dropped(mantissa, -scale - 1, false)
        decreases -exponent
      {
        var next := value / 10;
        hadRemainder := hadRemainder || value != next * 10;
        value := next;
        exponent := exponent + 1;
      }
      value := WrappingAdd(value, if hadRemainder && roundUp then 10 else 9) / 10;
    }
    return value;
  }

  /** The loops of the legacy rule. */
  method CanonicalizeDropsRound(mantissa: nat, scale: int) returns (drops: nat)
    ensures drops == DropsRound(mantissa, scale)
  {
    var value: nat, exponent := mantissa, scale;
    if value == 0 {
      return 0;
    }
    while exponent > 0
      invariant scale >= 0 ==> exponent >= 0 && Raised(value, exponent) == Raised(mantissa, scale)
      invariant scale < 0 ==> value == mantissa && exponent == scale
      decreases exponent
    {
      value := SaturatingTimesTen(value);
      exponent := exponent - 1;
    }
    if exponent < 0 {
      var loops := 0;
      ghost var lost := false;
      while exponent < -1
        invariant exponent <= -1 && loops == exponent - scale
        invariant Dropped(value, -exponent - 1, lost) == Dropped(mantissa, -scale - 1, false)
        decreases -exponent
      {
        lost := lost || value != value / 10 * 10;
        value := value / 10;
        exponent := exponent + 1;
        loops := loops + 1;
      }
      value := WrappingAdd(value, if loops >= 2 then 9 else 10) / 10;
    }
    return value;
  }

  /** Truncation to drops. */
  method ScaleDownToDrops(mantissa: nat, scale: int) returns (drops: nat)
    ensures drops == ScaleToDrops(mantissa, scale)
  {
    if mantissa == 0 || scale <= -20 {
      return 0;
    }
    var value: nat, exponent := mantissa, scale;
    while exponent > 0
      invariant scale >= 0 ==> exponent >= 0 && Raised(value, exponent) == Raised(mantissa, scale)
      invariant scale < 0 ==> value == mantissa && exponent == scale
      decreases exponent
    {
      value := SaturatingTimesTen(value);
      exponent := exponent - 1;
    }
    ghost var lost := false;
    while exponent < 0
      invariant scale < 0 ==> exponent <= 0 && Dropped(value, -exponent, lost) == Dropped(mantissa, -scale, false)
      invariant scale >= 0 ==> exponent == 0 && value == Raised(mantissa, scale)
      decreases -exponent
    {
      lost := lost || value != value / 10 * 10;
      value := value / 10;
      exponent := exponent + 1;
    }
    return value;
  }

  // ---------------------------------------------------------------- products to drops

  /** A signed drop count: the magnitude is cast to an i64 before the sign is applied. */
  function SignedDrops(drops: nat, negative: bool): (r: Result<Amount>) {
    if drops > U64_MAX then Err(Overflow)
    else Ok(Xrp(if negative then NegateI64(AsI64(drops)) else AsI64(drops)))
  }

  function NativeFinish(raw: nat, e: int, negative: bool, roundUp: bool, strict: bool): (r: Result<Amount>) {
    if raw > U64_MAX then Err(Overflow)
    else
      var drops :=
        if negative != roundUp then
          (if strict then DropsRoundStrict(raw, e, roundUp) else DropsRound(raw, e))
        else ScaleToDrops(raw, e);
      if roundUp && !negative && drops == 0 then Ok(Xrp(1)) else SignedDrops(drops, negative)
  }

  /** The directed product with an XRP result, strict or legacy. */
  function MulRoundDrops(a: Amount, b: Amount, roundUp: bool, strict: bool): (r: Result<Amount>) {
    if IsZero(a) || IsZero(b) then
      Ok(Xrp(if roundUp && !(Negative(a) || Negative(b)) then 1 else 0))
    else
      var (m1, e1, n1) := NormalizedParts(a);
      var (m2, e2, n2) := NormalizedParts(b);
      var negative := n1 != n2;
      var bias := if negative != roundUp then TEN_TO_14 - 1 else 0;
      NativeFinish((m1 * m2 + bias) / TEN_TO_14, e1 + e2 + 14, negative, roundUp, strict)
  }

  // ---------------------------------------------------------------- exactness

  function CeilDiv(v: nat, d: nat): (c: nat)
    requires d > 0
  {
    v / d + if v % d == 0 then 0 else 1
  }

  /** Division by ten times `d`, in either order of the two steps. */
  lemma SplitTens(v: nat, d: nat)
    requires d > 0
    ensures v / (10 * d) == v / d / 10 == v / 10 / d
    ensures v % (10 * d) == ((v / d) % 10) * d + v % d
    ensures v % (10 * d) == 0 <==> v % 10 == 0 && (v / 10) % d == 0
  {
    SplitOuter(v, d);
    SplitInner(v, d);
  }

  lemma SplitOuter(v: nat, d: nat)
    requires d > 0
    ensures v / (10 * d) == v / d / 10
    ensures v % (10 * d) == ((v / d) % 10) * d + v % d
  {
    var w, r := v / d, v % d;
    var q, t := w / 10, w % 10;
    assert v == w * d + r;
    SplitProduct(q, t, d);
    MultiplyBounds(t, 9, d, d);
    DivModUnique(v, 10 * d, q, t * d + r);
  }

  lemma SplitProduct(q: nat, t: nat, d: nat)
    ensures (10 * q + t) * d == q * (10 * d) + t * d
  {
  }

  lemma SplitInner(v: nat, d: nat)
    requires d > 0
    ensures v / (10 * d) == v / 10 / d
    ensures v % (10 * d) == 0 <==> v % 10 == 0 && (v / 10) % d == 0
  {
    var w := v / 10;
    var q, t := w / d, w % d;
    assert w == q * d + t;
    assert q * (10 * d) == 10 * (q * d) && (q + 1) * (10 * d) == q * (10 * d) + 10 * d;
    DivideWithin(v, 10 * d, q, q);
    assert v % (10 * d) == 10 * t + v % 10;
  }

  lemma QuotientSize(v: nat, d: nat)
    requires d > 0
    ensures v / d <= v
    ensures v < d <==> v / d == 0
    ensures d > 1 && v > 0 ==> v / d < v
  {
    var q := v / d;
    assert q * d <= v < (q + 1) * d;
    MultiplyBounds(q, q, 1, d);
    if d > 1 { MultiplyBounds(q, q, 2, d); }
    if q > 0 { MultiplyBounds(1, q, d, d); }
  }

  lemma {:induction false} DroppedIsDivision(v: nat, k: nat, lost: bool)
    ensures Dropped(v, k, lost).0 == v / Pow10(k)
    ensures Dropped(v, k, lost).1 <==> lost || v % Pow10(k) != 0
    decreases k
  {
    if k > 0 {
      DroppedIsDivision(v / 10, k - 1, lost || v != v / 10 * 10);
      SplitTens(v, Pow10(k - 1));
    } else {
      assert Pow10(0) == 1;
    }
  }

  /** Adding nine or ten before the last division passes the top of u64 only when no digit was
      dropped before it, and then leaves nothing. */
  lemma LastDivision(v: nat, k: nat, a: nat)
    requires 0 < v <= U64_MAX && k > 0 && a <= 10
    ensures var w := Dropped(v, k - 1, false).0;
            WrappingAdd(w, a) / 10 == if k == 1 && v + a > U64_MAX then 0 else (w + a) / 10
  {
    DroppedIsDivision(v, k - 1, false);
    var w := Dropped(v, k - 1, false).0;
    if k == 1 {
      assert Pow10(0) == 1;
    } else {
      Pow10Monotone(1, k - 1);
      assert Pow10(1) == 10;
      hide Pow10, Dropped;
      QuotientAtMostTenth(v, Pow10(k - 1));
    }
    hide Dropped, Pow10;
    WrapsPastTop(w, a);
  }

  lemma QuotientAtMostTenth(v: nat, d: nat)
    requires d >= 10
    ensures 10 * (v / d) <= v
  {
    MultiplyBounds(v / d, v / d, 10, d);
    assert v / d * d <= v;
  }

  /** The strict rule is the exact ceiling, except that a count within nine of the top of u64
      wraps to nothing when a single digit is to go. */
  lemma StrictIsCeiling(v: nat, k: nat)
    requires 0 < v <= U64_MAX
    ensures DropsRoundStrict(v, 0 - k, true) == if k == 1 && v + 9 > U64_MAX then 0 else CeilDiv(v, Pow10(k))
  {
    hide Pow10, Dropped, CeilDiv, WrappingAdd, Raised;
    if k == 0 {
      NothingDropped(v);
    } else {
      CeilingFromDropped(v, k);
      NothingLostYet(v);
      LastDivision(v, k, 9);
      LastDivision(v, k, 10);
    }
  }

  lemma NothingLostYet(v: nat)
    ensures Dropped(v, 0, false) == (v, false)
  {
  }

  lemma CeilingFromDropped(v: nat, k: nat)
    requires k > 0
    ensures var (w, lost) := Dropped(v, k - 1, false);
            w <= v && CeilDiv(v, Pow10(k)) == (w + if lost then 10 else 9) / 10
  {
    var d := Pow10(k - 1);
    assert Pow10(k) == 10 * d;
    DroppedIsDivision(v, k - 1, false);
    hide Pow10, Dropped, CeilDiv;
    CeilingOfSplit(v, d);
    QuotientSize(v, d);
  }

  lemma CeilingOfSplit(v: nat, d: nat)
    requires d > 0
    ensures CeilDiv(v, 10 * d) == (v / d + if v % d != 0 then 10 else 9) / 10
  {
    SplitTens(v, d);
    var w := v / d;
    assert (w % 10) * d + v % d == 0 <==> w % 10 == 0 && v % d == 0 by {
      if w % 10 > 0 { MultiplyBounds(1, w % 10, d, d); }
    }
  }

  /** Plain scaling is the exact floor. */
  lemma ScaleIsFloor(v: nat, k: nat)
    requires 0 < v <= U64_MAX
    ensures ScaleToDrops(v, 0 - k) == v / Pow10(k)
  {
    if k == 0 {
      assert Pow10(0) == 1;
    } else {
      hide Pow10, Dropped;
      DroppedIsDivision(v, k, false);
      if k >= 20 {
        Pow10Monotone(20, k);
        TwentyDigits();
        QuotientSize(v, Pow10(k));
      }
    }
  }

  lemma TwentyDigits()
    ensures Pow10(20) > U64_MAX
  {
    assert Pow10(10) == 10_000_000_000;
    Pow10Add(10, 10);
  }

  /** The digits of `v` below ten to the `k`. */
  function Low(v: nat, k: nat): (r: nat) {
    v % Pow10(k)
  }

  /** The digits below a tens unit: the top one, and whether the rest is lost. */
  lemma DroppedDigits(v: nat, k: nat)
    requires k > 0
    ensures var (w, lost) := Dropped(v, k - 1, false);
            && (Low(v, k) == 0 <==> w % 10 == 0 && !lost)
            && (0 < Low(v, k) < Pow10(k - 1) <==> w % 10 == 0 && lost)
  {
    var d := Pow10(k - 1);
    assert Pow10(k) == 10 * d;
    DroppedIsDivision(v, k - 1, false);
    hide Pow10, Dropped;
    LowSplit(v, d);
  }

  lemma LowSplit(v: nat, d: nat)
    requires d > 0
    ensures var t, r, low := (v / d) % 10, v % d, v % (10 * d);
            && (low < d <==> t == 0) && (low == 0 <==> t == 0 && r == 0)
  {
    SplitTens(v, d);
    var t := (v / d) % 10;
    if t > 0 { MultiplyBounds(1, t, d, d); }
  }

  /** Exactly where the legacy rule departs from the ceiling, and which way. */
  lemma LegacyAgainstCeiling(v: nat, k: nat)
    requires 0 < v <= U64_MAX
    ensures var legacy, c := DropsRound(v, 0 - k), CeilDiv(v, Pow10(k));
            if k == 1 && v + 10 > U64_MAX then legacy == 0
            else if 1 <= k <= 2 && Low(v, k) == 0 then legacy == c + 1
            else if k >= 3 && 0 < Low(v, k) < Pow10(k - 1) then legacy == c - 1
            else legacy == c
  {
    hide Pow10, Dropped, CeilDiv, Low, WrappingAdd, Raised;
    if k == 0 {
      NothingDropped(v);
    } else {
      var w := Dropped(v, k - 1, false).0;
      CeilingFromDropped(v, k);
      DroppedDigits(v, k);
      LastDivision(v, k, 9);
      LastDivision(v, k, 10);
      NextTen(w);
    }
  }

  lemma NothingDropped(v: nat)
    ensures v > 0 ==> DropsRound(v, 0) == DropsRoundStrict(v, 0, true) == CeilDiv(v, Pow10(0)) == v
  {
    assert Pow10(0) == 1 && v % 1 == 0;
  }

  lemma NextTen(w: nat)
    ensures (w + 10) / 10 == (w + 9) / 10 + if w % 10 == 0 then 1 else 0
  {
  }

  // ---------------------------------------------------------------- the theorems

  /** Both operands nonzero: the magnitude of the product as a mantissa and exponent, and exactly. */
  ghost predicate Product(a: Amount, b: Amount, m: nat, e: int, x: real) {
    && !IsZero(a) && !IsZero(b)
    && m == NormalizedParts(a).0 * NormalizedParts(b).0
    && e == NormalizedParts(a).1 + NormalizedParts(b).1
    && x == Times(Size(a), Size(b))
  }

  ghost predicate PositiveProduct(a: Amount, b: Amount, m: nat, e: int, x: real) {
    Product(a, b, m, e, x) && Parts(a).2 == Parts(b).2
  }

  lemma ProductSizeValue(a: Amount, b: Amount, m: nat, e: int, x: real)
    requires Product(a, b, m, e, x)
    ensures x == Value(m, e) && m >= TEN_TO_14
  {
    var (m1, e1, _) := Parts(a);
    var (m2, e2, _) := Parts(b);
    ScaleUpValue(m1, e1);
    ScaleUpValue(m2, e2);
    hide Value, Scale, ScaleUp, Times;
    var (n1, f1) := ScaleUp(m1, e1);
    var (n2, f2) := ScaleUp(m2, e2);
    MultiplyBounds(MIN_MANTISSA, n1, MIN_MANTISSA, n2);
    ProductTimes(n1, f1, n2, f2);
  }

  lemma ProductSize(a: Amount, b: Amount, m: nat, e: int, x: real)
    requires Product(a, b, m, e, x)
    ensures x == Value(m, e) && m > 0
    ensures Floors(x, m / TEN_TO_14, e + 14)
    ensures Ceils(x, (m + TEN_TO_14 - 1) / TEN_TO_14, e + 14)
    ensures (m + TEN_TO_14 - 1) / TEN_TO_14 > 0 && m / TEN_TO_14 > 0
  {
    hide Value, Product;
    ProductSizeValue(a, b, m, e, x);
    RawCounts(m, e);
  }

  lemma RawCounts(m: nat, e: int)
    requires m >= TEN_TO_14
    ensures Floors(Value(m, e), m / TEN_TO_14, e + 14)
    ensures Ceils(Value(m, e), (m + TEN_TO_14 - 1) / TEN_TO_14, e + 14)
    ensures (m + TEN_TO_14 - 1) / TEN_TO_14 > 0 && m / TEN_TO_14 > 0
  {
    PowersOfTen();
    FloorByPower(m, e, 14);
    CeilByPower(m, e);
  }

  lemma CeilByPower(m: nat, e: int)
    requires m > 0
    ensures Ceils(Value(m, e), (m + TEN_TO_14 - 1) / TEN_TO_14, e + 14)
  {
    PowersOfTen();
    hide Value, Scale, Pow10;
    var c := (m + TEN_TO_14 - 1) / TEN_TO_14;
    ValueShift(c, 14, e);
    ValueShift(c - 1, 14, e);
    ValueMonotone(m, c * TEN_TO_14, e);
    ValueMonotone((c - 1) * TEN_TO_14, m, e);
  }

  /** A ceiling of a ceiling, and a floor of a floor, in coarser units. */
  lemma CoarserCeiling(x: real, raw: nat, k: nat)
    requires Ceils(x, raw, 0 - k) && raw > 0
    ensures Ceils(x, CeilDiv(raw, Pow10(k)), 0)
  {
    var d := Pow10(k);
    hide Value, Scale, Pow10;
    var c := CeilDiv(raw, d);
    var q := raw / d;
    assert raw == q * d + raw % d;
    assert (q + 1) * d == q * d + d && (q - 1) * d == q * d - d;
    ValueShift(c, k, 0 - k);
    ValueShift(c - 1, k, 0 - k);
    ValueMonotone(raw, c * d, 0 - k);
    ValueMonotone((c - 1) * d, raw - 1, 0 - k);
  }

  lemma CoarserFloor(x: real, raw: nat, k: nat)
    requires Floors(x, raw, 0 - k)
    ensures Floors(x, raw / Pow10(k), 0)
  {
    var d := Pow10(k);
    hide Value, Scale, Pow10;
    var q := raw / d;
    assert q * d <= raw < (q + 1) * d;
    ValueShift(q, k, 0 - k);
    ValueShift(q + 1, k, 0 - k);
    ValueMonotone(q * d, raw, 0 - k);
    ValueMonotone(raw + 1, (q + 1) * d, 0 - k);
  }

  /** Whole drops are counted at exponent zero. */
  lemma CountOfDrops(n: int)
    ensures Value(n, 0) == n as real
  {
    assert Scale(0) == 1.0;
  }

  /** `drops` is the exact product rounded up to whole drops, or down. */
  ghost predicate IsCeiling(drops: int, x: real) {
    drops as real - 1.0 < x <= drops as real
  }

  ghost predicate IsFloor(drops: int, x: real) {
    drops as real <= x < drops as real + 1.0
  }

  /** The raw counts of a positive product, rounded up and down. */
  function RawUp(m: nat): (r: nat) {
    (m + TEN_TO_14 - 1) / TEN_TO_14
  }

  function RawDown(m: nat): (r: nat) {
    m / TEN_TO_14
  }

  /** The counts that the cast to i64 or the last addition spoils: nothing to drop and the upper
      half of u64, or one digit to drop and within nine of the top. */
  predicate Spoiled(raw: nat, k: nat) {
    (k == 0 && raw > I64_MAX) || (k == 1 && raw + 9 > U64_MAX)
  }

  /** Rounded up strictly, a positive product is an error exactly when its raw count is beyond u64,
      and otherwise the exact ceiling in drops unless the count is spoiled. */
  lemma StrictUpIsExact(a: Amount, b: Amount, m: nat, e: int, x: real)
    requires PositiveProduct(a, b, m, e, x) && e + 14 <= 0
    ensures var r, raw, k := MulRoundDrops(a, b, true, true), RawUp(m), 0 - e - 14;
            && (r.Err? <==> raw > U64_MAX)
            && (r.Ok? ==> r.value.Xrp? && (IsCeiling(r.value.drops, x) <==> !Spoiled(raw, k)))
            && (r.Ok? && Spoiled(raw, k) ==> r.value.drops == if k == 0 then raw - U64_MAX - 1 else 1)
  {
    var k, raw := 0 - e - 14, RawUp(m);
    UpResult(a, b, m, e, x, true);
    hide Value, Scale, Pow10, DropsRoundStrict, CeilDiv, MulRoundDrops, Product, RawUp, IsCeiling;
    ProductSize(a, b, m, e, x);
    RawUpIs(m);
    if raw <= U64_MAX {
      StrictIsCeiling(raw, k);
      CeilingOfRaw(x, raw, k);
      CeilDivSmall(raw, Pow10(k));
      CeilDivShrinks(raw, k);
      if Spoiled(raw, k) { OtherIsNoCeiling(CeilDiv(raw, Pow10(k)), MulRoundDrops(a, b, true, true).value.drops, x); }
    }
  }

  lemma RawUpIs(m: nat)
    ensures RawUp(m) == (m + TEN_TO_14 - 1) / TEN_TO_14
  {
  }

  /** What is left of a positive product rounded up once its raw count is known. */
  lemma UpResult(a: Amount, b: Amount, m: nat, e: int, x: real, strict: bool)
    requires PositiveProduct(a, b, m, e, x)
    ensures var raw := RawUp(m);
            var drops := if strict then DropsRoundStrict(raw, e + 14, true) else DropsRound(raw, e + 14);
            MulRoundDrops(a, b, true, strict)
            == if raw > U64_MAX then Err(Overflow) else if drops == 0 then Ok(Xrp(1)) else SignedDrops(drops, false)
  {
    hide ScaleUp, DropsRoundStrict, DropsRound, ScaleToDrops, Size, Times;
  }

  lemma CeilingOfRaw(x: real, raw: nat, k: nat)
    requires Ceils(x, raw, 0 - k) && raw > 0
    ensures IsCeiling(CeilDiv(raw, Pow10(k)), x)
  {
    hide Value, Scale, Pow10, CeilDiv;
    CoarserCeiling(x, raw, k);
    CountOfDrops(CeilDiv(raw, Pow10(k)));
    CountOfDrops(CeilDiv(raw, Pow10(k)) - 1);
  }

  /** A value has one ceiling. */
  lemma OtherIsNoCeiling(c: int, drops: int, x: real)
    requires IsCeiling(c, x) && drops != c
    ensures !IsCeiling(drops, x)
  {
    if drops < c { assert drops as real <= (c - 1) as real; } else { assert c as real <= (drops - 1) as real; }
  }

  /** Rounded down, an error exactly when the raw count is beyond u64, and otherwise the exact floor
      unless nothing is to drop and the count is in the upper half of u64. */
  lemma StrictDownIsExact(a: Amount, b: Amount, m: nat, e: int, x: real)
    requires PositiveProduct(a, b, m, e, x) && e + 14 <= 0
    ensures var r, raw, k := MulRoundDrops(a, b, false, true), RawDown(m), 0 - e - 14;
            && (r.Err? <==> raw > U64_MAX)
            && (r.Ok? ==> r.value.Xrp? && (IsFloor(r.value.drops, x) <==> !(k == 0 && raw > I64_MAX)))
            && (r.Ok? && k == 0 && raw > I64_MAX ==> r.value.drops == raw - U64_MAX - 1)
  {
    hide Value, Scale, Pow10, ScaleUp, DropsRoundStrict, DropsRound, ScaleToDrops;
    ProductSize(a, b, m, e, x);
    var k, raw := 0 - e - 14, RawDown(m);
    if raw <= U64_MAX {
      ScaleIsFloor(raw, k);
      CoarserFloor(x, raw, k);
      var q := raw / Pow10(k);
      CountOfDrops(q);
      CountOfDrops(q + 1);
      QuotientShrinks(raw, k);
    }
  }

  lemma CeilDivSmall(v: nat, d: nat)
    requires 0 < v && d > 0
    ensures 0 < CeilDiv(v, d) <= v
  {
    QuotientSize(v, d);
    assert v % d != 0 ==> d > 1;
  }

  /** Dropping a digit brings any u64 count into i64. */
  lemma QuotientShrinks(v: nat, k: nat)
    requires v <= U64_MAX
    ensures k == 0 ==> v / Pow10(k) == v
    ensures v / Pow10(k) <= v && (k > 0 ==> 10 * (v / Pow10(k)) <= v)
  {
    assert Pow10(0) == 1;
    if k > 0 {
      Pow10Monotone(1, k);
      assert Pow10(1) == 10;
      hide Pow10;
      QuotientAtMostTenth(v, Pow10(k));
    }
  }

  lemma CeilDivShrinks(v: nat, k: nat)
    requires 0 < v <= U64_MAX
    ensures k == 0 ==> CeilDiv(v, Pow10(k)) == v
    ensures k > 0 ==> CeilDiv(v, Pow10(k)) <= I64_MAX - 1
  {
    QuotientShrinks(v, k);
    assert Pow10(0) == 1 && v % 1 == 0;
  }

  /** Both rules differ by one drop on exactly these raw counts, and by a whole count when the last
      addition of the legacy rule alone passes the top of u64. */
  lemma LegacyAgainstStrict(a: Amount, b: Amount, m: nat, e: int, x: real)
    requires PositiveProduct(a, b, m, e, x) && e + 14 <= 0
    ensures MulRoundDrops(a, b, false, false) == MulRoundDrops(a, b, false, true)
    ensures var raw, k := RawUp(m), 0 - e - 14;
            var legacy, strict := MulRoundDrops(a, b, true, false), MulRoundDrops(a, b, true, true);
            if raw > U64_MAX then legacy.Err? && strict.Err?
            else
              && legacy.Ok? && strict.Ok? && legacy.value.Xrp? && strict.value.Xrp?
              && legacy.value.drops - strict.value.drops
                 == if k == 1 && raw + 9 > U64_MAX then 0
                    else if k == 1 && raw + 10 > U64_MAX then 1 - CeilDiv(raw, 10)
                    else if 1 <= k <= 2 && Low(raw, k) == 0 then 1
                    else if k >= 3 && raw >= Pow10(k) && 0 < Low(raw, k) < Pow10(k - 1) then -1
                    else 0
  {
    UpResult(a, b, m, e, x, true);
    UpResult(a, b, m, e, x, false);
    DownAlike(a, b);
    hide Value, Scale, Pow10, DropsRoundStrict, DropsRound, CeilDiv, Low, MulRoundDrops, Product, RawUp;
    ProductSize(a, b, m, e, x);
    RawUpIs(m);
    var k, raw := 0 - e - 14, RawUp(m);
    if raw <= U64_MAX {
      StrictIsCeiling(raw, k);
      LegacyAgainstCeiling(raw, k);
      CeilDivSmall(raw, Pow10(k));
      CeilDivShrinks(raw, k);
      if k >= 1 { OneDropLeft(raw, k); }
      TenToOne();
    }
  }

  /** Rounding down there is only one rule. */
  lemma DownAlike(a: Amount, b: Amount)
    ensures Parts(a).2 == Parts(b).2 ==> MulRoundDrops(a, b, false, false) == MulRoundDrops(a, b, false, true)
  {
    hide ScaleUp, DropsRoundStrict, DropsRound, ScaleToDrops;
  }

  lemma TenToOne()
    ensures Pow10(1) == 10
  {
  }

  /** A ceiling of one drop with a small remainder is a count below one drop. */
  lemma OneDropLeft(raw: nat, k: nat)
    requires raw > 0 && k >= 1
    ensures 0 < Low(raw, k) < Pow10(k - 1) ==> (CeilDiv(raw, Pow10(k)) == 1 <==> raw < Pow10(k))
  {
    hide Pow10;
    QuotientSize(raw, Pow10(k));
  }

  /** So the two never differ by more than one drop unless exactly one digit is dropped from exactly
      the tenth count below 2^64. */
  lemma LegacyWithinOneDropIff(a: Amount, b: Amount, m: nat, e: int, x: real)
    requires PositiveProduct(a, b, m, e, x) && e + 14 <= 0 && RawUp(m) <= U64_MAX
    ensures var legacy, strict := MulRoundDrops(a, b, true, false), MulRoundDrops(a, b, true, true);
            && legacy.Ok? && strict.Ok? && legacy.value.Xrp? && strict.value.Xrp?
            && (-1 <= legacy.value.drops - strict.value.drops <= 1 <==> !(e + 14 == -1 && RawUp(m) == U64_MAX - 9))
  {
    hide PositiveProduct, MulRoundDrops, Low, Pow10;
    LegacyAgainstStrict(a, b, m, e, x);
  }

  // ---------------------------------------------------------------- the failing inputs

  /** Legacy one drop too many: 10^15 drops times one. */
  lemma LegacyAddsADrop()
    ensures var a, b := Xrp(1_000_000_000_000_000), Issued(IouAmount(1_000_000_000_000_000, -15, false));
            && MulRoundDrops(a, b, true, true) == Ok(Xrp(1_000_000_000_000_000))
            && MulRoundDrops(a, b, true, false) == Ok(Xrp(1_000_000_000_000_001))
  {
    var a, b := Xrp(1_000_000_000_000_000), Issued(IouAmount(1_000_000_000_000_000, -15, false));
    assert NormalizedParts(a) == (1_000_000_000_000_000, 0, false);
    assert NormalizedParts(b) == (1_000_000_000_000_000, -15, false);
    assert Dropped(10_000_000_000_000_000, 0, false) == (10_000_000_000_000_000, false);
  }

  /** Legacy one drop too few: 10^13 drops times 1.000000000000001, a hundredth above a whole count. */
  lemma LegacyLosesADrop()
    ensures var a, b := Xrp(10_000_000_000_000), Issued(IouAmount(1_000_000_000_000_001, -15, false));
            && MulRoundDrops(a, b, true, true) == Ok(Xrp(10_000_000_000_001))
            && MulRoundDrops(a, b, true, false) == Ok(Xrp(10_000_000_000_000))
  {
    var a, b := Xrp(10_000_000_000_000), Issued(IouAmount(1_000_000_000_000_001, -15, false));
    assert ScaleUp(100_000_000_000_000, -1) == (1_000_000_000_000_000, -2);
    assert NormalizedParts(a) == (1_000_000_000_000_000, -2, false);
    assert NormalizedParts(b) == (1_000_000_000_000_001, -15, false);
    assert Dropped(1_000_000_000_000_001, 1, false) == (100_000_000_000_000, true);
    assert Dropped(10_000_000_000_000_010, 2, false) == (100_000_000_000_000, true);
  }

  /** Legacy nearly everything: the tenth count below 2^64 with one digit to drop. */
  lemma LegacyWraps()
    ensures var a, b := Xrp(1_844_674_407_370_912_733), Issued(IouAmount(1_000_000_000_000_023, -15, false));
            && MulRoundDrops(a, b, true, true) == Ok(Xrp(1_844_674_407_370_955_161))
            && MulRoundDrops(a, b, true, false) == Ok(Xrp(1))
  {
    var a, b := Xrp(1_844_674_407_370_912_733), Issued(IouAmount(1_000_000_000_000_023, -15, false));
    assert NormalizedParts(a) == (1_844_674_407_370_912_733, 0, false);
    assert NormalizedParts(b) == (1_000_000_000_000_023, -15, false);
    assert Dropped(18_446_744_073_709_551_606, 0, false) == (18_446_744_073_709_551_606, false);
  }

  /** Strict below zero: a positive product of 9.405 * 10^18 drops, which does not fit an i64. */
  lemma PositiveProductTurnsNegative()
    ensures var a, b := Xrp(95_000_000_000_000_000), Issued(IouAmount(9_900_000_000_000_000, -14, false));
            && MulRoundDrops(a, b, true, true) == Ok(Xrp(9_405_000_000_000_000_000 - U64_MAX - 1))
            && MulRoundDrops(a, b, false, true) == Ok(Xrp(9_405_000_000_000_000_000 - U64_MAX - 1))
  {
    var a, b := Xrp(95_000_000_000_000_000), Issued(IouAmount(9_900_000_000_000_000, -14, false));
    assert NormalizedParts(a) == (95_000_000_000_000_000, 0, false);
    assert NormalizedParts(b) == (9_900_000_000_000_000, -14, false);
  }
}
