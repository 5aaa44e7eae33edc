/** Directed products in drops so large that their raw count is in units of ten drops or more. */
module CoarseDrops {
  import opened Primitives
  import opened Decimal
  import opened Iou
  import opened IouMulDiv
  import opened IouDirected
  import opened Drops
  import opened NegativeDrops

  /** Scaling up multiplies, and stays at the top of u64 once it gets there. */
  lemma {:induction false} RaisedSaturates(v: nat, k: nat)
    requires v <= U64_MAX
    ensures Raised(v, k) == if v * Pow10(k) > U64_MAX then U64_MAX else v * Pow10(k)
    decreases k
  {
    if k > 0 {
      var w, p := SaturatingTimesTen(v), Pow10(k - 1);
      RaisedSaturates(w, k - 1);
      assert Pow10(k) == 10 * p;
      assert v * (10 * p) == 10 * v * p;
      hide Pow10;
      if 10 * v > U64_MAX { MultiplyBounds(U64_MAX, 10 * v, 1, p); MultiplyBounds(U64_MAX, U64_MAX, 1, p); }
    } else {
      assert Pow10(0) == 1;
    }
  }

  /** The raw count a product is rounded to, away from zero or toward it. */
  function RawCount(m: nat, away: bool): (raw: nat) {
    if away then RawUp(m) else RawDown(m)
  }

  /** The magnitude that is cast to an i64. */
  function Magnified(raw: nat, unit: nat): (v: nat) {
    if raw * unit > U64_MAX then U64_MAX else raw * unit
  }

  lemma CoarseResult(a: Amount, b: Amount, m: nat, e: int, x: real, roundUp: bool, strict: bool)
    requires Product(a, b, m, e, x) && e + 14 > 0
    ensures var negative := Parts(a).2 != Parts(b).2;
            var raw := RawCount(m, negative != roundUp);
            0 < raw && MulRoundDrops(a, b, roundUp, strict)
                       == if raw > U64_MAX then Err(Overflow) else SignedDrops(Magnified(raw, Pow10(e + 14)), negative)
  {
    hide Product, NativeFinish, SignedDrops, Pow10, Value, Magnified;
    ProductSize(a, b, m, e, x);
    var negative := Parts(a).2 != Parts(b).2;
    FinishOf(a, b, m, e, x, roundUp, strict);
    FinishCoarse(RawCount(m, negative != roundUp), e + 14, negative, roundUp, strict);
  }

  lemma FinishOf(a: Amount, b: Amount, m: nat, e: int, x: real, roundUp: bool, strict: bool)
    requires Product(a, b, m, e, x)
    ensures var negative := Parts(a).2 != Parts(b).2;
            MulRoundDrops(a, b, roundUp, strict)
            == NativeFinish(RawCount(m, negative != roundUp), e + 14, negative, roundUp, strict)
  {
    hide ScaleUp, Size, Times, NativeFinish;
  }

  lemma FinishCoarse(raw: nat, k: nat, negative: bool, roundUp: bool, strict: bool)
    requires raw > 0 && k > 0
    ensures NativeFinish(raw, k, negative, roundUp, strict)
         == if raw > U64_MAX then Err(Overflow) else SignedDrops(Magnified(raw, Pow10(k)), negative)
  {
    hide Raised, Dropped, Pow10, SignedDrops;
    if raw <= U64_MAX {
      RaisedSaturates(raw, k);
      Pow10Positive(k);
      MultiplyBounds(1, raw, 1, Pow10(k));
    }
  }

  lemma Pow10Positive(k: nat)
    ensures Pow10(k) >= 1
  {
    Pow10Monotone(0, k);
    assert Pow10(0) == 1;
  }

  /** Within one unit of the exact magnitude, on the side asked for. */
  ghost predicate WithinUnit(drops: int, unit: nat, x: real, away: bool) {
    if away then (drops - unit) as real < x <= drops as real else drops as real <= x < (drops + unit) as real
  }

  lemma RawWithinUnit(x: real, m: nat, e: int, away: bool)
    requires x == Value(m, e) && m >= TEN_TO_14 && e + 14 > 0
    ensures var raw, unit := RawCount(m, away), Pow10(e + 14);
            WithinUnit(raw * unit, unit, x, away) && x >= unit as real && raw * unit >= unit
  {
    hide Value, Scale, Pow10;
    RawCounts(m, e);
    var raw, down, k := RawCount(m, away), RawDown(m), e + 14;
    Pow10Positive(k);
    InDrops(raw, k);
    InDrops(raw - 1, k);
    InDrops(raw + 1, k);
    InDrops(1, k);
    ValueMonotone(1, down, k);
    MultiplyBounds(1, raw, Pow10(k), Pow10(k));
    assert (raw - 1) * Pow10(k) == raw * Pow10(k) - Pow10(k) && (raw + 1) * Pow10(k) == raw * Pow10(k) + Pow10(k);
  }

  lemma InDrops(n: int, k: nat)
    ensures Value(n, k) == (n * Pow10(k)) as real
  {
    ValueShift(n, k, 0);
    hide Value, Pow10;
    CountOfDrops(n * Pow10(k));
  }

  /** A positive product in such units is within one of them, on the side asked for, exactly when it fits an
      i64; past u64 it comes out as minus one drop. */
  lemma CoarseProductIsExact(a: Amount, b: Amount, m: nat, e: int, x: real, roundUp: bool, strict: bool)
    requires PositiveProduct(a, b, m, e, x) && e + 14 > 0
    ensures var r, raw, unit := MulRoundDrops(a, b, roundUp, strict), RawCount(m, roundUp), Pow10(e + 14);
            && (r.Err? <==> raw > U64_MAX)
            && (r.Ok? ==> r.value.Xrp? && (WithinUnit(r.value.drops, unit, x, roundUp) <==> raw * unit <= I64_MAX))
            && (r.Ok? && raw * unit > U64_MAX ==> r.value.drops == -1)
  {
    CoarseResult(a, b, m, e, x, roundUp, strict);
    ProductSizeValue(a, b, m, e, x);
    RawWithinUnit(x, m, e, roundUp);
    hide MulRoundDrops, Product, Pow10, RawCount, Value;
  }

  /** A negative one likewise, up to two to the 63rd; past u64 it comes out as one drop. */
  lemma CoarseNegativeIsExact(a: Amount, b: Amount, m: nat, e: int, x: real, roundUp: bool, strict: bool)
    requires NegativeProduct(a, b, m, e, x) && e + 14 > 0
    ensures var r, raw, unit := MulRoundDrops(a, b, roundUp, strict), RawCount(m, !roundUp), Pow10(e + 14);
            && (r.Err? <==> raw > U64_MAX)
            && (r.Ok? ==>
                  r.value.Xrp?
                  && (WithinUnit(0 - r.value.drops, unit, x, !roundUp) <==> raw * unit <= I64_MAX + 1))
            && (r.Ok? && raw * unit > U64_MAX ==> r.value.drops == 1)
  {
    CoarseResult(a, b, m, e, x, roundUp, strict);
    ProductSizeValue(a, b, m, e, x);
    RawWithinUnit(x, m, e, !roundUp);
    hide MulRoundDrops, Product, Pow10, RawCount, Value;
    var raw, unit := RawCount(m, !roundUp), Pow10(e + 14);
    if raw <= U64_MAX { NegatedCount(Magnified(raw, unit)); }
  }

  /** Ten to the 30th drops, a positive product, come out as minus one. */
  lemma HugeProductIsMinusOne(roundUp: bool, strict: bool)
    ensures var a, b := Xrp(1_000_000_000_000_000), Issued(IouAmount(1_000_000_000_000_000, 0, false));
            MulRoundDrops(a, b, roundUp, strict) == Ok(Xrp(-1))
  {
    var a, b := Xrp(1_000_000_000_000_000), Issued(IouAmount(1_000_000_000_000_000, 0, false));
    var m := 1_000_000_000_000_000_000_000_000_000_000;
    assert NormalizedParts(a) == (1_000_000_000_000_000, 0, false);
    assert NormalizedParts(b) == (1_000_000_000_000_000, 0, false);
    assert RawCount(m, roundUp) == 10_000_000_000_000_000;
    PowersOfTen();
    hide MulRoundDrops, Size, Times, NormalizedParts, Pow10, WithinUnit, RawCount;
    CoarseProductIsExact(a, b, m, 0, Times(Size(a), Size(b)), roundUp, strict);
  }
}
