/** Directed products in drops that are negative or zero. */
module NegativeDrops {
  import opened Primitives
  import opened Decimal
  import opened Iou
  import opened IouMulDiv
  import opened IouDirected
  import opened Drops

  /** A product with a zero operand: one drop when rounded up from operands neither of which is
      negative, and otherwise nothing. */
  lemma ZeroProductDrops(a: Amount, b: Amount, roundUp: bool, strict: bool)
    requires IsZero(a) || IsZero(b)
    ensures MulRoundDrops(a, b, roundUp, strict)
         == Ok(Xrp(if roundUp && (a.Xrp? ==> a.drops >= 0) && (b.Xrp? ==> b.drops >= 0)
                      && (a.Issued? ==> a.iou.mantissa == 0 || !a.iou.negative)
                      && (b.Issued? ==> b.iou.mantissa == 0 || !b.iou.negative) then 1 else 0))
  {
  }

  ghost predicate NegativeProduct(a: Amount, b: Amount, m: nat, e: int, x: real) {
    Product(a, b, m, e, x) && Parts(a).2 != Parts(b).2
  }

  /** Negation after the cast is exact up to two to the 63rd, and turns larger counts positive. */
  lemma NegatedCount(drops: nat)
    requires drops <= U64_MAX
    ensures SignedDrops(drops, true) == Ok(Xrp(if drops <= I64_MAX + 1 then 0 - drops else U64_MAX + 1 - drops))
  {
  }

  /** Rounded up, toward zero: an error exactly when the raw count is beyond u64, and otherwise the exact
      floor of the magnitude, negated, unless the count is beyond two to the 63rd. */
  lemma NegativeUpIsExact(a: Amount, b: Amount, m: nat, e: int, x: real, strict: bool)
    requires NegativeProduct(a, b, m, e, x) && e + 14 <= 0
    ensures var r, raw, k := MulRoundDrops(a, b, true, strict), RawDown(m), 0 - e - 14;
            && (r.Err? <==> raw > U64_MAX)
            && (r.Ok? ==> r.value.Xrp? && (IsFloor(0 - r.value.drops, x) <==> !(k == 0 && raw > I64_MAX + 1)))
            && (r.Ok? && k == 0 && raw > I64_MAX + 1 ==> r.value.drops == U64_MAX + 1 - raw)
  {
    hide Value, Scale, Pow10, ScaleUp, DropsRoundStrict, DropsRound, ScaleToDrops;
    ProductSize(a, b, m, e, x);
    var k, raw := 0 - e - 14, RawDown(m);
    if raw <= U64_MAX {
      ScaleIsFloor(raw, k);
      CoarserFloor(x, raw, k);
      var q := raw / Pow10(k);
      CountOfDrops(q);
      CountOfDrops(q + 1);
      QuotientShrinks(raw, k);
      NegatedCount(q);
    }
  }

  /** Away from zero the strict rule adds nine whatever was lost: one short of the ceiling exactly when
      the lost digits start with a zero. */
  lemma NinesAgainstCeiling(v: nat, k: nat)
    requires 0 < v <= U64_MAX
    ensures var strict, c := DropsRoundStrict(v, 0 - k, false), CeilDiv(v, Pow10(k));
            if k == 1 && v + 9 > U64_MAX then strict == 0
            else if k >= 1 && 0 < Low(v, k) < Pow10(k - 1) then strict == c - 1
            else strict == c
  {
    hide Pow10, Dropped, CeilDiv, Low, WrappingAdd, Raised;
    if k == 0 {
      NothingDropped(v);
    } else {
      CeilingFromDropped(v, k);
      DroppedDigits(v, k);
      LastDivision(v, k, 9);
      NextTen(Dropped(v, k - 1, false).0);
    }
  }

  /** The counts whose negated ceiling is missed. */
  predicate Missed(raw: nat, k: nat) {
    (k == 0 && raw > I64_MAX + 1) || (k == 1 && raw + 9 > U64_MAX) || (k >= 1 && 0 < Low(raw, k) < Pow10(k - 1))
  }

  /** The same for the legacy rule. */
  predicate MissedByLegacy(raw: nat, k: nat) {
    || (k == 0 && raw > I64_MAX + 1) || (k == 1 && raw + 10 > U64_MAX)
    || (1 <= k <= 2 && Low(raw, k) == 0) || (k >= 3 && 0 < Low(raw, k) < Pow10(k - 1))
  }

  lemma DownResult(a: Amount, b: Amount, m: nat, e: int, x: real, strict: bool)
    requires NegativeProduct(a, b, m, e, x)
    ensures var raw := RawUp(m);
            var drops := if strict then DropsRoundStrict(raw, e + 14, false) else DropsRound(raw, e + 14);
            MulRoundDrops(a, b, false, strict)
            == if raw > U64_MAX then Err(Overflow) else SignedDrops(drops, true)
  {
    hide ScaleUp, DropsRoundStrict, DropsRound, ScaleToDrops, Size, Times, SignedDrops;
  }

  /** Rounded down, away from zero: an error exactly when the raw count is beyond u64, and otherwise the
      exact ceiling of the magnitude, negated, unless the count is missed. */
  lemma NegativeDownIsExact(a: Amount, b: Amount, m: nat, e: int, x: real)
    requires NegativeProduct(a, b, m, e, x) && e + 14 <= 0
    ensures var r, raw, k := MulRoundDrops(a, b, false, true), RawUp(m), 0 - e - 14;
            && (r.Err? <==> raw > U64_MAX)
            && (r.Ok? ==> r.value.Xrp? && (IsCeiling(0 - r.value.drops, x) <==> !Missed(raw, k)))
  {
    var k, raw := 0 - e - 14, RawUp(m);
    DownResult(a, b, m, e, x, true);
    hide Value, Scale, Pow10, DropsRoundStrict, CeilDiv, MulRoundDrops, Product, RawUp, IsCeiling, SignedDrops, Low;
    ProductSize(a, b, m, e, x);
    RawUpIs(m);
    if raw <= U64_MAX {
      NinesAgainstCeiling(raw, k);
      CeilingOfRaw(x, raw, k);
      CeilDivSmall(raw, Pow10(k));
      CeilDivShrinks(raw, k);
      NegatedCount(DropsRoundStrict(raw, e + 14, false));
      var r := MulRoundDrops(a, b, false, true);
      if Missed(raw, k) { OtherIsNoCeiling(CeilDiv(raw, Pow10(k)), 0 - r.value.drops, x); }
    }
  }

  lemma NegativeLegacyDown(a: Amount, b: Amount, m: nat, e: int, x: real)
    requires NegativeProduct(a, b, m, e, x) && e + 14 <= 0
    ensures var r, raw, k := MulRoundDrops(a, b, false, false), RawUp(m), 0 - e - 14;
            && (r.Err? <==> raw > U64_MAX)
            && (r.Ok? ==> r.value.Xrp? && (IsCeiling(0 - r.value.drops, x) <==> !MissedByLegacy(raw, k)))
  {
    var k, raw := 0 - e - 14, RawUp(m);
    DownResult(a, b, m, e, x, false);
    hide Value, Scale, Pow10, DropsRound, CeilDiv, MulRoundDrops, Product, RawUp, IsCeiling, SignedDrops, Low;
    ProductSize(a, b, m, e, x);
    RawUpIs(m);
    if raw <= U64_MAX {
      LegacyAgainstCeiling(raw, k);
      CeilingOfRaw(x, raw, k);
      CeilDivSmall(raw, Pow10(k));
      CeilDivShrinks(raw, k);
      NegatedCount(DropsRound(raw, e + 14));
      var r := MulRoundDrops(a, b, false, false);
      if MissedByLegacy(raw, k) { OtherIsNoCeiling(CeilDiv(raw, Pow10(k)), 0 - r.value.drops, x); }
    }
  }

  /** A missed count: ten trillion drops and a hundredth, negative, round down to ten trillion. */
  lemma RoundDownStaysAbove()
    ensures var a, b := Xrp(-1_000_000_000_000_000), Issued(IouAmount(1_000_000_000_000_001, -17, false));
            && MulRoundDrops(a, b, false, true) == Ok(Xrp(-10_000_000_000_000))
            && !IsCeiling(10_000_000_000_000, Times(Size(a), Size(b)))
  {
    var a, b := Xrp(-1_000_000_000_000_000), Issued(IouAmount(1_000_000_000_000_001, -17, false));
    var m, raw := 1_000_000_000_000_001_000_000_000_000_000, 10_000_000_000_000_010;
    assert NormalizedParts(a) == (1_000_000_000_000_000, 0, true);
    assert NormalizedParts(b) == (1_000_000_000_000_001, -17, false);
    assert RawUp(m) == raw;
    assert DropsRoundStrict(raw, -3, false) == 10_000_000_000_000 by {
      assert Dropped(raw, 2, false) == (100_000_000_000_000, true);
    }
    assert Missed(raw, 3) by { assert Pow10(3) == 1_000 && Pow10(2) == 100; }
    hide MulRoundDrops, Size, Times, IsCeiling, Missed, NormalizedParts, DropsRoundStrict, RawUp;
    NegativeDownIsExact(a, b, m, -17, Times(Size(a), Size(b)));
    DownResult(a, b, m, -17, Times(Size(a), Size(b)), true);
  }
}
