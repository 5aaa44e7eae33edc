/** Powers of ten and the values that mantissa-exponent pairs denote. */
module Decimal {

  /** Ten to the power `e`. */
  ghost function Scale(e: int): (s: real)
    decreases if e >= 0 then e else -e
  {
    if e == 0 then 1.0 else if e > 0 then 10.0 * Scale(e - 1) else Scale(e + 1) / 10.0
  }

  lemma ScaleStep(e: int)
    ensures Scale(e + 1) == 10.0 * Scale(e)
  {}

  lemma {:induction false} ScalePositive(e: int)
    ensures Scale(e) > 0.0
    decreases if e >= 0 then e else -e
  {
    if e > 0 { ScalePositive(e - 1); } else if e < 0 { ScalePositive(e + 1); }
  }

  ghost function Times(x: real, y: real): (z: real) {
    x * y
  }

  lemma TimesTen(x: real, y: real)
    ensures Times(x, 10.0 * y) == 10.0 * Times(x, y)
    ensures Times(x, 1.0) == x
  {}

  lemma {:induction false} ScaleAddTimes(a: int, b: int)
    ensures Scale(a + b) == Times(Scale(a), Scale(b))
    decreases if b >= 0 then b else -b
  {
    hide Times;
    if b == 0 {
      TimesTen(Scale(a), 0.0);
    } else {
      var c := if b > 0 then b - 1 else b;
      ScaleAddTimes(a, if b > 0 then b - 1 else b + 1);
      ScaleStep(a + c);
      ScaleStep(c);
      TimesTen(Scale(a), Scale(c));
    }
  }

  lemma ScaleAdd(a: int, b: int)
    ensures Scale(a + b) == Scale(a) * Scale(b)
  {
    hide Scale;
    ScaleAddTimes(a, b);
  }

  lemma {:induction false} ScaleMonotone(a: int, b: int)
    requires a <= b
    ensures Scale(a) <= Scale(b)
    decreases b - a
  {
    if a < b {
      ScaleMonotone(a, b - 1);
      ScaleStep(b - 1);
      ScalePositive(b - 1);
    }
  }

  lemma ScaleStrict(a: int, b: int)
    requires a < b
    ensures 10.0 * Scale(a) <= Scale(b) && Scale(a) < Scale(b)
  {
    ScaleStep(a);
    ScalePositive(a);
    ScaleMonotone(a + 1, b);
  }

  /** What a mantissa and an exponent stand for. */
  ghost function Value(m: int, e: int): (v: real) {
    m as real * Scale(e)
  }

  lemma ValueTimesTen(m: int, e: int)
    ensures Value(10 * m, e) == Value(m, e + 1)
  {
    ScaleStep(e);
  }

  lemma ValueMonotone(m: int, n: int, e: int)
    ensures m <= n ==> Value(m, e) <= Value(n, e)
    ensures m < n ==> Value(m, e) < Value(n, e)
  {
    ScalePositive(e);
    if m < n {
      assert (n - m) as real * Scale(e) > 0.0;
    }
  }

  lemma ValueCancel(m: int, n: int, e: int)
    ensures Value(m, e) <= Value(n, e) ==> m <= n
    ensures Value(m, e) < Value(n, e) ==> m < n
  {
    ValueMonotone(m, n, e);
    ValueMonotone(n, m, e);
  }

  function Pow10(k: nat): (p: nat)
    ensures p > 0
  {
    if k == 0 then 1 else 10 * Pow10(k - 1)
  }

  lemma {:induction false} ValueShift(m: int, k: nat, e: int)
    ensures Value(m * Pow10(k), e) == Value(m, e + k)
    decreases k
  {
    if k > 0 {
      ValueShift(m, k - 1, e);
      ValueTimesTen(m * Pow10(k - 1), e);
      ValueTimesTen(m, e + k - 1);
      assert m * Pow10(k) == 10 * (m * Pow10(k - 1));
      ScaleStep(e + k - 1);
    }
  }

  lemma {:induction false} Pow10Add(a: nat, b: nat)
    ensures Pow10(a + b) == Pow10(a) * Pow10(b)
    decreases a
  {
    if a > 0 { Pow10Add(a - 1, b); }
  }

  lemma {:induction false} Pow10Monotone(a: nat, b: nat)
    requires a <= b
    ensures Pow10(a) <= Pow10(b)
    decreases b - a
  {
    if a < b { Pow10Monotone(a, b - 1); }
  }

  /** `q` is the whole part of `x` in units of ten to the `e`. */
  ghost predicate Floors(x: real, q: int, e: int) {
    Value(q, e) <= x < Value(q + 1, e)
  }

  /** Dropping a digit keeps the whole part a whole part. */
  lemma FloorsDropDigit(x: real, q: nat, e: int)
    requires Floors(x, q, e)
    ensures Floors(x, q / 10, e + 1)
  {
    ValueTimesTen(q / 10, e);
    ValueTimesTen(q / 10 + 1, e);
    ValueMonotone(10 * (q / 10), q, e);
    ValueMonotone(q + 1, 10 * (q / 10 + 1), e);
  }

  lemma FloorsUnique(x: real, q: int, r: int, e: int)
    requires Floors(x, q, e) && Floors(x, r, e)
    ensures q == r
  {
    ValueCancel(q, r + 1, e);
    ValueCancel(r, q + 1, e);
  }
}
