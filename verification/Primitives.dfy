/** Identifiers and fixed-width arithmetic shared by every component. */
module Primitives {

  /** A 256-bit hash: an opaque identity that is only compared and ordered. */
  type Hash256 = nat

  /** A consensus participant, named by the hash of its public key. */
  type NodeId = Hash256

  const ZERO_HASH: Hash256 := 0

  const U32_MAX: nat := 0xFFFF_FFFF
  const U64_MAX: nat := 0xFFFF_FFFF_FFFF_FFFF

  type u32 = n: nat | n <= U32_MAX
  type u64 = n: nat | n <= U64_MAX

  datatype Option<+T> = None | Some(value: T)

  /** `u32::saturating_add`. */
  function SaturatingAdd(a: u32, b: u32): (r: u32) {
    if a + b <= U32_MAX then a + b else U32_MAX
  }

  /** `u32::saturating_sub`. */
  function SaturatingSub(a: u32, b: u32): (r: u32) {
    if a >= b then a - b else 0
  }

  /** `u32::abs_diff`. */
  function AbsDiff(a: u32, b: u32): (r: u32) {
    if a >= b then a - b else b - a
  }

  lemma SubsetSize<T>(a: set<T>, b: set<T>)
    requires a <= b
    ensures |a| <= |b|
    ensures |a| == |b| ==> a == b
  {
    assert b == a + (b - a);
  }

  /** Counting a set one element at a time: what is counted when `x` leaves the rest. */
  lemma CountStep<T>(s: set<T>, rest: set<T>, x: T)
    requires x in rest
    ensures |s - (rest - {x})| == |s - rest| + if x in s then 1 else 0
  {
    assert s - (rest - {x}) == (s - rest) + if x in s then {x} else {};
  }

  lemma MultiplyBounds(a: nat, b: nat, c: nat, d: nat)
    requires a <= b && c <= d
    ensures a * c <= b * d
  {
    assert a * c <= b * c <= b * d;
  }

  lemma DivideWithin(x: nat, n: nat, lo: nat, hi: nat)
    requires n > 0 && lo * n <= x < (hi + 1) * n
    ensures lo <= x / n <= hi
  {
    var q := x / n;
    assert q * n <= x < (q + 1) * n;
    assert q < lo ==> (q + 1) * n <= lo * n;
    assert q > hi ==> (hi + 1) * n <= q * n;
  }

  lemma DivModUnique(x: nat, n: nat, q: nat, r: nat)
    requires r < n && q * n + r == x
    ensures x / n == q && x % n == r
  {
    assert (q + 1) * n == q * n + n;
    DivideWithin(x, n, q, q);
  }
}
