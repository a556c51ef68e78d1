/**
  The magic-number parameters the pass asks `util/fast_idiv_by_const` for, and
  what they must satisfy for the emitted sequences to divide exactly.

  The derivation itself (`util_compute_fast_udiv_info`,
  `util_compute_fast_sdiv_info`) is not part of this model: it is an oracle,
  `FastDiv`, handed to the builders. Correctness of the general case is stated
  relative to `UdivExact` / `SdivExact`, and the lemmas below prove that the
  conditions of Granlund and Montgomery, "Division by Invariant Integers using
  Multiplication" (1994), are sufficient for them.
 */
module FastDiv {
  import opened Arith
  import opened Bits

  /** The fields of `struct util_fast_udiv_info` that the pass reads. */
  datatype UdivInfo = UdivInfo(multiplier: nat, preShift: nat, postShift: nat, increment: nat)

  /** The fields of `struct util_fast_sdiv_info` that the pass reads. */
  datatype SdivInfo = SdivInfo(multiplier: int, shift: nat)

  /**
    `udivInfo(d, num_bits, uint_bits)` stands for
    `util_compute_fast_udiv_info(d, num_bits, uint_bits)` and `sdivInfo(d, num_bits)`
    for `util_compute_fast_sdiv_info(d, num_bits)`.
   */
  datatype FastDiv = FastDiv(udivInfo: (nat, nat, nat) -> UdivInfo, sdivInfo: (int, nat) -> SdivInfo)

  /** Shifts below the bit size, increment and multiplier representable in N bits. */
  predicate UdivInfoWellFormed(n: nat, m: UdivInfo) {
    m.preShift < n && m.postShift < n && m.increment < Pow2(n) && m.multiplier < Pow2(n)
  }

  /**
    What the unsigned sequence computes, as one formula:
    floor(sat(floor(x / 2^pre) + increment) * multiplier / 2^(N + post)),
    where sat clamps to the largest N-bit word (`uadd_sat`).
   */
  function UdivFormula(n: nat, m: UdivInfo, x: nat): int {
    var x1 := x / Pow2(m.preShift);
    var x2 := if x1 + m.increment < Pow2(n) then x1 + m.increment else Pow2(n) - 1;
    (x2 * m.multiplier) / Pow2(n + m.postShift)
  }

  /** The parameters divide every N-bit word exactly by d. */
  ghost predicate UdivExact(n: nat, d: nat, m: UdivInfo) {
    && UdivInfoWellFormed(n, m)
    && 0 < d
    && forall x: nat :: x < Pow2(n) ==> UdivFormula(n, m, x) == x / d
  }

  /**
    The round-up bound: if m * d = K + e with 0 <= e and x * e < K, then
    floor(m * x / K) == floor(x / d).
   */
  lemma RoundUpQuotient(x: nat, d: nat, mult: nat, k: int)
    requires 0 < d && 0 < k && k <= mult * d && x * (mult * d - k) < k
    ensures (mult * x) / k == x / d
  {
    var q := x / d;
    var e := mult * d - k;
    DivBounds(x, d);
    assert (mult * x) * d == x * k + x * e;
    MulLe(q * d, x, k);
    MulLe(0, x, e);
    assert (q * k) * d <= (mult * x) * d;
    MulCancelLe(q * k, mult * x, d);
    MulLe(x + 1, (q + 1) * d, k);
    assert (mult * x) * d < ((q + 1) * k) * d;
    MulCancelLt(mult * x, (q + 1) * k, d);
    DivBetween(mult * x, k, q);
  }

  /**
    The round-down bound: if m * d = K - e with 0 < e and (x + 1) * e <= K,
    then floor(m * (x + 1) / K) == floor(x / d).
   */
  lemma RoundDownQuotient(x: nat, d: nat, mult: nat, k: int)
    requires 0 < d && 0 < k && mult * d < k && (x + 1) * (k - mult * d) <= k
    ensures (mult * (x + 1)) / k == x / d
  {
    var q := x / d;
    DivBounds(x, d);
    RoundDownAbove(x + 1, d, mult, k, q);
    RoundDownBelow(x + 1, d, mult, k, q);
    DivBetween(mult * (x + 1), k, q);
  }

  /** The upper half of the round-down bound: m * y < (q + 1) * K when y <= (q + 1) * d. */
  lemma RoundDownAbove(y: int, d: nat, mult: nat, k: int, q: int)
    requires 0 < d && 0 < k && mult * d < k && 0 < y <= (q + 1) * d
    ensures mult * y < (q + 1) * k
  {
    var e := k - mult * d;
    assert (mult * y) * d == y * k - y * e;
    MulLe(y, (q + 1) * d, k);
    MulLt(0, y, e);
    assert (mult * y) * d < ((q + 1) * k) * d;
    MulCancelLt(mult * y, (q + 1) * k, d);
  }

  /** The lower half of the round-down bound: q * K <= m * y when q * d < y and y * e <= K. */
  lemma RoundDownBelow(y: int, d: nat, mult: nat, k: int, q: int)
    requires 0 < d && 0 < k && q * d < y && y * (k - mult * d) <= k
    ensures q * k <= mult * y
  {
    var e := k - mult * d;
    assert (mult * y) * d == y * k - y * e;
    MulLe(1, y - q * d, k);
    assert (y - q * d) * k >= y * e;
    assert (q * k) * d <= (mult * y) * d;
    MulCancelLe(q * k, mult * y, d);
  }

  /** The round-up bound after a pre-shift by p: floor(floor(x / p) * m / K) == floor(x / (p * dd)). */
  lemma PreShiftedQuotient(x: nat, p: int, dd: nat, mult: nat, k: int, u: int)
    requires 0 < p && 0 < dd && 0 < k && x < p * u && k <= mult * dd && (mult * dd - k) * u <= k
    ensures ((x / p) * mult) / k == x / (p * dd)
  {
    var x1 := x / p;
    var e := mult * dd - k;
    DivLe(x, p);
    if u <= x1 {
      MulLe(u, x1, p);
      DivBounds(x, p);
      assert false;
    }
    if 0 < e {
      MulLt(x1, u, e);
    }
    RoundUpQuotient(x1, dd, mult, k);
    assert x1 * mult == mult * x1;
    DivDiv(x, p, dd);
  }

  /** One word of the round-up case. */
  lemma RoundUpWord(n: nat, d: nat, m: UdivInfo, x: nat)
    requires UdivInfoWellFormed(n, m) && m.increment == 0 && 0 < d && x < Pow2(n)
    requires d % Pow2(m.preShift) == 0
    requires Pow2(n + m.postShift) <= m.multiplier * (d / Pow2(m.preShift))
    requires (m.multiplier * (d / Pow2(m.preShift)) - Pow2(n + m.postShift)) * Pow2(n - m.preShift)
             <= Pow2(n + m.postShift)
    ensures UdivFormula(n, m, x) == x / d
  {
    var p := Pow2(m.preShift);
    var d' := d / p;
    var u := Pow2(n - m.preShift);
    DivModUnique(d, p, d', 0);
    MulCancelLt(0, d', p);
    Pow2Add(m.preShift, n - m.preShift);
    DivLe(x, p);
    PreShiftedQuotient(x, p, d', m.multiplier, Pow2(n + m.postShift), u);
  }

  /**
    Round-up parameters are exact: d = 2^pre * d', no increment, and
    multiplier * d' = 2^(N + post) + e with e * 2^(N - pre) <= 2^(N + post).
   */
  lemma RoundUpExact(n: nat, d: nat, m: UdivInfo)
    requires UdivInfoWellFormed(n, m) && m.increment == 0 && 0 < d
    requires d % Pow2(m.preShift) == 0
    requires Pow2(n + m.postShift) <= m.multiplier * (d / Pow2(m.preShift))
    requires (m.multiplier * (d / Pow2(m.preShift)) - Pow2(n + m.postShift)) * Pow2(n - m.preShift)
             <= Pow2(n + m.postShift)
    ensures UdivExact(n, d, m)
  {
    forall x: nat | x < Pow2(n)
      ensures UdivFormula(n, m, x) == x / d
    {
      RoundUpWord(n, d, m, x);
    }
  }

  /**
    Round-down parameters are exact: no pre-shift, increment 1,
    multiplier * d = 2^(N + post) - e with 0 < e and e * 2^N <= 2^(N + post),
    and d does not divide 2^N - 1 (the one input where `uadd_sat` saturates).
   */
  lemma RoundDownExact(n: nat, d: nat, m: UdivInfo)
    requires UdivInfoWellFormed(n, m) && m.preShift == 0 && m.increment == 1 && 0 < d
    requires m.multiplier * d < Pow2(n + m.postShift)
    requires (Pow2(n + m.postShift) - m.multiplier * d) * Pow2(n) <= Pow2(n + m.postShift)
    requires (Pow2(n) - 1) % d != 0
    ensures UdivExact(n, d, m)
  {
    forall x: nat | x < Pow2(n)
      ensures UdivFormula(n, m, x) == x / d
    {
      if x + 1 < Pow2(n) {
        RoundDownBelowTop(n, d, m, x);
      } else {
        RoundDownAtTop(n, d, m, x);
      }
    }
  }

  /** The round-down formula on a word below 2^N - 1, where `uadd_sat` does not saturate. */
  lemma RoundDownBelowTop(n: nat, d: nat, m: UdivInfo, x: nat)
    requires UdivInfoWellFormed(n, m) && m.preShift == 0 && m.increment == 1 && 0 < d
    requires m.multiplier * d < Pow2(n + m.postShift)
    requires (Pow2(n + m.postShift) - m.multiplier * d) * Pow2(n) <= Pow2(n + m.postShift)
    requires x + 1 < Pow2(n)
    ensures UdivFormula(n, m, x) == x / d
  {
    var k := Pow2(n + m.postShift);
    var e := k - m.multiplier * d;
    assert x / Pow2(0) == x;
    assert UdivFormula(n, m, x) == ((x + 1) * m.multiplier) / k;
    MulLe(x + 1, Pow2(n), e);
    RoundDownQuotient(x, d, m.multiplier, k);
    assert (x + 1) * m.multiplier == m.multiplier * (x + 1);
  }

  /** The round-down formula on 2^N - 1, where `uadd_sat` saturates and d does not divide 2^N - 1. */
  lemma RoundDownAtTop(n: nat, d: nat, m: UdivInfo, x: nat)
    requires UdivInfoWellFormed(n, m) && m.preShift == 0 && m.increment == 1 && 0 < d
    requires m.multiplier * d < Pow2(n + m.postShift)
    requires (Pow2(n + m.postShift) - m.multiplier * d) * Pow2(n) <= Pow2(n + m.postShift)
    requires (Pow2(n) - 1) % d != 0
    requires x + 1 == Pow2(n)
    ensures UdivFormula(n, m, x) == x / d
  {
    var k := Pow2(n + m.postShift);
    var e := k - m.multiplier * d;
    assert x / Pow2(0) == x;
    assert x == Pow2(n) - 1 && 1 <= x;
    assert UdivFormula(n, m, x) == (((x - 1) + 1) * m.multiplier) / k;
    MulLe(x, Pow2(n), e);
    RoundDownQuotient(x - 1, d, m.multiplier, k);
    assert ((x - 1) + 1) * m.multiplier == m.multiplier * ((x - 1) + 1);
    DivPredecessor(x, d);
  }

  /** The multiplier is a signed N-bit value and the shift is below N. */
  predicate SdivInfoWellFormed(n: nat, m: SdivInfo) {
    0 < n && -Pow2(n - 1) <= m.multiplier < Pow2(n - 1) && m.shift < n
  }

  /**
    The multiplier the signed sequence applies once its `+ n` (d > 0, negative
    multiplier) or `- n` (d < 0, positive multiplier) correction is folded in.
   */
  function EffectiveMultiplier(n: nat, d: int, mult: int): int {
    if d > 0 && mult < 0 then mult + Pow2(n)
    else if d < 0 && mult > 0 then mult - Pow2(n)
    else mult
  }

  /**
    What the signed sequence computes, as one formula: r = floor(x * M / 2^(N + shift))
    for the effective multiplier M, plus one when r is negative.
   */
  function SdivFormula(n: nat, d: int, m: SdivInfo, x: int): int {
    var r := (x * EffectiveMultiplier(n, d, m.multiplier)) / Pow2(n + m.shift);
    if r < 0 then r + 1 else r
  }

  /** The parameters divide every signed N-bit value exactly by d, rounding toward zero. */
  ghost predicate SdivExact(n: nat, d: int, m: SdivInfo) {
    && SdivInfoWellFormed(n, m)
    && d != 0
    && forall x: int :: -Pow2(n - 1) <= x < Pow2(n - 1) ==> SdivFormula(n, d, m, x) == TruncDiv(x, d)
  }

  /** Multiplying m * d = K + e through by a. */
  lemma Scale(a: int, mult: int, d: int, k: int, e: int)
    requires mult * d == k + e
    ensures (a * mult) * d == a * k + a * e
  {
    calc {
      (a * mult) * d;
      a * (mult * d);
      a * (k + e);
    }
  }

  /** From a * mt * dd = a * K + a * e and q * dd <= a < a * mt * dd / K, q * K < a * mt. */
  lemma CancelBelow(a: int, mt: int, dd: int, k: int, e: int, q: int)
    requires 0 < dd && 0 < k && (a * mt) * dd == a * k + a * e && q * dd <= a && 0 < a * e
    ensures q * k < a * mt
  {
    MulLe(q * dd, a, k);
    assert (q * k) * dd == (q * dd) * k;
    MulCancelLt(q * k, a * mt, dd);
  }

  /** From a * mt * dd = a * K + a * e, a * e < K and a < (q + 1) * dd, a * mt < (q + 1) * K. */
  lemma CancelAbove(a: int, mt: int, dd: int, k: int, e: int, q: int)
    requires 0 < dd && 0 < k && (a * mt) * dd == a * k + a * e && a * e < k && a + 1 <= (q + 1) * dd
    ensures a * mt < (q + 1) * k
  {
    MulLe(a + 1, (q + 1) * dd, k);
    assert ((q + 1) * k) * dd == ((q + 1) * dd) * k;
    MulCancelLt(a * mt, (q + 1) * k, dd);
  }

  /** The negative half of the signed bound: for 0 < a <= b, floor(-a * mt / K) == -(a / dd) - 1. */
  lemma NegativeQuotient(a: int, dd: nat, mt: nat, k: int, b: int)
    requires 0 < dd && 0 < k && k < mt * dd && (mt * dd - k) * b < k && 0 < a <= b
    ensures (-(a * mt)) / k == -(a / dd) - 1
  {
    var e := mt * dd - k;
    var q := a / dd;
    DivBounds(a, dd);
    Scale(a, mt, dd, k, e);
    MulLt(0, a, e);
    MulLe(a, b, e);
    CancelBelow(a, mt, dd, k, e, q);
    CancelAbove(a, mt, dd, k, e, q);
    DivBetween(-(a * mt), k, -(q + 1));
  }

  /** The signed bound for a non-negative x: the formula is floor(x * mt / K) == x / dd. */
  lemma SignedQuotientNonNeg(x: int, dd: nat, mt: nat, k: int, b: int)
    requires 0 < dd && 0 < k && k < mt * dd && (mt * dd - k) * b < k && 0 <= x <= b
    ensures (x * mt) / k == x / dd
  {
    MulLe(x, b, mt * dd - k);
    RoundUpQuotient(x, dd, mt, k);
    assert x * mt == mt * x;
  }

  /**
    The signed bound for a positive divisor dd: if mt * dd = K + e with 0 < e
    and e * b < K, the formula rounds x toward zero for every |x| <= b.
   */
  lemma SignedQuotient(x: int, dd: nat, mt: nat, k: int, b: int)
    requires 0 < dd && 0 < k && 0 <= b && k < mt * dd && (mt * dd - k) * b < k && -b <= x <= b
    ensures var r := (x * mt) / k; (if r < 0 then r + 1 else r) == TruncDiv(x, dd)
  {
    if 0 <= x {
      SignedQuotientNonNeg(x, dd, mt, k, b);
      DivLe(x, dd);
    } else {
      NegativeQuotient(-x, dd, mt, k, b);
      assert x * mt == -((-x) * mt);
      DivLe(-x, dd);
    }
  }

  /** Under the signed bound the effective multiplier has the divisor's sign. */
  lemma EffectiveMultiplierSign(n: nat, d: int, m: SdivInfo)
    requires SdivInfoWellFormed(n, m) && d != 0
    requires Pow2(n + m.shift) < Abs(EffectiveMultiplier(n, d, m.multiplier)) * Abs(d)
    ensures (EffectiveMultiplier(n, d, m.multiplier) > 0) == (d > 0)
    ensures EffectiveMultiplier(n, d, m.multiplier) != 0
  {
    assert Pow2(n) == 2 * Pow2(n - 1);
  }

  /** Rounding toward zero commutes with moving the divisor's sign onto the dividend. */
  lemma TruncDivNegate(x: int, d: int)
    requires d < 0
    ensures TruncDiv(-x, -d) == TruncDiv(x, d)
  {
    var ax, ad := Abs(x), Abs(d);
    var q: int := ax / ad;
    assert Abs(-x) == ax && Abs(-d) == ad;
    if x == 0 {
      DivModUnique(0, ad, 0, 0);
      assert TruncDiv(-x, -d) == 0 == TruncDiv(x, d);
    } else if x < 0 {
      assert TruncDiv(-x, -d) == q == TruncDiv(x, d);
    } else {
      assert TruncDiv(-x, -d) == -q == TruncDiv(x, d);
    }
  }

  /** The signed bound for a multiplier of either sign, with the divisor's sign. */
  lemma SignedQuotientAnySign(x: int, d: int, me: int, k: int, b: int)
    requires d != 0 && me != 0 && (me > 0) == (d > 0) && 0 < k && 0 <= b
    requires k < Abs(me) * Abs(d) && (Abs(me) * Abs(d) - k) * b < k && -b <= x <= b
    ensures var r := (x * me) / k; (if r < 0 then r + 1 else r) == TruncDiv(x, d)
  {
    if d > 0 {
      SignedQuotient(x, d, me, k, b);
    } else {
      assert x * me == (-x) * (-me);
      SignedQuotient(-x, -d, -me, k, b);
      TruncDivNegate(x, d);
    }
  }

  /** One value of the signed case. */
  lemma SdivWord(n: nat, d: int, m: SdivInfo, x: int)
    requires SdivInfoWellFormed(n, m) && d != 0
    requires Pow2(n + m.shift) < Abs(EffectiveMultiplier(n, d, m.multiplier)) * Abs(d)
    requires (Abs(EffectiveMultiplier(n, d, m.multiplier)) * Abs(d) - Pow2(n + m.shift)) * Pow2(n - 1)
             < Pow2(n + m.shift)
    requires -Pow2(n - 1) <= x < Pow2(n - 1)
    ensures SdivFormula(n, d, m, x) == TruncDiv(x, d)
  {
    EffectiveMultiplierSign(n, d, m);
    SignedQuotientAnySign(x, d, EffectiveMultiplier(n, d, m.multiplier), Pow2(n + m.shift), Pow2(n - 1));
  }

  /**
    Signed parameters are exact when the effective multiplier M gives
    |M| * |d| = 2^(N + shift) + e with 0 < e and e * 2^(N - 1) < 2^(N + shift).
   */
  lemma SdivMagicExact(n: nat, d: int, m: SdivInfo)
    requires SdivInfoWellFormed(n, m) && d != 0
    requires Pow2(n + m.shift) < Abs(EffectiveMultiplier(n, d, m.multiplier)) * Abs(d)
    requires (Abs(EffectiveMultiplier(n, d, m.multiplier)) * Abs(d) - Pow2(n + m.shift)) * Pow2(n - 1)
             < Pow2(n + m.shift)
    ensures SdivExact(n, d, m)
  {
    forall x: int | -Pow2(n - 1) <= x < Pow2(n - 1)
      ensures SdivFormula(n, d, m, x) == TruncDiv(x, d)
    {
      SdivWord(n, d, m, x);
    }
  }
}
