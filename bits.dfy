/**
  N-bit machine words as natural numbers below 2^N: powers of two, wrap-around,
  two's-complement reading, bitwise AND, and the two helpers of the source's
  `util/u_math.h` that the pass uses (`util_is_power_of_two_or_zero64` and
  `util_logbase2_64`).
 */
module Bits {
  import opened Arith

  function Pow2(k: nat): (r: int)
    ensures 1 <= r
  {
    if k == 0 then 1 else 2 * Pow2(k - 1)
  }

  lemma {:induction false} Pow2Add(a: nat, b: nat)
    ensures Pow2(a + b) == Pow2(a) * Pow2(b)
  {
    if a > 0 {
      Pow2Add(a - 1, b);
      assert Pow2(a + b) == 2 * Pow2(a - 1 + b);
    }
  }

  lemma {:induction false} Pow2Monotone(a: nat, b: nat)
    requires a <= b
    ensures Pow2(a) <= Pow2(b)
  {
    if a < b {
      Pow2Monotone(a, b - 1);
    }
  }

  lemma {:induction false} Pow2StrictMonotone(a: nat, b: nat)
    requires a < b
    ensures Pow2(a) < Pow2(b)
  {
    Pow2Monotone(a, b - 1);
  }

  /**
    The bit sizes an integer ALU operation of the pass can have: the powers of
    two 2^3 to 2^6, that is 8, 16, 32 and 64 (ValidBitSizeCases).
   */
  ghost predicate ValidBitSize(n: nat) {
    exists k :: 3 <= k <= 6 && Pow2(k) == n
  }

  lemma Pow2Values()
    ensures Pow2(3) == 8 && Pow2(4) == 16 && Pow2(5) == 32 && Pow2(6) == 64
    ensures Pow2(8) == 0x100 && Pow2(16) == 0x1_0000
    ensures Pow2(32) == 0x1_0000_0000 && Pow2(64) == 0x1_0000_0000_0000_0000
  {
    assert Pow2(8) == 256;
    assert Pow2(16) == 0x1_0000 by { Pow2Add(8, 8); }
    assert Pow2(32) == 0x1_0000_0000 by { Pow2Add(16, 16); }
    assert Pow2(64) == 0x1_0000_0000_0000_0000 by { Pow2Add(32, 32); }
  }

  /** Every valid bit size is itself a power of two, 2^Log2Size(N). */
  function Log2Size(n: nat): nat
    requires ValidBitSize(n)
  {
    if n == 8 then 3 else if n == 16 then 4 else if n == 32 then 5 else 6
  }

  /** The valid bit sizes are exactly 8, 16, 32 and 64. */
  lemma ValidBitSizeCases(n: nat)
    ensures ValidBitSize(n) <==> (n == 8 || n == 16 || n == 32 || n == 64)
  {
    Pow2Values();
    if ValidBitSize(n) {
      var k :| 3 <= k <= 6 && Pow2(k) == n;
      assert k == 3 || k == 4 || k == 5 || k == 6;
    }
  }

  lemma ValidBitSizeFacts(n: nat)
    requires ValidBitSize(n)
    ensures Pow2(Log2Size(n)) == n
    ensures 1 <= n - 1 && n <= 64 < Pow2(32)
    ensures Pow2(n) == 2 * Pow2(n - 1)
  {
    ValidBitSizeCases(n);
    Pow2Values();
  }

  /** Reduction of an integer to an N-bit word (two's-complement wrap-around). */
  function Wrap(n: nat, v: int): (r: nat)
    ensures r < Pow2(n)
  {
    v % Pow2(n)
  }

  /** The two's-complement value of the low N bits of `x`. */
  function ToSigned(n: nat, x: nat): (r: int)
    ensures n == 0 ==> r == 0
    ensures 0 < n ==> -Pow2(n - 1) <= r < Pow2(n - 1)
    ensures r % Pow2(n) == x % Pow2(n)
  {
    var p := Pow2(n);
    var w := x % p;
    DivModUnique(w, p, 0, w);
    if 0 < n && w >= Pow2(n - 1) then
      assert p == 2 * Pow2(n - 1);
      DivModUnique(w - p, p, -1, w);
      w - p
    else
      w
  }

  lemma WrapOfSmall(n: nat, v: int)
    requires 0 <= v < Pow2(n)
    ensures Wrap(n, v) == v
  {
    DivModUnique(v, Pow2(n), 0, v);
  }

  /** Reading a wrapped in-range value as signed gives it back. */
  lemma ToSignedWrap(n: nat, v: int)
    requires 0 < n && -Pow2(n - 1) <= v < Pow2(n - 1)
    ensures ToSigned(n, Wrap(n, v)) == v
  {
    var p := Pow2(n);
    assert p == 2 * Pow2(n - 1);
    var w := if v < 0 then v + p else v;
    DivModUnique(v, p, if v < 0 then -1 else 0, w);
    assert Wrap(n, v) == w;
    DivModUnique(w, p, 0, w);
  }

  /** Wrapping the signed reading of a word gives the word back. */
  lemma WrapToSigned(n: nat, x: nat)
    requires x < Pow2(n)
    ensures Wrap(n, ToSigned(n, x)) == x
  {
    DivModUnique(x, Pow2(n), 0, x);
  }

  /** Wrapping is compatible with addition: only the residues matter. */
  lemma WrapAdd(n: nat, a: int, b: int, a': int, b': int)
    requires a % Pow2(n) == a' % Pow2(n) && b % Pow2(n) == b' % Pow2(n)
    ensures Wrap(n, a + b) == Wrap(n, a' + b')
  {
    var p := Pow2(n);
    DivModUnique(a + b, p, a / p + b / p + (a % p + b % p) / p, (a % p + b % p) % p);
    DivModUnique(a' + b', p, a' / p + b' / p + (a' % p + b' % p) / p, (a' % p + b' % p) % p);
  }

  lemma WrapNeg(n: nat, a: int, a': int)
    requires a % Pow2(n) == a' % Pow2(n)
    ensures Wrap(n, -a) == Wrap(n, -a')
  {
    var p := Pow2(n);
    if a % p == 0 {
      DivModUnique(-a, p, -(a / p), 0);
      DivModUnique(-a', p, -(a' / p), 0);
    } else {
      DivModUnique(-a, p, -(a / p) - 1, p - a % p);
      DivModUnique(-a', p, -(a' / p) - 1, p - a' % p);
    }
  }

  /** Wrapping is compatible with subtraction: only the residues matter. */
  lemma WrapSub(n: nat, a: int, b: int, a': int, b': int)
    requires a % Pow2(n) == a' % Pow2(n) && b % Pow2(n) == b' % Pow2(n)
    ensures Wrap(n, a - b) == Wrap(n, a' - b')
  {
    WrapNeg(n, b, b');
    WrapAdd(n, a, -b, a', -b');
  }

  /** A wrapped value has the residue of the original. */
  lemma WrapResidue(n: nat, v: int)
    ensures Wrap(n, v) % Pow2(n) == v % Pow2(n)
  {
    DivModUnique(v % Pow2(n), Pow2(n), 0, v % Pow2(n));
  }

  /** Bitwise AND of two naturals, bit by bit from the least significant one. */
  function And(a: nat, b: nat): (r: nat)
    ensures r <= a && r <= b
    decreases a
  {
    if a == 0 || b == 0 then 0
    else 2 * And(a / 2, b / 2) + (if a % 2 == 1 && b % 2 == 1 then 1 else 0)
  }

  /** Peeling off the lowest bit of a remainder modulo an even number. */
  lemma ModDouble(x: nat, p: int)
    requires 1 <= p
    ensures x % (2 * p) == 2 * ((x / 2) % p) + x % 2
  {
    var h, b := x / 2, x % 2;
    var q, r := h / p, h % p;
    assert x == (2 * p) * q + (2 * r + b);
    DivModUnique(x, 2 * p, q, 2 * r + b);
  }

  /** AND with an odd mask keeps the lowest bit and ANDs the rest with the mask's upper bits. */
  lemma AndOdd(x: nat, m: nat)
    requires 1 <= x && m % 2 == 1
    ensures And(x, m) == 2 * And(x / 2, m / 2) + x % 2
  {
  }

  /** Masking with 2^k - 1 keeps the low k bits: `x & (2^k - 1) == x % 2^k`. */
  lemma {:induction false} AndLowMask(x: nat, k: nat)
    ensures And(x, Pow2(k) - 1) == x % Pow2(k)
  {
    var p := Pow2(k);
    if k == 0 {
      assert p == 1;
    } else if x == 0 {
      DivModUnique(0, p, 0, 0);
    } else {
      var p' := Pow2(k - 1);
      assert p == 2 * p';
      var m := p - 1;
      DivModUnique(m, 2, p' - 1, 1);
      AndLowMask(x / 2, k - 1);
      AndOdd(x, m);
      ModDouble(x, p');
    }
  }

  lemma {:induction false} AndSelf(x: nat)
    ensures And(x, x) == x
  {
    if x > 0 {
      AndSelf(x / 2);
    }
  }

  /** floor(log2 x) for a positive x, as `util_logbase2_64` computes it. */
  function Log2(x: nat): (r: nat)
    requires 1 <= x
    ensures Pow2(r) <= x < 2 * Pow2(r)
  {
    if x == 1 then 0 else 1 + Log2(x / 2)
  }

  /** `util_is_power_of_two_or_zero64`: `(x & (x - 1)) == 0`. */
  predicate IsPowerOfTwoOrZero(x: nat) {
    x == 0 || And(x, x - 1) == 0
  }

  /** The bit trick recognises exactly the powers of two. */
  lemma {:induction false} PowerOfTwoTest(x: nat)
    requires 1 <= x
    ensures IsPowerOfTwoOrZero(x) <==> x == Pow2(Log2(x))
  {
    if x == 1 {
    } else if x % 2 == 0 {
      var y := x / 2;
      assert (x - 1) / 2 == y - 1 && (x - 1) % 2 == 1;
      assert And(x, x - 1) == 2 * And(y, y - 1);
      PowerOfTwoTest(y);
      assert Log2(x) == 1 + Log2(y);
    } else {
      var y := x / 2;
      assert (x - 1) / 2 == y && (x - 1) % 2 == 0;
      AndSelf(y);
      assert And(x, x - 1) == 2 * y;
      assert Pow2(Log2(x)) == 2 * Pow2(Log2(y));
    }
  }

  /** A power of two below 2^n has its logarithm below n. */
  lemma Log2Below(x: nat, n: nat)
    requires 1 <= x < Pow2(n)
    ensures Log2(x) < n
  {
    if n <= Log2(x) {
      Pow2Monotone(n, Log2(x));
    }
  }

  function Abs(x: int): nat {
    if x < 0 then -x else x
  }

  /** Division rounding toward zero, as C's `/` on signed integers. */
  function TruncDiv(a: int, b: int): int
    requires b != 0
  {
    if (a < 0) == (b < 0) then Abs(a) / Abs(b) else -(Abs(a) / Abs(b))
  }
}
