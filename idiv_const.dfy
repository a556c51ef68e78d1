/**
  The three sequence builders of `nir_opt_idiv_const.c` (`build_udiv`,
  `build_umod`, `build_idiv`) as functions from the numerator expression and
  the constant divisor to the expression they emit, and proofs that each
  emitted expression computes the quotient (or remainder) on every N-bit word.

  The general cases depend on the magic numbers only through `UdivExact` and
  `SdivExact`; the lemmas of `FastDiv` give sufficient conditions for those.
 */
module IdivConst {
  import opened Arith
  import opened Bits
  import opened NirAlu
  import opened FastDiv

  // ---------------------------------------------------------------------
  // The builders
  // ---------------------------------------------------------------------

  /** The start of the general unsigned sequence: the optional pre-shift and the optional saturating increment. */
  function UdivPrefix(n: Expr, m: UdivInfo): (e: Expr)
    ensures BitSize(e) == BitSize(n)
  {
    var n1 := if m.preShift != 0 then Ushr(n, Imm(m.preShift, 32)) else n;
    assert BitSize(n1) == BitSize(n);
    if m.increment != 0 then UaddSat(n1, Imm(m.increment, BitSize(n))) else n1
  }

  /** The optional post-shift of the general unsigned sequence. */
  function UdivPostPart(e: Expr, postShift: nat): (r: Expr)
    ensures BitSize(r) == BitSize(e)
  {
    if postShift != 0 then Ushr(e, Imm(postShift, 32)) else e
  }

  /** The general unsigned sequence of `build_udiv` for parameters `m`. */
  function UdivMagic(n: Expr, m: UdivInfo): (e: Expr)
    ensures BitSize(e) == BitSize(n)
  {
    var n2 := UdivPrefix(n, m);
    UdivPostPart(UmulHigh(n2, Imm(m.multiplier, BitSize(n))), m.postShift)
  }

  /** `build_udiv`: the unsigned quotient of `n` by the 64-bit constant `d`. */
  function BuildUdiv(n: Expr, d: nat, fast: FastDiv): (e: Expr)
    ensures BitSize(e) == BitSize(n)
  {
    if d == 0 then Imm(0, BitSize(n))
    else if IsPowerOfTwoOrZero(d) then Ushr(n, Imm(Log2(d), 32))
    else UdivMagic(n, fast.udivInfo(d, BitSize(n), BitSize(n)))
  }

  /** `build_umod`: the unsigned remainder of `n` by the 64-bit constant `d`. */
  function BuildUmod(n: Expr, d: nat, fast: FastDiv): (e: Expr)
    ensures BitSize(e) == BitSize(n)
  {
    if d == 0 then Imm(0, BitSize(n))
    else if IsPowerOfTwoOrZero(d) then Iand(n, Imm(d - 1, BitSize(n)))
    else Isub(n, Imul(BuildUdiv(n, d, fast), Imm(d, BitSize(n))))
  }

  /** The power-of-two case of `build_idiv`: |n| >> log2|d|, negated when the signs differ. */
  function IdivPow2(n: Expr, d: int): (e: Expr)
    requires d != 0
    ensures BitSize(e) == BitSize(n)
  {
    var uq := Ushr(Iabs(n), Imm(Log2(Abs(d)), 32));
    assert BitSize(uq) == BitSize(n);
    var nNeg := Ilt(n, Imm(0, BitSize(n)));
    var neg := if d < 0 then Inot(nNeg) else nNeg;
    Bcsel(neg, Ineg(uq), uq)
  }

  /** The first part of the general signed sequence: `imul_high` and the `+ n` / `- n` correction. */
  function IdivHighPart(n: Expr, d: int, m: SdivInfo): (e: Expr)
    ensures BitSize(e) == BitSize(n)
  {
    var res1 := ImulHigh(n, Imm(m.multiplier, BitSize(n)));
    var res2 := if d > 0 && m.multiplier < 0 then Iadd(res1, n) else res1;
    assert BitSize(res2) == BitSize(n);
    if d < 0 && m.multiplier > 0 then Isub(res2, n) else res2
  }

  /** The optional arithmetic shift of the general signed sequence. */
  function IdivShiftPart(res: Expr, shift: nat): (e: Expr)
    ensures BitSize(e) == BitSize(res)
  {
    if shift != 0 then Ishr(res, Imm(shift, 32)) else res
  }

  /** The final step of the general signed sequence: add the sign bit, `ushr(res, N - 1)`. */
  function IdivRoundPart(res: Expr): (e: Expr)
    ensures BitSize(e) == BitSize(res)
  {
    Iadd(res, Ushr(res, Imm(BitSize(res) as int - 1, 32)))
  }

  /** The general signed sequence of `build_idiv` for parameters `m`. */
  function IdivMagic(n: Expr, d: int, m: SdivInfo): (e: Expr)
    ensures BitSize(e) == BitSize(n)
  {
    IdivRoundPart(IdivShiftPart(IdivHighPart(n, d, m), m.shift))
  }

  /**
    `build_idiv`: the signed quotient of `n` by the 64-bit constant `d`, rounded
    toward zero. `abs_d` is the mathematical |d|; for d = INT64_MIN this is the
    value 2^63 that the unsigned negation produces.
   */
  function BuildIdiv(n: Expr, d: int, fast: FastDiv): (e: Expr)
    ensures BitSize(e) == BitSize(n)
  {
    if d == 0 then Imm(0, BitSize(n))
    else if d == 1 then n
    else if d == -1 then Ineg(n)
    else if IsPowerOfTwoOrZero(Abs(d)) then IdivPow2(n, d)
    else IdivMagic(n, d, fast.sdivInfo(d, BitSize(n)))
  }

  // ---------------------------------------------------------------------
  // Small facts about immediates
  // ---------------------------------------------------------------------

  /** A 32-bit immediate shift count below the bit size is used as it is. */
  lemma ShiftByImm(w: nat, s: nat, env: Env)
    requires ValidBitSize(w) && s < w
    ensures ShiftCount(w, Eval(Imm(s, 32), env)) == s
  {
    ValidBitSizeFacts(w);
    ImmEval(s, 32, env);
    WrapOfSmall(32, s);
    AndLowMask(s, Log2Size(w));
    DivModUnique(s, w, 0, s);
  }

  /** An N-bit immediate of an in-range value, read at N bits, is that value. */
  lemma ImmWord(w: nat, v: int, env: Env)
    requires 0 <= v < Pow2(w)
    ensures Wrap(w, Eval(Imm(v, w), env)) == v
  {
    ImmEval(v, w, env);
    WrapOfSmall(w, v);
  }

  /** An N-bit immediate of a signed in-range value, read at N bits as signed, is that value. */
  lemma ImmSigned(w: nat, v: int, env: Env)
    requires 0 < w && -Pow2(w - 1) <= v < Pow2(w - 1)
    ensures ToSigned(w, Wrap(w, Eval(Imm(v, w), env))) == v
  {
    ImmEval(v, w, env);
    WrapOfSmall(w, Wrap(w, v));
    ToSignedWrap(w, v);
  }

  /** `ushr` by an immediate below the bit size. */
  lemma UshrImmEval(a: Expr, k: nat, env: Env)
    requires ValidBitSize(BitSize(a)) && k < BitSize(a)
    ensures Eval(Ushr(a, Imm(k, 32)), env) == Eval(a, env) / Pow2(k)
  {
    UshrEval(a, Imm(k, 32), env);
    ShiftByImm(BitSize(a), k, env);
  }

  /** `uadd_sat` of an in-range immediate. */
  lemma UaddSatImmEval(a: Expr, v: nat, env: Env)
    requires v < Pow2(BitSize(a))
    ensures Eval(UaddSat(a, Imm(v, BitSize(a))), env)
            == if Eval(a, env) + v < Pow2(BitSize(a)) then Eval(a, env) + v else Pow2(BitSize(a)) - 1
  {
    UaddSatEval(a, Imm(v, BitSize(a)), env);
    ImmWord(BitSize(a), v, env);
  }

  /** `umul_high` by an in-range immediate. */
  lemma UmulHighImmEval(a: Expr, v: nat, env: Env)
    requires v < Pow2(BitSize(a))
    ensures Eval(UmulHigh(a, Imm(v, BitSize(a))), env) == (Eval(a, env) * v) / Pow2(BitSize(a))
  {
    UmulHighEval(a, Imm(v, BitSize(a)), env);
    ImmWord(BitSize(a), v, env);
  }

  // ---------------------------------------------------------------------
  // Unsigned division
  // ---------------------------------------------------------------------

  /** The value after the optional pre-shift: x / 2^pre. */
  lemma UdivPreShiftEval(n: Expr, m: UdivInfo, env: Env)
    requires ValidBitSize(BitSize(n)) && UdivInfoWellFormed(BitSize(n), m)
    ensures var n1 := if m.preShift != 0 then Ushr(n, Imm(m.preShift, 32)) else n;
            BitSize(n1) == BitSize(n) && Eval(n1, env) == Eval(n, env) / Pow2(m.preShift)
  {
    if m.preShift != 0 {
      UshrImmEval(n, m.preShift, env);
    }
  }

  /** The pre-shift and increment steps compute the formula's x2. */
  lemma UdivPrefixEval(n: Expr, m: UdivInfo, env: Env)
    requires ValidBitSize(BitSize(n)) && UdivInfoWellFormed(BitSize(n), m)
    ensures var x1 := Eval(n, env) / Pow2(m.preShift);
            Eval(UdivPrefix(n, m), env)
              == (if x1 + m.increment < Pow2(BitSize(n)) then x1 + m.increment else Pow2(BitSize(n)) - 1)
  {
    var n1 := if m.preShift != 0 then Ushr(n, Imm(m.preShift, 32)) else n;
    UdivPreShiftEval(n, m, env);
    if m.increment != 0 {
      UaddSatImmEval(n1, m.increment, env);
    } else {
      DivLe(Eval(n, env), Pow2(m.preShift));
    }
  }

  /** The optional post-shift divides by 2^post. */
  lemma UdivPostEval(e: Expr, postShift: nat, env: Env)
    requires ValidBitSize(BitSize(e)) && postShift < BitSize(e)
    ensures Eval(UdivPostPart(e, postShift), env) == Eval(e, env) / Pow2(postShift)
  {
    if postShift != 0 {
      UshrImmEval(e, postShift, env);
    } else {
      DivModUnique(Eval(e, env), 1, Eval(e, env), 0);
    }
  }

  /** The formula split into its two divisions, 2^N and 2^post. */
  lemma UdivFormulaSplit(bits: nat, m: UdivInfo, x: nat, x2: int)
    requires x2 == var x1 := x / Pow2(m.preShift);
                   if x1 + m.increment < Pow2(bits) then x1 + m.increment else Pow2(bits) - 1
    ensures UdivFormula(bits, m, x) == ((x2 * m.multiplier) / Pow2(bits)) / Pow2(m.postShift)
  {
    DivDiv(x2 * m.multiplier, Pow2(bits), Pow2(m.postShift));
    Pow2Add(bits, m.postShift);
  }

  /** The general unsigned sequence computes `UdivFormula`. */
  lemma UdivMagicEval(n: Expr, m: UdivInfo, env: Env)
    requires ValidBitSize(BitSize(n)) && UdivInfoWellFormed(BitSize(n), m)
    ensures Eval(UdivMagic(n, m), env) == UdivFormula(BitSize(n), m, Eval(n, env))
  {
    var n2 := UdivPrefix(n, m);
    var n3 := UmulHigh(n2, Imm(m.multiplier, BitSize(n)));
    UdivPrefixEval(n, m, env);
    UmulHighImmEval(n2, m.multiplier, env);
    UdivFormulaSplit(BitSize(n), m, Eval(n, env), Eval(n2, env));
    UdivPostEval(n3, m.postShift, env);
  }

  /** A power-of-two divisor becomes a logical right shift by its logarithm. */
  lemma UdivPow2Eval(n: Expr, d: nat, env: Env)
    requires ValidBitSize(BitSize(n)) && 1 <= d < Pow2(BitSize(n)) && d == Pow2(Log2(d))
    ensures Eval(Ushr(n, Imm(Log2(d), 32)), env) == Eval(n, env) / d
  {
    Log2Below(d, BitSize(n));
    UshrImmEval(n, Log2(d), env);
  }

  /** The conditions under which the general unsigned case of `build_udiv` is exact. */
  ghost predicate UdivParamsExact(bits: nat, d: nat, fast: FastDiv) {
    d != 0 && !IsPowerOfTwoOrZero(d) ==> UdivExact(bits, d, fast.udivInfo(d, bits, bits))
  }

  /**
    `build_udiv` computes floor(n / d) for every N-bit n; a zero divisor gives
    the constant 0.
   */
  lemma BuildUdivCorrect(n: Expr, d: nat, fast: FastDiv, env: Env)
    requires ValidBitSize(BitSize(n)) && d < Pow2(BitSize(n))
    requires UdivParamsExact(BitSize(n), d, fast)
    ensures Eval(BuildUdiv(n, d, fast), env) == if d == 0 then 0 else Eval(n, env) / d
  {
    var bits := BitSize(n);
    if d == 0 {
      ImmEval(0, bits, env);
      WrapOfSmall(bits, 0);
    } else if IsPowerOfTwoOrZero(d) {
      PowerOfTwoTest(d);
      UdivPow2Eval(n, d, env);
    } else {
      UdivMagicEval(n, fast.udivInfo(d, bits, bits), env);
    }
  }

  // ---------------------------------------------------------------------
  // Unsigned remainder
  // ---------------------------------------------------------------------

  /** n - (n / d) * d, wrapped to N bits, is the remainder. */
  lemma RemainderByProduct(bits: nat, x: nat, d: nat)
    requires 0 < d < Pow2(bits) && x < Pow2(bits)
    ensures Wrap(bits, x - Wrap(bits, (x / d) * d)) == x % d
  {
    var q := x / d;
    DivBounds(x, d);
    MulLe(0, q, d);
    WrapOfSmall(bits, q * d);
    DivModUnique(x, d, q, x - q * d);
    WrapOfSmall(bits, x - q * d);
  }

  /** `iand` with an in-range immediate. */
  lemma IandImmEval(a: Expr, v: nat, env: Env)
    requires v < Pow2(BitSize(a))
    ensures Eval(Iand(a, Imm(v, BitSize(a))), env) == And(Eval(a, env), v)
  {
    IandEval(a, Imm(v, BitSize(a)), env);
    ImmWord(BitSize(a), v, env);
  }

  /** `isub` of two expressions of the same bit size. */
  lemma IsubWordEval(a: Expr, b: Expr, env: Env)
    requires BitSize(b) == BitSize(a)
    ensures Eval(Isub(a, b), env) == Wrap(BitSize(a), Eval(a, env) - Eval(b, env))
  {
    IsubEval(a, b, env);
    WrapOfSmall(BitSize(a), Eval(b, env));
  }

  /** `imul` by an in-range immediate. */
  lemma ImulImmEval(q: Expr, v: nat, env: Env)
    requires v < Pow2(BitSize(q))
    ensures Eval(Imul(q, Imm(v, BitSize(q))), env) == Wrap(BitSize(q), Eval(q, env) * v)
  {
    ImulEval(q, Imm(v, BitSize(q)), env);
    ImmWord(BitSize(q), v, env);
  }

  /** The power-of-two case of `build_umod`: `iand(n, d - 1)`. */
  lemma UmodPow2Eval(n: Expr, d: nat, env: Env)
    requires 1 <= d < Pow2(BitSize(n)) && d == Pow2(Log2(d))
    ensures Eval(Iand(n, Imm(d - 1, BitSize(n))), env) == Eval(n, env) % d
  {
    IandImmEval(n, d - 1, env);
    AndLowMask(Eval(n, env), Log2(d));
  }

  /** The general case of `build_umod`: n - q * d for an expression q holding n / d. */
  lemma UmodByQuotientEval(n: Expr, q: Expr, d: nat, env: Env)
    requires BitSize(q) == BitSize(n) && 0 < d < Pow2(BitSize(n))
    requires Eval(q, env) == Eval(n, env) / d
    ensures Eval(Isub(n, Imul(q, Imm(d, BitSize(n)))), env) == Eval(n, env) % d
  {
    var m := Imul(q, Imm(d, BitSize(n)));
    ImulImmEval(q, d, env);
    IsubWordEval(n, m, env);
    RemainderByProduct(BitSize(n), Eval(n, env), d);
  }

  /**
    `build_umod` computes n mod d for every N-bit n; a zero divisor gives the
    constant 0.
   */
  lemma BuildUmodCorrect(n: Expr, d: nat, fast: FastDiv, env: Env)
    requires ValidBitSize(BitSize(n)) && d < Pow2(BitSize(n))
    requires UdivParamsExact(BitSize(n), d, fast)
    ensures Eval(BuildUmod(n, d, fast), env) == if d == 0 then 0 else Eval(n, env) % d
  {
    if d == 0 {
      ImmEval(0, BitSize(n), env);
      WrapOfSmall(BitSize(n), 0);
    } else if IsPowerOfTwoOrZero(d) {
      BuildUmodPow2(n, d, fast, env);
    } else {
      BuildUmodMagic(n, d, fast, env);
    }
  }

  /** The power-of-two case of `build_umod`: the mask n & (d - 1). */
  lemma BuildUmodPow2(n: Expr, d: nat, fast: FastDiv, env: Env)
    requires 0 < d < Pow2(BitSize(n)) && IsPowerOfTwoOrZero(d)
    ensures Eval(BuildUmod(n, d, fast), env) == Eval(n, env) % d
  {
    PowerOfTwoTest(d);
    UmodPow2Eval(n, d, env);
  }

  /** The general case of `build_umod`: n - (n / d) * d with the quotient of `build_udiv`. */
  lemma BuildUmodMagic(n: Expr, d: nat, fast: FastDiv, env: Env)
    requires ValidBitSize(BitSize(n)) && 0 < d < Pow2(BitSize(n)) && !IsPowerOfTwoOrZero(d)
    requires UdivParamsExact(BitSize(n), d, fast)
    ensures Eval(BuildUmod(n, d, fast), env) == Eval(n, env) % d
  {
    BuildUdivCorrect(n, d, fast, env);
    UmodByQuotientEval(n, BuildUdiv(n, d, fast), d, env);
  }

  // ---------------------------------------------------------------------
  // Signed division
  // ---------------------------------------------------------------------

  /** The absolute value of a signed N-bit value fits N bits unchanged. */
  lemma AbsFits(bits: nat, s: int)
    requires 0 < bits && -Pow2(bits - 1) <= s < Pow2(bits - 1)
    ensures Abs(s) <= Pow2(bits - 1) && Wrap(bits, Abs(s)) == Abs(s)
  {
    assert Pow2(bits) == 2 * Pow2(bits - 1);
    WrapOfSmall(bits, Abs(s));
  }

  /** `ilt(n, 0)` is 1 exactly when n is negative. */
  lemma IsNegativeEval(n: Expr, env: Env)
    requires 0 < BitSize(n)
    ensures Eval(Ilt(n, Imm(0, BitSize(n))), env) == if ToSigned(BitSize(n), Eval(n, env)) < 0 then 1 else 0
  {
    IltEval(n, Imm(0, BitSize(n)), env);
    ImmEval(0, BitSize(n), env);
    WrapOfSmall(BitSize(n), 0);
  }

  /** `ushr(iabs(n), k)` is |n| / 2^k. */
  lemma AbsShiftEval(n: Expr, k: nat, env: Env)
    requires ValidBitSize(BitSize(n)) && k < BitSize(n)
    ensures Eval(Ushr(Iabs(n), Imm(k, 32)), env) == Abs(ToSigned(BitSize(n), Eval(n, env))) / Pow2(k)
  {
    var bits := BitSize(n);
    AbsFits(bits, ToSigned(bits, Eval(n, env)));
    IabsEval(n, env);
    UshrImmEval(Iabs(n), k, env);
  }

  /** The select of the power-of-two case: negate the magnitude quotient exactly when the signs differ. */
  lemma SelectEval(n: Expr, d: int, uq: Expr, u: nat, env: Env)
    requires 0 < BitSize(n) && d != 0 && BitSize(uq) == BitSize(n) && Eval(uq, env) == u
    ensures var nNeg := Ilt(n, Imm(0, BitSize(n)));
            var neg := if d < 0 then Inot(nNeg) else nNeg;
            Eval(Bcsel(neg, Ineg(uq), uq), env)
              == Wrap(BitSize(n), if (ToSigned(BitSize(n), Eval(n, env)) < 0) != (d < 0) then -(u as int) else u as int)
  {
    IsNegativeEval(n, env);
    var nNeg := Ilt(n, Imm(0, BitSize(n)));
    var neg := if d < 0 then Inot(nNeg) else nNeg;
    var s := ToSigned(BitSize(n), Eval(n, env));
    if d < 0 {
      InotEval(nNeg, env);
    }
    assert (Eval(neg, env) != 0) == ((s < 0) != (d < 0));
    BcselEval(neg, Ineg(uq), uq, env);
    InegEval(uq, env);
    WrapOfSmall(BitSize(n), u);
  }

  /** The power-of-two case of `build_idiv` rounds toward zero, the most negative n included. */
  lemma IdivPow2Eval(n: Expr, d: int, env: Env)
    requires ValidBitSize(BitSize(n)) && d != 0
    requires Abs(d) <= Pow2(BitSize(n) - 1) && Abs(d) == Pow2(Log2(Abs(d)))
    ensures Eval(IdivPow2(n, d), env) == Wrap(BitSize(n), TruncDiv(ToSigned(BitSize(n), Eval(n, env)), d))
  {
    var bits := BitSize(n);
    Pow2StrictMonotone(bits - 1, bits);
    Log2Below(Abs(d), bits);
    AbsShiftEval(n, Log2(Abs(d)), env);
    IdivPow2Select(n, d, env);
  }

  /** The select and negation steps of the power-of-two case, given the shifted magnitude. */
  lemma IdivPow2Select(n: Expr, d: int, env: Env)
    requires 0 < BitSize(n) && d != 0 && Abs(d) == Pow2(Log2(Abs(d)))
    requires Eval(Ushr(Iabs(n), Imm(Log2(Abs(d)), 32)), env) == Abs(ToSigned(BitSize(n), Eval(n, env))) / Pow2(Log2(Abs(d)))
    ensures Eval(IdivPow2(n, d), env) == Wrap(BitSize(n), TruncDiv(ToSigned(BitSize(n), Eval(n, env)), d))
  {
    var bits := BitSize(n);
    var s := ToSigned(bits, Eval(n, env));
    var u := Abs(s) / Abs(d);
    var uq := Ushr(Iabs(n), Imm(Log2(Abs(d)), 32));
    assert Eval(uq, env) == u;
    SelectEval(n, d, uq, u, env);
    var nNeg := Ilt(n, Imm(0, bits));
    var neg := if d < 0 then Inot(nNeg) else nNeg;
    assert IdivPow2(n, d) == Bcsel(neg, Ineg(uq), uq);
    TruncDivBySigns(s, d);
  }

  /** Rounding toward zero is the magnitude quotient, negated when the signs differ. */
  lemma TruncDivBySigns(s: int, d: int)
    requires d != 0
    ensures TruncDiv(s, d) == if (s < 0) != (d < 0) then -(Abs(s) / Abs(d)) else Abs(s) / Abs(d)
  {
  }

  /** |a * b| == |a| * |b|. */
  lemma AbsMul(a: int, b: int)
    ensures Abs(a * b) == Abs(a) * Abs(b)
  {
    if a < 0 && b < 0 {
      assert a * b == (-a) * (-b);
    } else if a < 0 {
      assert a * b == -((-a) * b);
      MulLe(0, -a, b);
    } else if b < 0 {
      assert a * b == -(a * (-b));
      MulLe(0, a, -b);
    } else {
      MulLe(0, a, b);
    }
  }

  /** A value strictly between -b * p and b * p has its floor quotient by p in [-b, b). */
  lemma DivRange(prod: int, p: int, b: int)
    requires 0 < p && 0 < b && -(b * p) < prod < b * p
    ensures -b <= prod / p < b
  {
    var q := prod / p;
    DivBounds(prod, p);
    if b <= q {
      MulLe(b, q, p);
      assert false;
    }
    if q < -b {
      MulLe(q + 1, -b, p);
      assert false;
    }
  }

  /** The high half of a signed value times a multiplier below 2^N in magnitude is a signed N-bit value. */
  lemma HighHalfRange(s: int, me: int, p: int, b: int)
    requires 0 < b && p == 2 * b && -b <= s <= b && -p < me < p
    ensures -b <= (s * me) / p < b
  {
    AbsMul(s, me);
    MulLe(Abs(s), b, Abs(me));
    MulLe(Abs(me), p - 1, b);
    assert Abs(s * me) < b * p;
    DivRange(s * me, p, b);
  }

  /** Floor division by a positive number moves a value toward zero without crossing it. */
  lemma DivShrinks(h: int, q: int)
    requires 1 <= q
    ensures 0 <= h ==> 0 <= h / q <= h
    ensures h < 0 ==> h <= h / q < 0
  {
    if 0 <= h {
      DivLe(h, q);
    } else {
      DivBounds(h, q);
      if h / q >= 0 {
        MulLe(0, h / q, q);
        assert false;
      }
      if h / q < h {
        MulLe(h / q + 1, h, q);
        MulLe(1, q, -h);
        assert false;
      }
    }
  }

  /** The multiplier the signed sequence effectively applies is below 2^N in magnitude. */
  lemma EffectiveMultiplierRange(bits: nat, d: int, m: SdivInfo)
    requires SdivInfoWellFormed(bits, m)
    ensures -Pow2(bits) < EffectiveMultiplier(bits, d, m.multiplier) < Pow2(bits)
  {
    assert Pow2(bits) == 2 * Pow2(bits - 1);
  }

  /** `imul_high` by a signed in-range immediate: the high half of the signed product. */
  lemma ImulHighImmEval(a: Expr, v: int, env: Env)
    requires 0 < BitSize(a) && -Pow2(BitSize(a) - 1) <= v < Pow2(BitSize(a) - 1)
    ensures Eval(ImulHigh(a, Imm(v, BitSize(a))), env)
            == Wrap(BitSize(a), (ToSigned(BitSize(a), Eval(a, env)) * v) / Pow2(BitSize(a)))
  {
    ImulHighEval(a, Imm(v, BitSize(a)), env);
    ImmSigned(BitSize(a), v, env);
  }

  /** Adding or subtracting s moves the high half of s * mult by exactly 2^N on the multiplier. */
  lemma HighHalfCorrection(s: int, mult: int, p: int)
    requires 0 < p
    ensures (s * mult) / p + s == (s * (mult + p)) / p
    ensures (s * mult) / p - s == (s * (mult - p)) / p
  {
    DivAddMultiple(s * mult, s, p);
    assert s * mult + s * p == s * (mult + p);
    DivAddMultiple(s * mult, -s, p);
    assert s * mult + (-s) * p == s * (mult - p);
  }

  /** Wrapping a sum or difference only depends on the operands' residues, here h0 and s. */
  lemma WrapCorrection(bits: nat, h0: int, x: nat)
    requires x < Pow2(bits)
    ensures Wrap(bits, Wrap(bits, h0) + Wrap(bits, x)) == Wrap(bits, h0 + ToSigned(bits, x))
    ensures Wrap(bits, Wrap(bits, h0) - Wrap(bits, x)) == Wrap(bits, h0 - ToSigned(bits, x))
  {
    var s := ToSigned(bits, x);
    WrapResidue(bits, h0);
    WrapOfSmall(bits, x);
    WrapAdd(bits, Wrap(bits, h0), Wrap(bits, x), h0, s);
    WrapSub(bits, Wrap(bits, h0), Wrap(bits, x), h0, s);
  }

  /** The `+ n` correction: wrap(h0) + n is the wrapped high half of s * (multiplier + 2^N). */
  lemma AddCorrection(bits: nat, x: nat, mult: int, em: int)
    requires x < Pow2(bits) && em == mult + Pow2(bits)
    ensures var s := ToSigned(bits, x);
            Wrap(bits, Wrap(bits, (s * mult) / Pow2(bits)) + Wrap(bits, x))
              == Wrap(bits, (s * em) / Pow2(bits))
  {
    var s := ToSigned(bits, x);
    WrapCorrection(bits, (s * mult) / Pow2(bits), x);
    HighHalfCorrection(s, mult, Pow2(bits));
  }

  /** The `- n` correction: wrap(h0) - n is the wrapped high half of s * (multiplier - 2^N). */
  lemma SubCorrection(bits: nat, x: nat, mult: int, em: int)
    requires x < Pow2(bits) && em == mult - Pow2(bits)
    ensures var s := ToSigned(bits, x);
            Wrap(bits, Wrap(bits, (s * mult) / Pow2(bits)) - Wrap(bits, x))
              == Wrap(bits, (s * em) / Pow2(bits))
  {
    var s := ToSigned(bits, x);
    WrapCorrection(bits, (s * mult) / Pow2(bits), x);
    HighHalfCorrection(s, mult, Pow2(bits));
  }

  /** `iadd(imul_high(n, multiplier), n)`: the high half with 2^N added to the multiplier. */
  lemma HighPlusEval(n: Expr, mult: int, em: int, env: Env)
    requires 0 < BitSize(n) && -Pow2(BitSize(n) - 1) <= mult < Pow2(BitSize(n) - 1) && em == mult + Pow2(BitSize(n))
    ensures Eval(Iadd(ImulHigh(n, Imm(mult, BitSize(n))), n), env)
            == Wrap(BitSize(n), (ToSigned(BitSize(n), Eval(n, env)) * em) / Pow2(BitSize(n)))
  {
    var res1 := ImulHigh(n, Imm(mult, BitSize(n)));
    ImulHighImmEval(n, mult, env);
    IaddEval(res1, n, env);
    AddCorrection(BitSize(n), Eval(n, env), mult, em);
  }

  /** `isub(imul_high(n, multiplier), n)`: the high half with 2^N taken off the multiplier. */
  lemma HighMinusEval(n: Expr, mult: int, em: int, env: Env)
    requires 0 < BitSize(n) && -Pow2(BitSize(n) - 1) <= mult < Pow2(BitSize(n) - 1) && em == mult - Pow2(BitSize(n))
    ensures Eval(Isub(ImulHigh(n, Imm(mult, BitSize(n))), n), env)
            == Wrap(BitSize(n), (ToSigned(BitSize(n), Eval(n, env)) * em) / Pow2(BitSize(n)))
  {
    var res1 := ImulHigh(n, Imm(mult, BitSize(n)));
    ImulHighImmEval(n, mult, env);
    IsubEval(res1, n, env);
    SubCorrection(BitSize(n), Eval(n, env), mult, em);
  }

  /** `imul_high` followed by the `+ n` / `- n` correction is the high half of n times the effective multiplier. */
  lemma IdivHighEval(n: Expr, d: int, m: SdivInfo, env: Env)
    requires ValidBitSize(BitSize(n)) && SdivInfoWellFormed(BitSize(n), m)
    ensures Eval(IdivHighPart(n, d, m), env)
            == Wrap(BitSize(n), (ToSigned(BitSize(n), Eval(n, env)) * EffectiveMultiplier(BitSize(n), d, m.multiplier)) / Pow2(BitSize(n)))
  {
    if d > 0 && m.multiplier < 0 {
      IdivHighPlus(n, d, m, env);
    } else if d < 0 && m.multiplier > 0 {
      IdivHighMinus(n, d, m, env);
    } else {
      ImulHighImmEval(n, m.multiplier, env);
    }
  }

  lemma IdivHighPlus(n: Expr, d: int, m: SdivInfo, env: Env)
    requires ValidBitSize(BitSize(n)) && SdivInfoWellFormed(BitSize(n), m) && d > 0 && m.multiplier < 0
    ensures Eval(IdivHighPart(n, d, m), env)
            == Wrap(BitSize(n), (ToSigned(BitSize(n), Eval(n, env)) * EffectiveMultiplier(BitSize(n), d, m.multiplier)) / Pow2(BitSize(n)))
  {
    HighPlusEval(n, m.multiplier, EffectiveMultiplier(BitSize(n), d, m.multiplier), env);
  }

  lemma IdivHighMinus(n: Expr, d: int, m: SdivInfo, env: Env)
    requires ValidBitSize(BitSize(n)) && SdivInfoWellFormed(BitSize(n), m) && d < 0 && m.multiplier > 0
    ensures Eval(IdivHighPart(n, d, m), env)
            == Wrap(BitSize(n), (ToSigned(BitSize(n), Eval(n, env)) * EffectiveMultiplier(BitSize(n), d, m.multiplier)) / Pow2(BitSize(n)))
  {
    HighMinusEval(n, m.multiplier, EffectiveMultiplier(BitSize(n), d, m.multiplier), env);
  }

  /** `ishr` by an immediate below the bit size. */
  lemma IshrImmEval(a: Expr, k: nat, env: Env)
    requires ValidBitSize(BitSize(a)) && k < BitSize(a)
    ensures Eval(Ishr(a, Imm(k, 32)), env) == Wrap(BitSize(a), ToSigned(BitSize(a), Eval(a, env)) / Pow2(k))
  {
    IshrEval(a, Imm(k, 32), env);
    ShiftByImm(BitSize(a), k, env);
  }

  /** Shifting the in-range high half arithmetically by k is one floor division by 2^(N + k). */
  lemma ShiftedHighHalf(bits: nat, k: nat, prod: int)
    requires 0 < bits && -Pow2(bits - 1) <= prod / Pow2(bits) < Pow2(bits - 1)
    ensures ToSigned(bits, Wrap(bits, prod / Pow2(bits))) / Pow2(k) == prod / Pow2(bits + k)
    ensures -Pow2(bits - 1) <= prod / Pow2(bits + k) < Pow2(bits - 1)
  {
    var h := prod / Pow2(bits);
    ToSignedWrap(bits, h);
    DivDiv(prod, Pow2(bits), Pow2(k));
    Pow2Add(bits, k);
    DivShrinks(h, Pow2(k));
  }

  /** The optional `ishr` step, for any expression holding the wrapped in-range high half. */
  lemma ShiftStepEval(res: Expr, shift: nat, prod: int, env: Env)
    requires ValidBitSize(BitSize(res)) && shift < BitSize(res)
    requires -Pow2(BitSize(res) - 1) <= prod / Pow2(BitSize(res)) < Pow2(BitSize(res) - 1)
    requires Eval(res, env) == Wrap(BitSize(res), prod / Pow2(BitSize(res)))
    ensures Eval(IdivShiftPart(res, shift), env) == Wrap(BitSize(res), prod / Pow2(BitSize(res) + shift))
    ensures -Pow2(BitSize(res) - 1) <= prod / Pow2(BitSize(res) + shift) < Pow2(BitSize(res) - 1)
  {
    if shift != 0 {
      IshrImmEval(res, shift, env);
      ShiftedHighHalf(BitSize(res), shift, prod);
    }
  }

  /** `ushr(r, N - 1)` of a signed N-bit value is 1 exactly when it is negative. */
  lemma SignBit(bits: nat, r: int)
    requires 0 < bits && -Pow2(bits - 1) <= r < Pow2(bits - 1)
    ensures Wrap(bits, r) / Pow2(bits - 1) == if r < 0 then 1 else 0
  {
    var b := Pow2(bits - 1);
    assert Pow2(bits) == 2 * b;
    if r < 0 {
      DivModUnique(r, 2 * b, -1, r + 2 * b);
      DivBetween(r + 2 * b, b, 1);
    } else {
      DivModUnique(r, 2 * b, 0, r);
      DivBetween(r, b, 0);
    }
  }

  /** The final rounding step: r plus its sign bit, wrapped, is r + 1 for negative r. */
  lemma RoundTowardZero(bits: nat, r: int)
    requires 0 < bits && -Pow2(bits - 1) <= r < Pow2(bits - 1)
    ensures Wrap(bits, Wrap(bits, r) + Wrap(bits, Wrap(bits, r) / Pow2(bits - 1)))
            == Wrap(bits, if r < 0 then r + 1 else r)
  {
    SignBit(bits, r);
    var t := if r < 0 then 1 else 0;
    assert Pow2(bits) == 2 * Pow2(bits - 1);
    WrapOfSmall(bits, t);
    WrapResidue(bits, r);
    WrapAdd(bits, Wrap(bits, r), t, r, t);
  }

  /** `iadd(res, ushr(res, N - 1))` on an expression holding the wrapped value r. */
  lemma AddSignBitEval(res: Expr, r: int, env: Env)
    requires ValidBitSize(BitSize(res))
    requires Eval(res, env) == Wrap(BitSize(res), r)
    ensures Eval(Iadd(res, Ushr(res, Imm(BitSize(res) as int - 1, 32))), env)
            == Wrap(BitSize(res), Wrap(BitSize(res), r) + Wrap(BitSize(res), Wrap(BitSize(res), r) / Pow2(BitSize(res) - 1)))
  {
    IaddEval(res, Ushr(res, Imm(BitSize(res) as int - 1, 32)), env);
    UshrImmEval(res, BitSize(res) - 1, env);
  }

  /** The final `iadd(res, ushr(res, N - 1))`, for any expression holding a wrapped in-range r. */
  lemma RoundStepEval(res: Expr, r: int, env: Env)
    requires ValidBitSize(BitSize(res)) && -Pow2(BitSize(res) - 1) <= r < Pow2(BitSize(res) - 1)
    requires Eval(res, env) == Wrap(BitSize(res), r)
    ensures Eval(IdivRoundPart(res), env) == Wrap(BitSize(res), if r < 0 then r + 1 else r)
  {
    AddSignBitEval(res, r, env);
    RoundTowardZero(BitSize(res), r);
  }

  /** `SdivFormula` unfolded at the effective multiplier. */
  lemma SdivFormulaUnfold(bits: nat, d: int, m: SdivInfo, s: int)
    ensures var r := (s * EffectiveMultiplier(bits, d, m.multiplier)) / Pow2(bits + m.shift);
            SdivFormula(bits, d, m, s) == if r < 0 then r + 1 else r
  {
  }

  /** The high half of a signed N-bit value times the effective multiplier is a signed N-bit value. */
  lemma MagicHighRange(bits: nat, d: int, m: SdivInfo, s: int)
    requires SdivInfoWellFormed(bits, m) && -Pow2(bits - 1) <= s < Pow2(bits - 1)
    ensures var prod := s * EffectiveMultiplier(bits, d, m.multiplier);
            -Pow2(bits - 1) <= prod / Pow2(bits) < Pow2(bits - 1)
  {
    EffectiveMultiplierRange(bits, d, m);
    assert Pow2(bits) == 2 * Pow2(bits - 1);
    HighHalfRange(s, EffectiveMultiplier(bits, d, m.multiplier), Pow2(bits), Pow2(bits - 1));
  }

  /** The optional `ishr` and the rounding `iadd`, for any expression holding the wrapped high half of prod. */
  lemma ShiftRoundEval(high: Expr, shift: nat, prod: int, env: Env)
    requires ValidBitSize(BitSize(high)) && shift < BitSize(high)
    requires -Pow2(BitSize(high) - 1) <= prod / Pow2(BitSize(high)) < Pow2(BitSize(high) - 1)
    requires Eval(high, env) == Wrap(BitSize(high), prod / Pow2(BitSize(high)))
    ensures var r := prod / Pow2(BitSize(high) + shift);
            Eval(IdivRoundPart(IdivShiftPart(high, shift)), env) == Wrap(BitSize(high), if r < 0 then r + 1 else r)
  {
    ShiftStepEval(high, shift, prod, env);
    RoundStepEval(IdivShiftPart(high, shift), prod / Pow2(BitSize(high) + shift), env);
  }

  /** The whole sequence after `imul_high`, for any product whose high half the first part holds. */
  lemma MagicTailEval(n: Expr, d: int, m: SdivInfo, prod: int, env: Env)
    requires ValidBitSize(BitSize(n)) && SdivInfoWellFormed(BitSize(n), m)
    requires -Pow2(BitSize(n) - 1) <= prod / Pow2(BitSize(n)) < Pow2(BitSize(n) - 1)
    requires Eval(IdivHighPart(n, d, m), env) == Wrap(BitSize(n), prod / Pow2(BitSize(n)))
    ensures var r := prod / Pow2(BitSize(n) + m.shift);
            Eval(IdivMagic(n, d, m), env) == Wrap(BitSize(n), if r < 0 then r + 1 else r)
  {
    ShiftRoundEval(IdivHighPart(n, d, m), m.shift, prod, env);
  }

  /** The general signed sequence computes `SdivFormula`, wrapped to N bits. */
  lemma IdivMagicEval(n: Expr, d: int, m: SdivInfo, env: Env)
    requires ValidBitSize(BitSize(n)) && SdivInfoWellFormed(BitSize(n), m)
    ensures Eval(IdivMagic(n, d, m), env) == Wrap(BitSize(n), SdivFormula(BitSize(n), d, m, ToSigned(BitSize(n), Eval(n, env))))
  {
    var bits := BitSize(n);
    var s := ToSigned(bits, Eval(n, env));
    var prod := s * EffectiveMultiplier(bits, d, m.multiplier);
    IdivHighEval(n, d, m, env);
    MagicHighRange(bits, d, m, s);
    MagicTailEval(n, d, m, prod, env);
    SdivFormulaUnfold(bits, d, m, s);
  }

  /** The conditions under which the general signed case of `build_idiv` is exact. */
  ghost predicate SdivParamsExact(bits: nat, d: int, fast: FastDiv) {
    d != 0 && d != 1 && d != -1 && !IsPowerOfTwoOrZero(Abs(d)) ==> SdivExact(bits, d, fast.sdivInfo(d, bits))
  }

  /** `ineg(n)` is the two's-complement negation of n's signed value. */
  lemma InegSignedEval(n: Expr, env: Env)
    ensures Eval(Ineg(n), env) == Wrap(BitSize(n), -ToSigned(BitSize(n), Eval(n, env)))
  {
    InegEval(n, env);
    WrapNeg(BitSize(n), Eval(n, env), ToSigned(BitSize(n), Eval(n, env)));
  }

  /** A divisor whose magnitude passes the power-of-two test takes the shift sequence, which is exact. */
  lemma IdivPow2Correct(n: Expr, d: int, env: Env)
    requires ValidBitSize(BitSize(n)) && -Pow2(BitSize(n) - 1) <= d < Pow2(BitSize(n) - 1)
    requires d != 0 && IsPowerOfTwoOrZero(Abs(d))
    ensures Eval(IdivPow2(n, d), env) == Wrap(BitSize(n), TruncDiv(ToSigned(BitSize(n), Eval(n, env)), d))
  {
    PowerOfTwoTest(Abs(d));
    IdivPow2Eval(n, d, env);
  }

  /** Exact parameters make the general signed sequence the quotient rounded toward zero. */
  lemma IdivMagicExact(n: Expr, d: int, m: SdivInfo, env: Env)
    requires ValidBitSize(BitSize(n)) && SdivExact(BitSize(n), d, m)
    ensures Eval(IdivMagic(n, d, m), env) == Wrap(BitSize(n), TruncDiv(ToSigned(BitSize(n), Eval(n, env)), d))
  {
    IdivMagicEval(n, d, m, env);
  }

  /** Division by 1 and by -1, rounding toward zero. */
  lemma TruncDivUnit(s: int)
    ensures TruncDiv(s, 1) == s && TruncDiv(s, -1) == -s
  {
  }

  /**
    `build_idiv` computes n / d rounded toward zero, in two's complement, for
    every N-bit n (INT_MIN / -1 wraps to INT_MIN); a zero divisor gives the constant 0.
   */
  lemma BuildIdivCorrect(n: Expr, d: int, fast: FastDiv, env: Env)
    requires ValidBitSize(BitSize(n)) && -Pow2(BitSize(n) - 1) <= d < Pow2(BitSize(n) - 1)
    requires SdivParamsExact(BitSize(n), d, fast)
    ensures Eval(BuildIdiv(n, d, fast), env)
            == if d == 0 then 0 else Wrap(BitSize(n), TruncDiv(ToSigned(BitSize(n), Eval(n, env)), d))
  {
    var bits := BitSize(n);
    if d == 0 || d == 1 || d == -1 {
      BuildIdivUnit(n, d, fast, env);
    } else if IsPowerOfTwoOrZero(Abs(d)) {
      assert BuildIdiv(n, d, fast) == IdivPow2(n, d);
      IdivPow2Correct(n, d, env);
    } else {
      assert BuildIdiv(n, d, fast) == IdivMagic(n, d, fast.sdivInfo(d, bits));
      IdivMagicExact(n, d, fast.sdivInfo(d, bits), env);
    }
  }

  /** The divisors 0, 1 and -1: the constant 0, n itself and `ineg(n)`. */
  lemma BuildIdivUnit(n: Expr, d: int, fast: FastDiv, env: Env)
    requires 0 < BitSize(n) && (d == 0 || d == 1 || d == -1)
    ensures Eval(BuildIdiv(n, d, fast), env)
            == if d == 0 then 0 else Wrap(BitSize(n), TruncDiv(ToSigned(BitSize(n), Eval(n, env)), d))
  {
    var bits := BitSize(n);
    var x := Eval(n, env);
    TruncDivUnit(ToSigned(bits, x));
    if d == 0 {
      ImmEval(0, bits, env);
      WrapOfSmall(bits, 0);
    } else if d == 1 {
      WrapToSigned(bits, x);
    } else {
      InegSignedEval(n, env);
    }
  }

  // ---------------------------------------------------------------------
  // Emission order
  // ---------------------------------------------------------------------

  /**
    The operations applied to `n` along the first-operand spine of `e`, innermost
    first: the order in which the builder emits them.
   */
  function Spine(e: Expr, n: Expr): seq<string> {
    if e == n then []
    else match e
      case Ushr(a, _) => Spine(a, n) + ["ushr"]
      case Ishr(a, _) => Spine(a, n) + ["ishr"]
      case UaddSat(a, _) => Spine(a, n) + ["uadd_sat"]
      case UmulHigh(a, _) => Spine(a, n) + ["umul_high"]
      case ImulHigh(a, _) => Spine(a, n) + ["imul_high"]
      case Iadd(a, _) => Spine(a, n) + ["iadd"]
      case Isub(a, _) => Spine(a, n) + ["isub"]
      case Imul(a, _) => Spine(a, n) + ["imul"]
      case Iand(a, _) => Spine(a, n) + ["iand"]
      case Ineg(a) => Spine(a, n) + ["ineg"]
      case Iabs(a) => Spine(a, n) + ["iabs"]
      case Inot(a) => Spine(a, n) + ["inot"]
      case _ => []
  }

  /**
    The general unsigned sequence applies, in this order, `ushr` only for a
    non-zero pre-shift, `uadd_sat` only for a non-zero increment, `umul_high`,
    and `ushr` only for a non-zero post-shift.
   */
  lemma UdivEmissionOrder(n: Expr, m: UdivInfo)
    ensures Spine(UdivMagic(n, m), n)
            == (if m.preShift != 0 then ["ushr"] else [])
               + (if m.increment != 0 then ["uadd_sat"] else [])
               + ["umul_high"]
               + (if m.postShift != 0 then ["ushr"] else [])
  {
    var bits := BitSize(n);
    var n1 := if m.preShift != 0 then Ushr(n, Imm(m.preShift, 32)) else n;
    var n2 := UdivPrefix(n, m);
    var n3 := UmulHigh(n2, Imm(m.multiplier, bits));
    assert n2 == if m.increment != 0 then UaddSat(n1, Imm(m.increment, bits)) else n1;
    assert m.preShift != 0 ==> n < n1;
    assert Spine(n1, n) == (if m.preShift != 0 then ["ushr"] else []);
    assert m.increment != 0 ==> n < n2;
    assert Spine(n2, n) == Spine(n1, n) + (if m.increment != 0 then ["uadd_sat"] else []);
    assert n < n3;
    assert Spine(n3, n) == Spine(n2, n) + ["umul_high"];
    assert m.postShift != 0 ==> n < Ushr(n3, Imm(m.postShift, 32));
  }

  /**
    The general signed sequence applies, in this order, `imul_high`, `iadd` of n
    only when d > 0 and the multiplier is negative, `isub` of n only when d < 0 and
    the multiplier is positive, `ishr` only for a non-zero shift, and a final `iadd`.
   */
  lemma IdivEmissionOrder(n: Expr, d: int, m: SdivInfo)
    ensures Spine(IdivMagic(n, d, m), n)
            == ["imul_high"]
               + (if d > 0 && m.multiplier < 0 then ["iadd"] else [])
               + (if d < 0 && m.multiplier > 0 then ["isub"] else [])
               + (if m.shift != 0 then ["ishr"] else [])
               + ["iadd"]
  {
    var res3 := IdivHighPart(n, d, m);
    IdivHighSpine(n, d, m);
    IdivShiftSpine(res3, n, m.shift);
    var res4 := IdivShiftPart(res3, m.shift);
    assert n < IdivRoundPart(res4);
    assert Spine(IdivRoundPart(res4), n) == Spine(res4, n) + ["iadd"];
  }

  /** The high part contributes `imul_high`, then the optional `iadd` and `isub` of n. */
  lemma IdivHighSpine(n: Expr, d: int, m: SdivInfo)
    ensures n < IdivHighPart(n, d, m)
    ensures Spine(IdivHighPart(n, d, m), n)
            == ["imul_high"]
               + (if d > 0 && m.multiplier < 0 then ["iadd"] else [])
               + (if d < 0 && m.multiplier > 0 then ["isub"] else [])
  {
    var res1 := ImulHigh(n, Imm(m.multiplier, BitSize(n)));
    var res2 := if d > 0 && m.multiplier < 0 then Iadd(res1, n) else res1;
    assert n < res1 && n < res2;
    assert Spine(res1, n) == ["imul_high"];
    assert Spine(res2, n) == Spine(res1, n) + (if d > 0 && m.multiplier < 0 then ["iadd"] else []);
  }

  /** The shift part contributes `ishr` only for a non-zero shift. */
  lemma IdivShiftSpine(res: Expr, n: Expr, shift: nat)
    requires n < res
    ensures n < IdivShiftPart(res, shift)
    ensures Spine(IdivShiftPart(res, shift), n) == Spine(res, n) + (if shift != 0 then ["ishr"] else [])
  {
  }
}
