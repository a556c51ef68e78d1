/**
  What `nir_opt_idiv_const_instr` builds for one division: the divisor it reads
  for each component (sign-extended from the source's bit size, then masked back
  to that size for the unsigned opcodes), the sequence it builds for that lane,
  and the vector of all lanes that replaces the instruction.

  `LaneReference` is what each lane must compute: the unsigned quotient or
  remainder by the masked divisor, or the signed quotient rounded toward zero;
  zero when the divisor is zero.
 */
module IdivLower {
  import opened Arith
  import opened Bits
  import opened NirAlu
  import opened NirIr
  import opened FastDiv
  import opened IdivConst

  /**
    The `int64_t d` of the rewrite for a constant lane holding `raw`: the lane
    read at `bits` as a signed value, then, for an opcode with an unsigned
    divisor and `bits < 64`, ANDed with `(1ull << bits) - 1`.
   */
  function DivisorValue(op: AluOp, bits: nat, raw: nat): int {
    var d := ToSigned(bits, raw);
    if DivisorIsUnsigned(op) && bits < 64 then And(Wrap(64, d), Pow2(bits) - 1) else d
  }

  /** Reducing modulo A * B and then modulo B is reducing modulo B. */
  lemma ModOfMultiple(v: int, a: int, b: int)
    requires 0 < a && 0 < b
    ensures 0 < a * b && (v % (a * b)) % b == v % b
  {
    MulLt(0, a, b);
    var p := a * b;
    var q, r := v / p, v % p;
    assert v == p * q + r;
    var q2, r2 := r / b, r % b;
    assert r == b * q2 + r2;
    assert p * q == b * (a * q);
    assert v == b * (a * q + q2) + r2;
    DivModUnique(v, b, a * q + q2, r2);
  }

  /** Reducing modulo 2^64 and then modulo 2^b (b <= 64) is reducing modulo 2^b. */
  lemma ModPow2Twice(v: int, b: nat)
    requires b <= 64
    ensures Wrap(64, v) % Pow2(b) == v % Pow2(b)
  {
    Pow2Add(64 - b, b);
    ModOfMultiple(v, Pow2(64 - b), Pow2(b));
  }

  /**
    The unsigned divisor `build_udiv` and `build_umod` receive, as a `uint64_t`, is
    the lane's low `bits` bits: the sign extension is undone by the mask (or, at
    64 bits, by the conversion to `uint64_t`).
   */
  lemma UnsignedDivisor(op: AluOp, bits: nat, raw: nat)
    requires DivisorIsUnsigned(op) && ValidBitSize(bits)
    ensures Wrap(64, DivisorValue(op, bits, raw)) == raw % Pow2(bits)
    ensures raw % Pow2(bits) < Pow2(bits)
  {
    var d := ToSigned(bits, raw);
    ValidBitSizeCases(bits);
    Pow2Values();
    if bits < 64 {
      var w := Wrap(64, d);
      AndLowMask(w, bits);
      ModPow2Twice(d, bits);
      Pow2StrictMonotone(bits, 64);
      WrapOfSmall(64, w % Pow2(bits));
    } else {
      WrapResidue(64, raw);
    }
  }

  /** The sequence built for one lane with numerator `n` and constant lane `raw` read at `bits`. */
  function LowerLane(op: AluOp, n: Expr, raw: nat, bits: nat, fast: FastDiv): (e: Expr)
    requires IsDivOp(op)
    ensures BitSize(e) == BitSize(n)
  {
    var d := DivisorValue(op, bits, raw);
    match op
    case Udiv => BuildUdiv(n, Wrap(64, d), fast)
    case Idiv => BuildIdiv(n, d, fast)
    case Umod => BuildUmod(n, Wrap(64, d), fast)
  }

  /** What one lane of a lowered division must compute on the numerator word x. */
  function LaneReference(op: AluOp, bits: nat, x: nat, raw: nat): nat
    requires IsDivOp(op)
  {
    if DivisorIsUnsigned(op) then
      var d := raw % Pow2(bits);
      if d == 0 then 0 else if op.Udiv? then x / d else x % d
    else
      var d := ToSigned(bits, raw);
      if d == 0 then 0 else Wrap(bits, TruncDiv(ToSigned(bits, x), d))
  }

  /** The magic numbers the lane uses divide exactly. */
  ghost predicate LaneParamsExact(op: AluOp, bits: nat, raw: nat, fast: FastDiv) {
    if DivisorIsUnsigned(op) then UdivParamsExact(bits, raw % Pow2(bits), fast)
    else SdivParamsExact(bits, ToSigned(bits, raw), fast)
  }

  lemma UdivLaneCorrect(n: Expr, raw: nat, fast: FastDiv, env: Env)
    requires ValidBitSize(BitSize(n)) && UdivParamsExact(BitSize(n), raw % Pow2(BitSize(n)), fast)
    ensures Eval(LowerLane(Udiv, n, raw, BitSize(n), fast), env) == LaneReference(Udiv, BitSize(n), Eval(n, env), raw)
  {
    UnsignedDivisor(Udiv, BitSize(n), raw);
    BuildUdivCorrect(n, raw % Pow2(BitSize(n)), fast, env);
  }

  lemma UmodLaneCorrect(n: Expr, raw: nat, fast: FastDiv, env: Env)
    requires ValidBitSize(BitSize(n)) && UdivParamsExact(BitSize(n), raw % Pow2(BitSize(n)), fast)
    ensures Eval(LowerLane(Umod, n, raw, BitSize(n), fast), env) == LaneReference(Umod, BitSize(n), Eval(n, env), raw)
  {
    UnsignedDivisor(Umod, BitSize(n), raw);
    BuildUmodCorrect(n, raw % Pow2(BitSize(n)), fast, env);
  }

  lemma IdivLaneCorrect(n: Expr, raw: nat, fast: FastDiv, env: Env)
    requires ValidBitSize(BitSize(n)) && SdivParamsExact(BitSize(n), ToSigned(BitSize(n), raw), fast)
    ensures Eval(LowerLane(Idiv, n, raw, BitSize(n), fast), env) == LaneReference(Idiv, BitSize(n), Eval(n, env), raw)
  {
    var bits := BitSize(n);
    IdivLaneShape(n, raw, fast);
    BuildIdivCorrect(n, ToSigned(bits, raw), fast, env);
  }

  /** The signed lane is `build_idiv` of the sign-extended constant. */
  lemma IdivLaneShape(n: Expr, raw: nat, fast: FastDiv)
    ensures LowerLane(Idiv, n, raw, BitSize(n), fast) == BuildIdiv(n, ToSigned(BitSize(n), raw), fast)
  {
  }

  /** Every lane sequence computes its reference value, for every N-bit numerator. */
  lemma LowerLaneCorrect(op: AluOp, n: Expr, raw: nat, fast: FastDiv, env: Env)
    requires IsDivOp(op) && ValidBitSize(BitSize(n))
    requires LaneParamsExact(op, BitSize(n), raw, fast)
    ensures Eval(LowerLane(op, n, raw, BitSize(n), fast), env) == LaneReference(op, BitSize(n), Eval(n, env), raw)
  {
    match op
    case Udiv => UdivLaneCorrect(n, raw, fast, env);
    case Umod => UmodLaneCorrect(n, raw, fast, env);
    case Idiv => IdivLaneCorrect(n, raw, fast, env);
  }

  // ---------------------------------------------------------------------
  // The replacement vector
  // ---------------------------------------------------------------------

  /** A division the rewrite applies to: a well-formed `udiv`, `idiv` or `umod` with a constant divisor. */
  ghost predicate HasConstDivisor(i: Instr) {
    i.Alu? && IsDivOp(i.op) && DivWellFormed(i) && i.srcs[1].konst.Some?
  }

  /** Lane `c`: numerator channel `src[0].swizzle[c]`, divisor lane `src[1].swizzle[c]`. */
  function LaneOf(i: Instr, c: nat, fast: FastDiv): (e: Expr)
    requires HasConstDivisor(i) && c < i.dest.numComponents
    ensures BitSize(e) == i.srcs[0].bitSize
  {
    var num, den := i.srcs[0], i.srcs[1];
    LowerLane(i.op, Chan(num.def, num.bitSize, num.swizzle[c]), den.konst.value[den.swizzle[c]], den.bitSize, fast)
  }

  /** The vector that replaces the division, defining the SSA value `newDef`. */
  function LowerInstr(i: Instr, newDef: nat, fast: FastDiv): Instr
    requires HasConstDivisor(i)
  {
    var nc := i.dest.numComponents;
    Vec(SsaDef(newDef, i.dest.bitSize, nc), seq(nc, c requires 0 <= c < nc => LaneOf(i, c, fast)))
  }

  /** The magic numbers every lane of the division uses divide exactly. */
  ghost predicate InstrParamsExact(i: Instr, fast: FastDiv)
    requires HasConstDivisor(i)
  {
    forall c :: 0 <= c < i.dest.numComponents ==>
      LaneParamsExact(i.op, i.srcs[1].bitSize, i.srcs[1].konst.value[i.srcs[1].swizzle[c]], fast)
  }

  /**
    The replacement has the division's bit size and component count, and
    component c computes the reference quotient or remainder of lane
    `src[0].swizzle[c]` of the numerator by lane `src[1].swizzle[c]` of the divisor.
   */
  lemma LowerInstrCorrect(i: Instr, newDef: nat, fast: FastDiv, env: Env)
    requires HasConstDivisor(i) && InstrParamsExact(i, fast)
    ensures var r := LowerInstr(i, newDef, fast);
            && r.Vec? && r.dest == SsaDef(newDef, i.dest.bitSize, i.dest.numComponents)
            && |r.comps| == i.dest.numComponents
            && forall c :: 0 <= c < |r.comps| ==>
                 var bits, raw := i.srcs[1].bitSize, i.srcs[1].konst.value[i.srcs[1].swizzle[c]];
                 Eval(r.comps[c], env)
                   == LaneReference(i.op, bits, Wrap(bits, Lane(env, i.srcs[0].def, i.srcs[0].swizzle[c])), raw)
  {
    var r := LowerInstr(i, newDef, fast);
    forall c | 0 <= c < |r.comps|
      ensures var bits, raw := i.srcs[1].bitSize, i.srcs[1].konst.value[i.srcs[1].swizzle[c]];
              Eval(r.comps[c], env)
                == LaneReference(i.op, bits, Wrap(bits, Lane(env, i.srcs[0].def, i.srcs[0].swizzle[c])), raw)
    {
      var num, den := i.srcs[0], i.srcs[1];
      var n := Chan(num.def, num.bitSize, num.swizzle[c]);
      assert r.comps[c] == LowerLane(i.op, n, den.konst.value[den.swizzle[c]], BitSize(n), fast);
      LowerLaneCorrect(i.op, n, den.konst.value[den.swizzle[c]], fast, env);
    }
  }

  // ---------------------------------------------------------------------
  // The builders do not look at which value the numerator names
  // ---------------------------------------------------------------------

  lemma RelabelUdivMagic(n: Expr, info: UdivInfo, m: Relabelling)
    ensures RelabelExpr(UdivMagic(n, info), m) == UdivMagic(RelabelExpr(n, m), info)
  {
    var n' := RelabelExpr(n, m);
    var bits := BitSize(n);
    var n1 := if info.preShift != 0 then Ushr(n, Imm(info.preShift, 32)) else n;
    var n1' := if info.preShift != 0 then Ushr(n', Imm(info.preShift, 32)) else n';
    assert RelabelExpr(n1, m) == n1';
    var n2 := UdivPrefix(n, info);
    var n2' := UdivPrefix(n', info);
    assert n2 == if info.increment != 0 then UaddSat(n1, Imm(info.increment, bits)) else n1;
    assert n2' == if info.increment != 0 then UaddSat(n1', Imm(info.increment, bits)) else n1';
    assert RelabelExpr(n2, m) == n2';
    var n3, n3' := UmulHigh(n2, Imm(info.multiplier, bits)), UmulHigh(n2', Imm(info.multiplier, bits));
    assert RelabelExpr(n3, m) == n3';
    assert RelabelExpr(UdivPostPart(n3, info.postShift), m) == UdivPostPart(n3', info.postShift);
  }

  lemma RelabelUdiv(n: Expr, d: nat, fast: FastDiv, m: Relabelling)
    ensures RelabelExpr(BuildUdiv(n, d, fast), m) == BuildUdiv(RelabelExpr(n, m), d, fast)
  {
    if d != 0 && !IsPowerOfTwoOrZero(d) {
      RelabelUdivMagic(n, fast.udivInfo(d, BitSize(n), BitSize(n)), m);
    }
  }

  lemma RelabelUmod(n: Expr, d: nat, fast: FastDiv, m: Relabelling)
    ensures RelabelExpr(BuildUmod(n, d, fast), m) == BuildUmod(RelabelExpr(n, m), d, fast)
  {
    if d != 0 && !IsPowerOfTwoOrZero(d) {
      RelabelUdiv(n, d, fast, m);
      RelabelSubMul(n, BuildUdiv(n, d, fast), d, m);
    }
  }

  lemma RelabelSubMul(n: Expr, q: Expr, d: nat, m: Relabelling)
    ensures RelabelExpr(Isub(n, Imul(q, Imm(d, BitSize(n)))), m)
            == Isub(RelabelExpr(n, m), Imul(RelabelExpr(q, m), Imm(d, BitSize(n))))
  {
    var k := Imm(d, BitSize(n));
    assert RelabelExpr(k, m) == k;
    assert RelabelExpr(Imul(q, k), m) == Imul(RelabelExpr(q, m), k);
  }

  lemma RelabelIdivPow2(n: Expr, d: int, m: Relabelling)
    requires d != 0
    ensures RelabelExpr(IdivPow2(n, d), m) == IdivPow2(RelabelExpr(n, m), d)
  {
    var n' := RelabelExpr(n, m);
    var k := Imm(Log2(Abs(d)), 32);
    var uq, uq' := Ushr(Iabs(n), k), Ushr(Iabs(n'), k);
    assert RelabelExpr(uq, m) == uq';
    var z := Imm(0, BitSize(n));
    var neg := if d < 0 then Inot(Ilt(n, z)) else Ilt(n, z);
    var neg' := if d < 0 then Inot(Ilt(n', z)) else Ilt(n', z);
    assert RelabelExpr(Ilt(n, z), m) == Ilt(n', z);
    assert RelabelExpr(neg, m) == neg';
    assert RelabelExpr(Ineg(uq), m) == Ineg(uq');
  }

  lemma RelabelHighPart(n: Expr, d: int, info: SdivInfo, m: Relabelling)
    ensures RelabelExpr(IdivHighPart(n, d, info), m) == IdivHighPart(RelabelExpr(n, m), d, info)
  {
    var n' := RelabelExpr(n, m);
    var bits := BitSize(n);
    var res1, res1' := ImulHigh(n, Imm(info.multiplier, bits)), ImulHigh(n', Imm(info.multiplier, bits));
    assert RelabelExpr(res1, m) == res1';
    var res2 := if d > 0 && info.multiplier < 0 then Iadd(res1, n) else res1;
    var res2' := if d > 0 && info.multiplier < 0 then Iadd(res1', n') else res1';
    assert RelabelExpr(res2, m) == res2';
    assert IdivHighPart(n, d, info) == if d < 0 && info.multiplier > 0 then Isub(res2, n) else res2;
    assert IdivHighPart(n', d, info) == if d < 0 && info.multiplier > 0 then Isub(res2', n') else res2';
  }

  lemma RelabelShiftPart(e: Expr, shift: nat, m: Relabelling)
    ensures RelabelExpr(IdivShiftPart(e, shift), m) == IdivShiftPart(RelabelExpr(e, m), shift)
  {
  }

  lemma RelabelRoundPart(e: Expr, m: Relabelling)
    ensures RelabelExpr(IdivRoundPart(e), m) == IdivRoundPart(RelabelExpr(e, m))
  {
    var e' := RelabelExpr(e, m);
    assert BitSize(e') == BitSize(e);
    var sign := Imm(BitSize(e) as int - 1, 32);
    assert RelabelExpr(Ushr(e, sign), m) == Ushr(e', sign);
  }

  lemma RelabelIdivMagic(n: Expr, d: int, info: SdivInfo, m: Relabelling)
    ensures RelabelExpr(IdivMagic(n, d, info), m) == IdivMagic(RelabelExpr(n, m), d, info)
  {
    var high := IdivHighPart(n, d, info);
    RelabelHighPart(n, d, info, m);
    RelabelShiftPart(high, info.shift, m);
    RelabelRoundPart(IdivShiftPart(high, info.shift), m);
  }

  lemma RelabelIdiv(n: Expr, d: int, fast: FastDiv, m: Relabelling)
    ensures RelabelExpr(BuildIdiv(n, d, fast), m) == BuildIdiv(RelabelExpr(n, m), d, fast)
  {
    var n' := RelabelExpr(n, m);
    if d == 0 || d == 1 || d == -1 {
      assert RelabelExpr(Ineg(n), m) == Ineg(n');
    } else if IsPowerOfTwoOrZero(Abs(d)) {
      assert BuildIdiv(n, d, fast) == IdivPow2(n, d);
      assert BuildIdiv(n', d, fast) == IdivPow2(n', d);
      RelabelIdivPow2(n, d, m);
    } else {
      var info := fast.sdivInfo(d, BitSize(n));
      assert BuildIdiv(n, d, fast) == IdivMagic(n, d, info);
      assert BuildIdiv(n', d, fast) == IdivMagic(n', d, info);
      RelabelIdivMagic(n, d, info, m);
    }
  }

  lemma RelabelLane(op: AluOp, n: Expr, raw: nat, bits: nat, fast: FastDiv, m: Relabelling)
    requires IsDivOp(op)
    ensures RelabelExpr(LowerLane(op, n, raw, bits, fast), m) == LowerLane(op, RelabelExpr(n, m), raw, bits, fast)
  {
    var d := DivisorValue(op, bits, raw);
    match op
    case Udiv => RelabelUdiv(n, Wrap(64, d), fast, m);
    case Idiv => RelabelIdiv(n, d, fast, m);
    case Umod => RelabelUmod(n, Wrap(64, d), fast, m);
  }

  /** Divisions that agree once erased are replaced by vectors that agree once erased. */
  lemma LowerInstrErase(i: Instr, j: Instr, newDef: nat, fast: FastDiv)
    requires HasConstDivisor(i) && HasConstDivisor(j) && Erase(i) == Erase(j)
    ensures Erase(LowerInstr(i, newDef, fast)) == Erase(LowerInstr(j, newDef, fast))
  {
    EraseKeepsAlu(i, j);
    var nc := i.dest.numComponents;
    forall c | 0 <= c < nc
      ensures RelabelExpr(LaneOf(i, c, fast), EraseAll) == RelabelExpr(LaneOf(j, c, fast), EraseAll)
    {
      var num, num', den := i.srcs[0], j.srcs[0], i.srcs[1];
      var raw := den.konst.value[den.swizzle[c]];
      RelabelLane(i.op, Chan(num.def, num.bitSize, num.swizzle[c]), raw, den.bitSize, fast, EraseAll);
      RelabelLane(i.op, Chan(num'.def, num'.bitSize, num'.swizzle[c]), raw, den.bitSize, fast, EraseAll);
    }
    assert Erase(LowerInstr(i, newDef, fast)).comps == Erase(LowerInstr(j, newDef, fast)).comps;
  }

  /** Relabelling the replacement is replacing the relabelled division. */
  lemma LowerInstrRelabel(i: Instr, newDef: nat, fast: FastDiv, m: Relabelling)
    requires HasConstDivisor(i)
    ensures HasConstDivisor(RelabelInstr(i, m))
    ensures RelabelInstr(LowerInstr(i, newDef, fast), m) == LowerInstr(RelabelInstr(i, m), newDef, fast)
  {
    var j := RelabelInstr(i, m);
    assert j.srcs[0].bitSize == i.srcs[0].bitSize && j.srcs[1].bitSize == i.srcs[1].bitSize;
    assert j.srcs[0].swizzle == i.srcs[0].swizzle && j.srcs[1].swizzle == i.srcs[1].swizzle;
    assert j.srcs[1].konst == i.srcs[1].konst;
    forall c | 0 <= c < i.dest.numComponents
      ensures RelabelExpr(LaneOf(i, c, fast), m) == LaneOf(j, c, fast)
    {
      var num, den := i.srcs[0], i.srcs[1];
      RelabelLane(i.op, Chan(num.def, num.bitSize, num.swizzle[c]), den.konst.value[den.swizzle[c]], den.bitSize, fast, m);
    }
    assert RelabelInstr(LowerInstr(i, newDef, fast), m).comps == LowerInstr(j, newDef, fast).comps;
  }

  /** Every value the replacement vector uses is the numerator of the division. */
  lemma LowerUses(i: Instr, newDef: nat, fast: FastDiv)
    requires HasConstDivisor(i)
    ensures forall u :: 0 <= u < |UsesOf(LowerInstr(i, newDef, fast))| ==> UsesOf(LowerInstr(i, newDef, fast))[u] == i.srcs[0].def
  {
    var v := LowerInstr(i, newDef, fast);
    forall u | 0 <= u < |UsesOf(v)|
      ensures UsesOf(v)[u] == i.srcs[0].def
    {
      var y := UsesOf(v)[u];
      if y != i.srcs[0].def {
        var m := Rewire(y, y + 1);
        var j := RelabelInstr(i, m);
        LowerInstrRelabel(i, newDef, fast, m);
        assert j.srcs[0] == i.srcs[0];
        assert LowerInstr(j, newDef, fast).comps == v.comps;
        UsesRelabel(v, m);
        assert false;
      }
    }
  }
}
