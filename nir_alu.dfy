/**
  The arithmetic the division-by-constant pass emits through the NIR builder,
  as an expression tree over one numerator lane, and its meaning on N-bit words.

  Every node has the bit size NIR gives it: that of its first operand, except
  immediates (their own size) and `ilt` (a 1-bit Boolean). A second operand is
  read at the node's bit size. Shift counts are masked with `bit_size - 1`, as
  NIR's `ushr` and `ishr` do.
 */
module NirAlu {
  import opened Arith
  import opened Bits

  datatype Expr =
    | Chan(def: nat, bits: nat, comp: nat)   // nir_channel: lane `comp` of SSA value `def`
    | Imm(value: int, bits: nat)             // nir_imm_intN_t (nir_imm_int when bits == 32)
    | Ushr(a: Expr, b: Expr)
    | Ishr(a: Expr, b: Expr)
    | UaddSat(a: Expr, b: Expr)
    | UmulHigh(a: Expr, b: Expr)
    | ImulHigh(a: Expr, b: Expr)
    | Iadd(a: Expr, b: Expr)
    | Isub(a: Expr, b: Expr)
    | Imul(a: Expr, b: Expr)
    | Iand(a: Expr, b: Expr)
    | Ineg(a: Expr)
    | Iabs(a: Expr)
    | Ilt(a: Expr, b: Expr)
    | Inot(a: Expr)
    | Bcsel(c: Expr, a: Expr, b: Expr)

  function BitSize(e: Expr): nat {
    match e
    case Chan(_, bits, _) => bits
    case Imm(_, bits) => bits
    case Ushr(a, _) => BitSize(a)
    case Ishr(a, _) => BitSize(a)
    case UaddSat(a, _) => BitSize(a)
    case UmulHigh(a, _) => BitSize(a)
    case ImulHigh(a, _) => BitSize(a)
    case Iadd(a, _) => BitSize(a)
    case Isub(a, _) => BitSize(a)
    case Imul(a, _) => BitSize(a)
    case Iand(a, _) => BitSize(a)
    case Ineg(a) => BitSize(a)
    case Iabs(a) => BitSize(a)
    case Ilt(_, _) => 1
    case Inot(a) => BitSize(a)
    case Bcsel(_, a, _) => BitSize(a)
  }

  /**
    The values the lowered code reads: `env[def][comp]` is lane `comp` of SSA
    value `def` (a lane the environment does not give reads as 0; only its low
    bits are read).
   */
  type Env = seq<seq<nat>>

  function Lane(env: Env, def: nat, comp: nat): nat {
    if def < |env| && comp < |env[def]| then env[def][comp] else 0
  }

  /** `src1 & (bit_size - 1)`: the shift count NIR's shifts actually use. */
  function ShiftCount(w: nat, s: nat): nat {
    if w == 0 then 0 else And(s, w - 1)
  }

  /**
    The N-bit word an expression computes; it always fits its bit size.
    `Eval` names the value, `EvalNode` selects the opcode and each opcode's
    meaning is a function of its own (`UshrValue`, `IsubValue`, ...), so that
    an expression is unfolded one opcode at a time, through the lemmas
    `UshrEval`, `IsubEval`, ... below.
   */
  function Eval(e: Expr, env: Env): (v: nat)
    ensures v < Pow2(BitSize(e))
    decreases e, 2
  {
    EvalNode(e, env)
  }

  function EvalNode(e: Expr, env: Env): (v: nat)
    ensures v < Pow2(BitSize(e))
    decreases e, 1
  {
    match e
    case Chan(def, bits, comp) => Wrap(bits, Lane(env, def, comp))
    case Imm(value, bits) => Wrap(bits, value)
    case Ushr(a, s) => UshrValue(a, s, env)
    case Ishr(a, s) => IshrValue(a, s, env)
    case UaddSat(a, b) => UaddSatValue(a, b, env)
    case UmulHigh(a, b) => UmulHighValue(a, b, env)
    case ImulHigh(a, b) => ImulHighValue(a, b, env)
    case Iadd(a, b) => IaddValue(a, b, env)
    case Isub(a, b) => IsubValue(a, b, env)
    case Imul(a, b) => ImulValue(a, b, env)
    case Iand(a, b) => IandValue(a, b, env)
    case Ineg(a) => InegValue(a, env)
    case Iabs(a) => IabsValue(a, env)
    case Ilt(a, b) => IltValue(a, b, env)
    case Inot(a) => InotValue(a, env)
    case Bcsel(c, a, b) => BcselValue(c, a, b, env)
  }

  /** `ushr`: logical right shift. */
  function UshrValue(a: Expr, s: Expr, env: Env): (v: nat)
    ensures v < Pow2(BitSize(a))
    decreases Ushr(a, s), 0
  {
    var x := Eval(a, env);
    var p := Pow2(ShiftCount(BitSize(a), Eval(s, env)));
    DivLe(x, p);
    x / p
  }

  /** `ishr`: arithmetic right shift (the floor of the signed value over 2^k). */
  function IshrValue(a: Expr, s: Expr, env: Env): (v: nat)
    ensures v < Pow2(BitSize(a))
    decreases Ishr(a, s), 0
  {
    var w := BitSize(a);
    Wrap(w, ToSigned(w, Eval(a, env)) / Pow2(ShiftCount(w, Eval(s, env))))
  }

  /** `uadd_sat`: unsigned addition clamped to the largest N-bit word. */
  function UaddSatValue(a: Expr, b: Expr, env: Env): (v: nat)
    ensures v < Pow2(BitSize(a))
    decreases UaddSat(a, b), 0
  {
    var w := BitSize(a);
    var x, y := Eval(a, env), Wrap(w, Eval(b, env));
    if x + y < Pow2(w) then x + y else Pow2(w) - 1
  }

  /** `umul_high`: the high N bits of the 2N-bit unsigned product. */
  function UmulHighValue(a: Expr, b: Expr, env: Env): (v: nat)
    ensures v < Pow2(BitSize(a))
    decreases UmulHigh(a, b), 0
  {
    var w := BitSize(a);
    var x, y := Eval(a, env), Wrap(w, Eval(b, env));
    MulHighBound(x, y, Pow2(w));
    (x * y) / Pow2(w)
  }

  /** `imul_high`: the high N bits of the 2N-bit signed product. */
  function ImulHighValue(a: Expr, b: Expr, env: Env): (v: nat)
    ensures v < Pow2(BitSize(a))
    decreases ImulHigh(a, b), 0
  {
    var w := BitSize(a);
    var x, y := Eval(a, env), Wrap(w, Eval(b, env));
    Wrap(w, (ToSigned(w, x) * ToSigned(w, y)) / Pow2(w))
  }

  /** `iadd`: addition modulo 2^N. */
  function IaddValue(a: Expr, b: Expr, env: Env): (v: nat)
    ensures v < Pow2(BitSize(a))
    decreases Iadd(a, b), 0
  {
    var w := BitSize(a);
    Wrap(w, Eval(a, env) + Wrap(w, Eval(b, env)))
  }

  /** `isub`: subtraction modulo 2^N. */
  function IsubValue(a: Expr, b: Expr, env: Env): (v: nat)
    ensures v < Pow2(BitSize(a))
    decreases Isub(a, b), 0
  {
    var w := BitSize(a);
    Wrap(w, Eval(a, env) - Wrap(w, Eval(b, env)))
  }

  /** `imul`: the low N bits of the product. */
  function ImulValue(a: Expr, b: Expr, env: Env): (v: nat)
    ensures v < Pow2(BitSize(a))
    decreases Imul(a, b), 0
  {
    var w := BitSize(a);
    Wrap(w, Eval(a, env) * Wrap(w, Eval(b, env)))
  }

  /** `iand`: bitwise AND. */
  function IandValue(a: Expr, b: Expr, env: Env): (v: nat)
    ensures v < Pow2(BitSize(a))
    decreases Iand(a, b), 0
  {
    And(Eval(a, env), Wrap(BitSize(a), Eval(b, env)))
  }

  /** `ineg`: negation modulo 2^N. */
  function InegValue(a: Expr, env: Env): (v: nat)
    ensures v < Pow2(BitSize(a))
    decreases Ineg(a), 0
  {
    Wrap(BitSize(a), -(Eval(a, env) as int))
  }

  /** `iabs`: the magnitude of the signed value, modulo 2^N. */
  function IabsValue(a: Expr, env: Env): (v: nat)
    ensures v < Pow2(BitSize(a))
    decreases Iabs(a), 0
  {
    var w := BitSize(a);
    Wrap(w, Abs(ToSigned(w, Eval(a, env))))
  }

  /** `ilt`: signed less-than, as a 1-bit Boolean. */
  function IltValue(a: Expr, b: Expr, env: Env): (v: nat)
    ensures v < 2
    decreases Ilt(a, b), 0
  {
    var w := BitSize(a);
    if ToSigned(w, Eval(a, env)) < ToSigned(w, Wrap(w, Eval(b, env))) then 1 else 0
  }

  /** `inot`: bitwise complement. */
  function InotValue(a: Expr, env: Env): (v: nat)
    ensures v < Pow2(BitSize(a))
    decreases Inot(a), 0
  {
    Pow2(BitSize(a)) - 1 - Eval(a, env)
  }

  /** `bcsel`: the second operand when the condition is non-zero, otherwise the third. */
  function BcselValue(c: Expr, a: Expr, b: Expr, env: Env): (v: nat)
    ensures v < Pow2(BitSize(a))
    decreases Bcsel(c, a, b), 0
  {
    if Eval(c, env) != 0 then Eval(a, env) else Wrap(BitSize(a), Eval(b, env))
  }

  // ---------------------------------------------------------------------
  // One opcode at a time
  // ---------------------------------------------------------------------

  lemma ImmEval(value: int, bits: nat, env: Env)
    ensures Eval(Imm(value, bits), env) == Wrap(bits, value)
  {
    assert Eval(Imm(value, bits), env) == EvalNode(Imm(value, bits), env);
  }

  lemma UshrEval(a: Expr, s: Expr, env: Env)
    ensures Eval(Ushr(a, s), env) ==
            Eval(a, env) / Pow2(ShiftCount(BitSize(a), Eval(s, env)))
  {
    assert Eval(Ushr(a, s), env) == UshrValue(a, s, env);
  }

  lemma IshrEval(a: Expr, s: Expr, env: Env)
    ensures Eval(Ishr(a, s), env) ==
            Wrap(BitSize(a), ToSigned(BitSize(a), Eval(a, env)) / Pow2(ShiftCount(BitSize(a), Eval(s, env))))
  {
    assert Eval(Ishr(a, s), env) == IshrValue(a, s, env);
  }

  lemma UaddSatEval(a: Expr, b: Expr, env: Env)
    ensures Eval(UaddSat(a, b), env) ==
            var w := BitSize(a);
            var x, y := Eval(a, env), Wrap(w, Eval(b, env));
            if x + y < Pow2(w) then x + y else Pow2(w) - 1
  {
    assert Eval(UaddSat(a, b), env) == UaddSatValue(a, b, env);
  }

  lemma UmulHighEval(a: Expr, b: Expr, env: Env)
    ensures Eval(UmulHigh(a, b), env) ==
            (Eval(a, env) * Wrap(BitSize(a), Eval(b, env))) / Pow2(BitSize(a))
  {
    assert Eval(UmulHigh(a, b), env) == UmulHighValue(a, b, env);
  }

  lemma ImulHighEval(a: Expr, b: Expr, env: Env)
    ensures Eval(ImulHigh(a, b), env) ==
            var w := BitSize(a);
            Wrap(w, (ToSigned(w, Eval(a, env)) * ToSigned(w, Wrap(w, Eval(b, env)))) / Pow2(w))
  {
    assert Eval(ImulHigh(a, b), env) == ImulHighValue(a, b, env);
  }

  lemma IaddEval(a: Expr, b: Expr, env: Env)
    ensures Eval(Iadd(a, b), env) ==
            Wrap(BitSize(a), Eval(a, env) + Wrap(BitSize(a), Eval(b, env)))
  {
    assert Eval(Iadd(a, b), env) == IaddValue(a, b, env);
  }

  lemma IsubEval(a: Expr, b: Expr, env: Env)
    ensures Eval(Isub(a, b), env) ==
            Wrap(BitSize(a), Eval(a, env) - Wrap(BitSize(a), Eval(b, env)))
  {
    assert Eval(Isub(a, b), env) == IsubValue(a, b, env);
  }

  lemma ImulEval(a: Expr, b: Expr, env: Env)
    ensures Eval(Imul(a, b), env) ==
            Wrap(BitSize(a), Eval(a, env) * Wrap(BitSize(a), Eval(b, env)))
  {
    assert Eval(Imul(a, b), env) == ImulValue(a, b, env);
  }

  lemma IandEval(a: Expr, b: Expr, env: Env)
    ensures Eval(Iand(a, b), env) ==
            And(Eval(a, env), Wrap(BitSize(a), Eval(b, env)))
  {
    assert Eval(Iand(a, b), env) == IandValue(a, b, env);
  }

  lemma InegEval(a: Expr, env: Env)
    ensures Eval(Ineg(a), env) ==
            Wrap(BitSize(a), -(Eval(a, env) as int))
  {
    assert Eval(Ineg(a), env) == InegValue(a, env);
  }

  lemma IabsEval(a: Expr, env: Env)
    ensures Eval(Iabs(a), env) ==
            Wrap(BitSize(a), Abs(ToSigned(BitSize(a), Eval(a, env))))
  {
    assert Eval(Iabs(a), env) == IabsValue(a, env);
  }

  lemma IltEval(a: Expr, b: Expr, env: Env)
    ensures Eval(Ilt(a, b), env) ==
            var w := BitSize(a);
            if ToSigned(w, Eval(a, env)) < ToSigned(w, Wrap(w, Eval(b, env))) then 1 else 0
  {
    assert Eval(Ilt(a, b), env) == IltValue(a, b, env);
  }

  lemma InotEval(a: Expr, env: Env)
    ensures Eval(Inot(a), env) ==
            Pow2(BitSize(a)) - 1 - Eval(a, env)
  {
    assert Eval(Inot(a), env) == InotValue(a, env);
  }

  lemma BcselEval(c: Expr, a: Expr, b: Expr, env: Env)
    ensures Eval(Bcsel(c, a, b), env) ==
            if Eval(c, env) != 0 then Eval(a, env) else Wrap(BitSize(a), Eval(b, env))
  {
    assert Eval(Bcsel(c, a, b), env) == BcselValue(c, a, b, env);
  }
}
