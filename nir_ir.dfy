/**
  As much of the NIR intermediate representation as the division-by-constant
  pass touches: ALU instructions with their sources, the vector the pass puts in
  place of a lowered division, and every other instruction as a list of the SSA
  values it uses. A function implementation is a sequence of blocks, each a
  sequence of instructions.

  SSA values are named by index. `RelabelInstr` changes the index a use names; it
  models `nir_ssa_def_rewrite_uses` (`Rewire(from, to)`) and, with `EraseAll`,
  gives the shape of an instruction regardless of which values it uses.
 */
module NirIr {
  import opened Bits
  import opened NirAlu

  datatype Option<T> = None | Some(value: T)

  datatype AluOp = Udiv | Idiv | Umod | OtherAlu(name: string)

  /** The three ALU opcodes the pass lowers. */
  predicate IsDivOp(op: AluOp) {
    op.Udiv? || op.Idiv? || op.Umod?
  }

  /** `nir_op_infos[op].input_types[1]` has base type `uint`: true of `udiv` and `umod`. */
  predicate DivisorIsUnsigned(op: AluOp) {
    op.Udiv? || op.Umod?
  }

  /** An SSA value: its index, bit size and number of components. */
  datatype SsaDef = SsaDef(index: nat, bitSize: nat, numComponents: nat)

  /**
    An ALU source: the SSA value it reads, that value's bit size, its constant
    lanes when the value is a `load_const` (each lane as the raw 64 bits of a
    `nir_const_value`), and the swizzle.
   */
  datatype AluSrc = AluSrc(def: nat, bitSize: nat, konst: Option<seq<nat>>, swizzle: seq<nat>)

  datatype Instr =
    | Alu(op: AluOp, dest: SsaDef, srcs: seq<AluSrc>)
    | Vec(dest: SsaDef, comps: seq<Expr>)       // nir_vec of one built expression per component
    | Other(kind: string, uses: seq<nat>)

  type Blocks = seq<seq<Instr>>

  /**
    What NIR validation guarantees of a `udiv`, `idiv` or `umod` that the pass
    relies on: two sources of the same valid bit size, at most four components
    (the size of `q[4]`), a swizzle entry for every component, and a constant
    lane for every swizzled divisor component.
   */
  ghost predicate DivWellFormed(i: Instr) {
    i.Alu? && IsDivOp(i.op) ==>
      && |i.srcs| == 2
      && i.dest.numComponents <= 4
      && i.dest.numComponents <= |i.srcs[0].swizzle|
      && i.dest.numComponents <= |i.srcs[1].swizzle|
      && ValidBitSize(i.srcs[1].bitSize)
      && i.srcs[0].bitSize == i.srcs[1].bitSize
      && i.dest.bitSize == i.srcs[0].bitSize
      && (i.srcs[1].konst.Some? ==>
            forall c :: 0 <= c < i.dest.numComponents ==> i.srcs[1].swizzle[c] < |i.srcs[1].konst.value|)
  }

  ghost predicate AllWellFormed(blocks: Blocks) {
    forall b, k :: 0 <= b < |blocks| && 0 <= k < |blocks[b]| ==> DivWellFormed(blocks[b][k])
  }

  /** Same number of blocks, and the same number of instructions in each. */
  predicate SameShape(a: Blocks, b: Blocks) {
    |a| == |b| && forall i :: 0 <= i < |a| ==> |a[i]| == |b[i]|
  }

  // ---------------------------------------------------------------------
  // Relabelling uses
  // ---------------------------------------------------------------------

  datatype Relabelling = Rewire(from: nat, to: nat) | EraseAll

  function Apply(m: Relabelling, k: nat): nat {
    match m
    case Rewire(from, to) => if k == from then to else k
    case EraseAll => 0
  }

  function RelabelExpr(e: Expr, m: Relabelling): (r: Expr)
    ensures BitSize(r) == BitSize(e)
  {
    match e
    case Chan(def, bits, comp) => Chan(Apply(m, def), bits, comp)
    case Imm(_, _) => e
    case Ushr(a, b) => Ushr(RelabelExpr(a, m), RelabelExpr(b, m))
    case Ishr(a, b) => Ishr(RelabelExpr(a, m), RelabelExpr(b, m))
    case UaddSat(a, b) => UaddSat(RelabelExpr(a, m), RelabelExpr(b, m))
    case UmulHigh(a, b) => UmulHigh(RelabelExpr(a, m), RelabelExpr(b, m))
    case ImulHigh(a, b) => ImulHigh(RelabelExpr(a, m), RelabelExpr(b, m))
    case Iadd(a, b) => Iadd(RelabelExpr(a, m), RelabelExpr(b, m))
    case Isub(a, b) => Isub(RelabelExpr(a, m), RelabelExpr(b, m))
    case Imul(a, b) => Imul(RelabelExpr(a, m), RelabelExpr(b, m))
    case Iand(a, b) => Iand(RelabelExpr(a, m), RelabelExpr(b, m))
    case Ineg(a) => Ineg(RelabelExpr(a, m))
    case Iabs(a) => Iabs(RelabelExpr(a, m))
    case Ilt(a, b) => Ilt(RelabelExpr(a, m), RelabelExpr(b, m))
    case Inot(a) => Inot(RelabelExpr(a, m))
    case Bcsel(c, a, b) => Bcsel(RelabelExpr(c, m), RelabelExpr(a, m), RelabelExpr(b, m))
  }

  function RelabelSrc(s: AluSrc, m: Relabelling): AluSrc {
    s.(def := Apply(m, s.def))
  }

  function RelabelInstr(i: Instr, m: Relabelling): (r: Instr)
    ensures r.Alu? == i.Alu? && r.Vec? == i.Vec?
    ensures i.Alu? ==> r.op == i.op && r.dest == i.dest && |r.srcs| == |i.srcs|
    ensures i.Alu? ==> forall s :: 0 <= s < |i.srcs| ==>
              r.srcs[s].bitSize == i.srcs[s].bitSize && r.srcs[s].konst == i.srcs[s].konst
              && r.srcs[s].swizzle == i.srcs[s].swizzle
    ensures i.Vec? ==> r.dest == i.dest && |r.comps| == |i.comps|
  {
    match i
    case Alu(op, dest, srcs) => Alu(op, dest, seq(|srcs|, s requires 0 <= s < |srcs| => RelabelSrc(srcs[s], m)))
    case Vec(dest, comps) => Vec(dest, seq(|comps|, c requires 0 <= c < |comps| => RelabelExpr(comps[c], m)))
    case Other(kind, uses) => Other(kind, seq(|uses|, u requires 0 <= u < |uses| => Apply(m, uses[u])))
  }

  /** The instruction with every use naming value 0: what stays when only the values used are ignored. */
  function Erase(i: Instr): Instr {
    RelabelInstr(i, EraseAll)
  }

  /**
    Relabelling uses changes no instruction's shape and keeps every instruction
    well formed; rewiring `from` to `to` makes every use of `from` name `to` and
    leaves every other use as it was.
   */
  function RelabelBlocks(blocks: Blocks, m: Relabelling): (r: Blocks)
    ensures SameShape(r, blocks)
    ensures forall b, k :: 0 <= b < |r| && 0 <= k < |r[b]| ==> Erase(r[b][k]) == Erase(blocks[b][k])
    ensures m.Rewire? ==> forall b, k :: 0 <= b < |r| && 0 <= k < |r[b]| ==> RewiredFrom(blocks[b][k], r[b][k], m.from, m.to)
    ensures AllWellFormed(blocks) ==> AllWellFormed(r)
  {
    var r := seq(|blocks|, b requires 0 <= b < |blocks| =>
               seq(|blocks[b]|, k requires 0 <= k < |blocks[b]| => RelabelInstr(blocks[b][k], m)));
    forall b, k | 0 <= b < |r| && 0 <= k < |r[b]|
      ensures Erase(r[b][k]) == Erase(blocks[b][k])
      ensures m.Rewire? ==> RewiredFrom(blocks[b][k], r[b][k], m.from, m.to)
    {
      EraseRelabel(blocks[b][k], m);
      if m.Rewire? {
        RelabelRewires(blocks[b][k], m.from, m.to);
      }
    }
    r
  }

  lemma {:induction false} EraseRelabelExpr(e: Expr, m: Relabelling)
    ensures RelabelExpr(RelabelExpr(e, m), EraseAll) == RelabelExpr(e, EraseAll)
  {
    match e
    case Chan(_, _, _) =>
    case Imm(_, _) =>
    case Ushr(a, b) => EraseRelabelExpr(a, m); EraseRelabelExpr(b, m);
    case Ishr(a, b) => EraseRelabelExpr(a, m); EraseRelabelExpr(b, m);
    case UaddSat(a, b) => EraseRelabelExpr(a, m); EraseRelabelExpr(b, m);
    case UmulHigh(a, b) => EraseRelabelExpr(a, m); EraseRelabelExpr(b, m);
    case ImulHigh(a, b) => EraseRelabelExpr(a, m); EraseRelabelExpr(b, m);
    case Iadd(a, b) => EraseRelabelExpr(a, m); EraseRelabelExpr(b, m);
    case Isub(a, b) => EraseRelabelExpr(a, m); EraseRelabelExpr(b, m);
    case Imul(a, b) => EraseRelabelExpr(a, m); EraseRelabelExpr(b, m);
    case Iand(a, b) => EraseRelabelExpr(a, m); EraseRelabelExpr(b, m);
    case Ineg(a) => EraseRelabelExpr(a, m);
    case Iabs(a) => EraseRelabelExpr(a, m);
    case Ilt(a, b) => EraseRelabelExpr(a, m); EraseRelabelExpr(b, m);
    case Inot(a) => EraseRelabelExpr(a, m);
    case Bcsel(c, a, b) => EraseRelabelExpr(c, m); EraseRelabelExpr(a, m); EraseRelabelExpr(b, m);
  }

  /** Erasing after relabelling is erasing. */
  lemma EraseRelabel(i: Instr, m: Relabelling)
    ensures Erase(RelabelInstr(i, m)) == Erase(i)
  {
    match i
    case Alu(op, dest, srcs) =>
      assert Erase(RelabelInstr(i, m)).srcs == Erase(i).srcs;
    case Vec(dest, comps) =>
      forall c | 0 <= c < |comps| {
        EraseRelabelExpr(comps[c], m);
      }
      assert Erase(RelabelInstr(i, m)).comps == Erase(i).comps;
    case Other(kind, uses) =>
      assert Erase(RelabelInstr(i, m)).uses == Erase(i).uses;
  }

  /** Instructions that agree once erased have the same opcode, destination and constant divisor. */
  lemma EraseKeepsAlu(i: Instr, j: Instr)
    requires Erase(i) == Erase(j)
    ensures i.Alu? == j.Alu? && i.Vec? == j.Vec?
    ensures i.Alu? ==> i.op == j.op && i.dest == j.dest && |i.srcs| == |j.srcs|
    ensures i.Alu? ==> forall s :: 0 <= s < |i.srcs| ==>
              i.srcs[s].bitSize == j.srcs[s].bitSize && i.srcs[s].konst == j.srcs[s].konst
              && i.srcs[s].swizzle == j.srcs[s].swizzle
    ensures i.Vec? ==> i.dest == j.dest
  {
    if i.Alu? {
      forall s | 0 <= s < |i.srcs|
        ensures i.srcs[s].bitSize == j.srcs[s].bitSize && i.srcs[s].konst == j.srcs[s].konst
                && i.srcs[s].swizzle == j.srcs[s].swizzle
      {
        assert Erase(i).srcs[s] == Erase(j).srcs[s];
      }
    }
  }

  // ---------------------------------------------------------------------
  // The values an instruction uses
  // ---------------------------------------------------------------------

  /** The SSA values an expression reads, one entry per `nir_channel`, left to right. */
  function ExprUses(e: Expr): seq<nat> {
    match e
    case Chan(def, _, _) => [def]
    case Imm(_, _) => []
    case Ushr(a, b) => ExprUses(a) + ExprUses(b)
    case Ishr(a, b) => ExprUses(a) + ExprUses(b)
    case UaddSat(a, b) => ExprUses(a) + ExprUses(b)
    case UmulHigh(a, b) => ExprUses(a) + ExprUses(b)
    case ImulHigh(a, b) => ExprUses(a) + ExprUses(b)
    case Iadd(a, b) => ExprUses(a) + ExprUses(b)
    case Isub(a, b) => ExprUses(a) + ExprUses(b)
    case Imul(a, b) => ExprUses(a) + ExprUses(b)
    case Iand(a, b) => ExprUses(a) + ExprUses(b)
    case Ineg(a) => ExprUses(a)
    case Iabs(a) => ExprUses(a)
    case Ilt(a, b) => ExprUses(a) + ExprUses(b)
    case Inot(a) => ExprUses(a)
    case Bcsel(c, a, b) => ExprUses(c) + ExprUses(a) + ExprUses(b)
  }

  /** The uses of the components of `cs` from the `i`-th on, component after component. */
  function CompsUses(cs: seq<Expr>, i: nat): seq<nat>
    requires i <= |cs|
    decreases |cs| - i
  {
    if i == |cs| then [] else ExprUses(cs[i]) + CompsUses(cs, i + 1)
  }

  /**
    Every use of an SSA value an instruction makes, in a fixed order: the value
    each ALU source reads, the channels of each built component of a vector, or
    the values another instruction uses.
   */
  function UsesOf(i: Instr): seq<nat> {
    match i
    case Alu(_, _, srcs) => seq(|srcs|, s requires 0 <= s < |srcs| => srcs[s].def)
    case Vec(_, comps) => CompsUses(comps, 0)
    case Other(_, uses) => uses
  }

  /** `t` is `s` with each use relabelled by `m`. */
  predicate Mapped(m: Relabelling, s: seq<nat>, t: seq<nat>) {
    |t| == |s| && forall j :: 0 <= j < |s| ==> t[j] == Apply(m, s[j])
  }

  /**
    `r` is `i` with its uses of `from` rewired to `to`: the same instruction up to
    the values it uses, every use of `from` now naming `to`, every other use as it
    was (by `ShapeAndUses`, this pins `r` down completely).
   */
  ghost predicate RewiredFrom(i: Instr, r: Instr, from: nat, to: nat) {
    && Erase(r) == Erase(i)
    && |UsesOf(r)| == |UsesOf(i)|
    && forall u :: 0 <= u < |UsesOf(i)| ==> UsesOf(r)[u] == (if UsesOf(i)[u] == from then to else UsesOf(i)[u])
  }

  lemma MappedConcat(m: Relabelling, s1: seq<nat>, t1: seq<nat>, s2: seq<nat>, t2: seq<nat>)
    requires Mapped(m, s1, t1) && Mapped(m, s2, t2)
    ensures Mapped(m, s1 + s2, t1 + t2)
  {
    forall j | 0 <= j < |s1 + s2|
      ensures (t1 + t2)[j] == Apply(m, (s1 + s2)[j])
    {
      if j >= |s1| {
        assert (t1 + t2)[j] == t2[j - |s1|] && (s1 + s2)[j] == s2[j - |s1|];
      }
    }
  }

  /** Relabelling an expression relabels each of its uses, in place. */
  lemma {:induction false} ExprUsesRelabel(e: Expr, m: Relabelling)
    ensures Mapped(m, ExprUses(e), ExprUses(RelabelExpr(e, m)))
  {
    match e
    case Chan(_, _, _) =>
    case Imm(_, _) =>
    case Ushr(a, b) => ExprUsesRelabel(a, m); ExprUsesRelabel(b, m); MappedConcat(m, ExprUses(a), ExprUses(RelabelExpr(a, m)), ExprUses(b), ExprUses(RelabelExpr(b, m)));
    case Ishr(a, b) => ExprUsesRelabel(a, m); ExprUsesRelabel(b, m); MappedConcat(m, ExprUses(a), ExprUses(RelabelExpr(a, m)), ExprUses(b), ExprUses(RelabelExpr(b, m)));
    case UaddSat(a, b) => ExprUsesRelabel(a, m); ExprUsesRelabel(b, m); MappedConcat(m, ExprUses(a), ExprUses(RelabelExpr(a, m)), ExprUses(b), ExprUses(RelabelExpr(b, m)));
    case UmulHigh(a, b) => ExprUsesRelabel(a, m); ExprUsesRelabel(b, m); MappedConcat(m, ExprUses(a), ExprUses(RelabelExpr(a, m)), ExprUses(b), ExprUses(RelabelExpr(b, m)));
    case ImulHigh(a, b) => ExprUsesRelabel(a, m); ExprUsesRelabel(b, m); MappedConcat(m, ExprUses(a), ExprUses(RelabelExpr(a, m)), ExprUses(b), ExprUses(RelabelExpr(b, m)));
    case Iadd(a, b) => ExprUsesRelabel(a, m); ExprUsesRelabel(b, m); MappedConcat(m, ExprUses(a), ExprUses(RelabelExpr(a, m)), ExprUses(b), ExprUses(RelabelExpr(b, m)));
    case Isub(a, b) => ExprUsesRelabel(a, m); ExprUsesRelabel(b, m); MappedConcat(m, ExprUses(a), ExprUses(RelabelExpr(a, m)), ExprUses(b), ExprUses(RelabelExpr(b, m)));
    case Imul(a, b) => ExprUsesRelabel(a, m); ExprUsesRelabel(b, m); MappedConcat(m, ExprUses(a), ExprUses(RelabelExpr(a, m)), ExprUses(b), ExprUses(RelabelExpr(b, m)));
    case Iand(a, b) => ExprUsesRelabel(a, m); ExprUsesRelabel(b, m); MappedConcat(m, ExprUses(a), ExprUses(RelabelExpr(a, m)), ExprUses(b), ExprUses(RelabelExpr(b, m)));
    case Ineg(a) => ExprUsesRelabel(a, m);
    case Iabs(a) => ExprUsesRelabel(a, m);
    case Ilt(a, b) => ExprUsesRelabel(a, m); ExprUsesRelabel(b, m); MappedConcat(m, ExprUses(a), ExprUses(RelabelExpr(a, m)), ExprUses(b), ExprUses(RelabelExpr(b, m)));
    case Inot(a) => ExprUsesRelabel(a, m);
    case Bcsel(c, a, b) =>
      ExprUsesRelabel(c, m); ExprUsesRelabel(a, m); ExprUsesRelabel(b, m);
      MappedConcat(m, ExprUses(c), ExprUses(RelabelExpr(c, m)), ExprUses(a), ExprUses(RelabelExpr(a, m)));
      MappedConcat(m, ExprUses(c) + ExprUses(a), ExprUses(RelabelExpr(c, m)) + ExprUses(RelabelExpr(a, m)), ExprUses(b), ExprUses(RelabelExpr(b, m)));
  }

  /** Relabelling every component relabels the uses of the components, in place. */
  lemma {:induction false} CompsUsesRelabel(cs: seq<Expr>, rs: seq<Expr>, m: Relabelling, i: nat)
    requires i <= |rs| == |cs| && forall c :: 0 <= c < |cs| ==> rs[c] == RelabelExpr(cs[c], m)
    ensures Mapped(m, CompsUses(cs, i), CompsUses(rs, i))
    decreases |cs| - i
  {
    if i < |cs| {
      CompsUsesRelabel(cs, rs, m, i + 1);
      ExprUsesRelabel(cs[i], m);
      MappedConcat(m, ExprUses(cs[i]), ExprUses(rs[i]), CompsUses(cs, i + 1), CompsUses(rs, i + 1));
    }
  }

  /** Relabelling an instruction relabels each of its uses, in place. */
  lemma UsesRelabel(i: Instr, m: Relabelling)
    ensures Mapped(m, UsesOf(i), UsesOf(RelabelInstr(i, m)))
  {
    match i
    case Alu(_, _, _) =>
    case Vec(_, comps) => CompsUsesRelabel(comps, RelabelInstr(i, m).comps, m, 0);
    case Other(_, _) =>
  }

  lemma RelabelRewires(i: Instr, from: nat, to: nat)
    ensures RewiredFrom(i, RelabelInstr(i, Rewire(from, to)), from, to)
  {
    EraseRelabel(i, Rewire(from, to));
    UsesRelabel(i, Rewire(from, to));
  }

  /** Instructions that agree once erased make the same number of uses. */
  lemma UsesLength(i: Instr, j: Instr)
    requires Erase(i) == Erase(j)
    ensures |UsesOf(i)| == |UsesOf(j)|
  {
    UsesRelabel(i, EraseAll);
    UsesRelabel(j, EraseAll);
  }

  // ---------------------------------------------------------------------
  // An instruction is its shape and its uses
  // ---------------------------------------------------------------------

  lemma SplitSeq(x1: seq<nat>, x2: seq<nat>, y1: seq<nat>, y2: seq<nat>)
    requires |x1| == |y1| && x1 + x2 == y1 + y2
    ensures x1 == y1 && x2 == y2
  {
    assert x1 == (x1 + x2)[..|x1|] && y1 == (y1 + y2)[..|y1|];
    assert x2 == (x1 + x2)[|x1|..] && y2 == (y1 + y2)[|y1|..];
  }

  lemma ExprUsesLength(a: Expr, b: Expr)
    requires RelabelExpr(a, EraseAll) == RelabelExpr(b, EraseAll)
    ensures |ExprUses(a)| == |ExprUses(b)|
  {
    ExprUsesRelabel(a, EraseAll);
    ExprUsesRelabel(b, EraseAll);
  }

  /** The uses of a binary node, split at the first operand's. */
  lemma SplitBinary(a1: Expr, a2: Expr, b1: Expr, b2: Expr)
    requires RelabelExpr(a1, EraseAll) == RelabelExpr(b1, EraseAll)
    requires ExprUses(a1) + ExprUses(a2) == ExprUses(b1) + ExprUses(b2)
    ensures ExprUses(a1) == ExprUses(b1) && ExprUses(a2) == ExprUses(b2)
  {
    ExprUsesLength(a1, b1);
    SplitSeq(ExprUses(a1), ExprUses(a2), ExprUses(b1), ExprUses(b2));
  }

  /** Expressions that agree once erased and read the same values, in order, are equal. */
  lemma {:induction false} ExprShapeAndUses(a: Expr, b: Expr)
    requires RelabelExpr(a, EraseAll) == RelabelExpr(b, EraseAll) && ExprUses(a) == ExprUses(b)
    ensures a == b
  {
    match a
    case Chan(_, _, _) =>
    case Imm(_, _) =>
    case Ushr(a1, a2) =>
      var Ushr(b1, b2) := b;
      SplitBinary(a1, a2, b1, b2);
      ExprShapeAndUses(a1, b1);
      ExprShapeAndUses(a2, b2);
    case Ishr(a1, a2) =>
      var Ishr(b1, b2) := b;
      SplitBinary(a1, a2, b1, b2);
      ExprShapeAndUses(a1, b1);
      ExprShapeAndUses(a2, b2);
    case UaddSat(a1, a2) =>
      var UaddSat(b1, b2) := b;
      SplitBinary(a1, a2, b1, b2);
      ExprShapeAndUses(a1, b1);
      ExprShapeAndUses(a2, b2);
    case UmulHigh(a1, a2) =>
      var UmulHigh(b1, b2) := b;
      SplitBinary(a1, a2, b1, b2);
      ExprShapeAndUses(a1, b1);
      ExprShapeAndUses(a2, b2);
    case ImulHigh(a1, a2) =>
      var ImulHigh(b1, b2) := b;
      SplitBinary(a1, a2, b1, b2);
      ExprShapeAndUses(a1, b1);
      ExprShapeAndUses(a2, b2);
    case Iadd(a1, a2) =>
      var Iadd(b1, b2) := b;
      SplitBinary(a1, a2, b1, b2);
      ExprShapeAndUses(a1, b1);
      ExprShapeAndUses(a2, b2);
    case Isub(a1, a2) =>
      var Isub(b1, b2) := b;
      SplitBinary(a1, a2, b1, b2);
      ExprShapeAndUses(a1, b1);
      ExprShapeAndUses(a2, b2);
    case Imul(a1, a2) =>
      var Imul(b1, b2) := b;
      SplitBinary(a1, a2, b1, b2);
      ExprShapeAndUses(a1, b1);
      ExprShapeAndUses(a2, b2);
    case Iand(a1, a2) =>
      var Iand(b1, b2) := b;
      SplitBinary(a1, a2, b1, b2);
      ExprShapeAndUses(a1, b1);
      ExprShapeAndUses(a2, b2);
    case Ilt(a1, a2) =>
      var Ilt(b1, b2) := b;
      SplitBinary(a1, a2, b1, b2);
      ExprShapeAndUses(a1, b1);
      ExprShapeAndUses(a2, b2);
    case Ineg(a1) =>
      var Ineg(b1) := b;
      ExprShapeAndUses(a1, b1);
    case Iabs(a1) =>
      var Iabs(b1) := b;
      ExprShapeAndUses(a1, b1);
    case Inot(a1) =>
      var Inot(b1) := b;
      ExprShapeAndUses(a1, b1);
    case Bcsel(a0, a1, a2) =>
      var Bcsel(b0, b1, b2) := b;
      ExprUsesLength(a0, b0);
      ExprUsesLength(a1, b1);
      SplitSeq(ExprUses(a0) + ExprUses(a1), ExprUses(a2), ExprUses(b0) + ExprUses(b1), ExprUses(b2));
      SplitSeq(ExprUses(a0), ExprUses(a1), ExprUses(b0), ExprUses(b1));
      ExprShapeAndUses(a0, b0);
      ExprShapeAndUses(a1, b1);
      ExprShapeAndUses(a2, b2);
  }

  /** Components that agree once erased and make the same uses from the `i`-th on are the same from there. */
  lemma {:induction false} CompsShapeAndUses(cs: seq<Expr>, ds: seq<Expr>, i: nat)
    requires i <= |cs| == |ds| && forall c :: 0 <= c < |cs| ==> RelabelExpr(cs[c], EraseAll) == RelabelExpr(ds[c], EraseAll)
    requires CompsUses(cs, i) == CompsUses(ds, i)
    ensures forall c :: i <= c < |cs| ==> cs[c] == ds[c]
    decreases |cs| - i
  {
    if i < |cs| {
      ExprUsesLength(cs[i], ds[i]);
      SplitSeq(ExprUses(cs[i]), CompsUses(cs, i + 1), ExprUses(ds[i]), CompsUses(ds, i + 1));
      ExprShapeAndUses(cs[i], ds[i]);
      CompsShapeAndUses(cs, ds, i + 1);
    }
  }

  /** Instructions that agree once erased and use the same values, in order, are equal. */
  lemma ShapeAndUses(i: Instr, j: Instr)
    requires Erase(i) == Erase(j) && UsesOf(i) == UsesOf(j)
    ensures i == j
  {
    match i
    case Alu(_, _, srcs) =>
      assert forall s :: 0 <= s < |srcs| ==> Erase(i).srcs[s] == Erase(j).srcs[s] && UsesOf(i)[s] == UsesOf(j)[s];
      assert srcs == j.srcs;
    case Vec(_, comps) =>
      forall c | 0 <= c < |comps|
        ensures RelabelExpr(comps[c], EraseAll) == RelabelExpr(j.comps[c], EraseAll)
      {
        assert Erase(i).comps[c] == Erase(j).comps[c];
      }
      CompsShapeAndUses(comps, j.comps, 0);
      assert comps == j.comps;
    case Other(_, _) =>
  }

  // ---------------------------------------------------------------------
  // SSA form
  // ---------------------------------------------------------------------

  /** ALU instructions and vectors define an SSA value; every other instruction is modelled by its uses alone. */
  predicate Defines(i: Instr) {
    i.Alu? || i.Vec?
  }

  /** Every value `i` uses is numbered below `alloc`, and none is the value `i` defines itself. */
  predicate UsesValid(i: Instr, alloc: nat) {
    forall u :: 0 <= u < |UsesOf(i)| ==> UsesOf(i)[u] < alloc && (Defines(i) ==> UsesOf(i)[u] != i.dest.index)
  }

  /** Every value defined in `blocks` is numbered below `alloc`. */
  predicate DefsBelow(blocks: Blocks, alloc: nat) {
    forall b, k :: 0 <= b < |blocks| && 0 <= k < |blocks[b]| && Defines(blocks[b][k]) ==> blocks[b][k].dest.index < alloc
  }

  /** No two instructions define the same value. */
  predicate DefsUnique(blocks: Blocks) {
    forall b, k, b2, k2 ::
      && 0 <= b < |blocks| && 0 <= k < |blocks[b]| && 0 <= b2 < |blocks| && 0 <= k2 < |blocks[b2]|
      && (b != b2 || k != k2) && Defines(blocks[b][k]) && Defines(blocks[b2][k2])
      ==> blocks[b][k].dest.index != blocks[b2][k2].dest.index
  }

  /**
    The SSA facts the pass relies on and keeps, `alloc` being the next free
    index (`impl->ssa_alloc`): values are defined once, below `alloc`, and every
    use names a value below `alloc` other than the user's own.
   */
  predicate SsaValid(blocks: Blocks, alloc: nat) {
    && DefsBelow(blocks, alloc)
    && DefsUnique(blocks)
    && forall b, k :: 0 <= b < |blocks| && 0 <= k < |blocks[b]| ==> UsesValid(blocks[b][k], alloc)
  }
}
