# Integer division by a constant (`nir_opt_idiv_const`), modelled in Dafny

This project models Mesa's NIR pass `nir_opt_idiv_const`
(`src/compiler/nir/nir_opt_idiv_const.c`). The pass finds integer `udiv`,
`idiv` and `umod` ALU instructions whose divisor is a compile-time constant, and
replaces each one with a short sequence of shifts, multiplies, adds and masks.
The project proves that each emitted sequence computes the quotient or remainder
for every N-bit numerator. It also proves what the drivers do to the IR.

How the model is arranged:

- **The emitted code** (`nir_alu.dfy`, module `NirAlu`) is an expression tree,
  `Expr`. It has one constructor per NIR builder call the pass makes:
  `nir_channel`, `nir_imm_intN_t`, `ushr`, `ishr`, `uadd_sat`, `umul_high`,
  `imul_high`, `iadd`, `isub`, `imul`, `iand`, `ineg`, `iabs`, `ilt`, `inot` and
  `bcsel`.
  - `Eval` gives an expression's value as an N-bit word: a natural number below 2^N.
  - Signed values are read in two's complement (`Bits.ToSigned`).
  - Wrap-around is explicit (`Bits.Wrap`), and shift counts are masked with
    `bit_size - 1`.
  - The lanes the code reads come from an environment `Env`: `env[def][comp]` is
    lane `comp` of SSA value `def`.
  - Each opcode's meaning is its own function, so proofs unfold one node at a
    time.
- **The sequence builders** `build_udiv`, `build_umod` and `build_idiv`
  (`idiv_const.dfy`, module `IdivConst`) are functions from the numerator
  expression and the constant to the emitted expression.
  - `BuildUdivCorrect`, `BuildUmodCorrect` and `BuildIdivCorrect` state that
    the result is n / d, n mod d, or n / d rounded toward zero in two's
    complement.
  - `UdivEmissionOrder` and `IdivEmissionOrder` state the order in which the
    general cases emit their operations.
- **The magic numbers** come from `util_compute_fast_udiv_info` and
  `util_compute_fast_sdiv_info`. The model takes them from an oracle, `FastDiv`
  (`fast_div.dfy`).
  - The general cases are proved correct whenever the oracle's parameters are
    exact (`UdivExact`, `SdivExact`).
  - `RoundUpExact`, `RoundDownExact` and `SdivMagicExact` prove that the
    Granlund–Montgomery conditions make them exact. The reference is "Division
    by Invariant Integers using Multiplication", 1994.
- **One instruction** (`idiv_lower.dfy`, module `IdivLower`): `LowerLane` builds
  one lane. `LowerInstr` builds the vector that replaces a division.
  `LowerInstrCorrect` states what each of its components computes:
  - the numerator lane is `src[0].swizzle[c]`;
  - the divisor is lane `src[1].swizzle[c]` of the constant;
  - that divisor is sign-extended from its bit size, then masked back to it when
    the opcode's divisor is unsigned.
- **The drivers** (`idiv_pass.dfy`, module `IdivPass`):
  - `Impl` is a class for a `nir_function_impl`. Its fields are the blocks, the
    next free SSA index and the set of valid metadata.
  - `OptInstr`, `OptBlock` and `OptImpl` are the imperative
    `nir_opt_idiv_const_instr` and `nir_opt_idiv_const_impl`. `BuildVec` has the
    loop that fills `q[4]`. `OptIdivConst` is `nir_opt_idiv_const` over a
    sequence of functions.
  - Each method is proved to compute the reference walk, given by the functions
    `VisitInstr`, `WalkBlock`, `WalkBlocks` and `RunImpl`.
  - The lemmas about the walk state which instructions are replaced and that
    every other instruction only has its uses rewired. They also state what
    progress reports, and that a second run changes nothing.
- **The IR** (`nir_ir.dfy`, module `NirIr`) is a sequence of blocks of
  instructions.
  - An instruction is an ALU instruction, a `Vec` holding one built expression
    per component, or any other instruction with the SSA values it uses.
  - Rewriting uses relabels SSA indices (`RelabelBlocks`).
  - `SsaValid` states SSA form: each value is defined once, below the
    counter `ssa_alloc`, and each use names a value below the counter other
    than the user's own.
  - In `IdivPass`, `NewName` maps a value to the name it is known by after a
    stretch of the walk: a replaced division's value becomes its vector's.
    `Renamed` states that every use after the stretch is the use before
    (or in the lowering) renamed this way.
- `arith.dfy` and `bits.dfy` hold the integer and bit-level facts the proofs
  use: division bounds, powers of two, wrap-around, two's complement, and the
  AND with a low mask. `bits.dfy` also has the two helpers from `util/u_math.h`:
  the power-of-two test and the base-2 logarithm.

## Model

| member | source | states |
|---|---|---|
| IdivConst.BuildUdiv | src/compiler/nir/nir_opt_idiv_const.c:29-50 | the sequence `build_udiv` emits has the numerator's bit size |
| IdivConst.BuildUdivCorrect | src/compiler/nir/nir_opt_idiv_const.c:29-50 | for every N-bit n: a zero divisor gives the constant 0; otherwise the result is floor(n / d), for powers of two and for exact magic parameters |
| IdivConst.UdivPow2Eval | src/compiler/nir/nir_opt_idiv_const.c:34-35 | for a power of two d, `ushr(n, log2 d)` equals n / d for every N-bit n (d = 1 shifts by 0) |
| IdivConst.UdivMagicEval | src/compiler/nir/nir_opt_idiv_const.c:37-48 | the general unsigned sequence computes floor(sat(floor(n / 2^pre) + inc) * mult / 2^(N + post)) |
| IdivConst.UdivPrefixEval | src/compiler/nir/nir_opt_idiv_const.c:40-43 | the optional pre-shift and the optional saturating increment give floor(n / 2^pre) + inc, clamped to 2^N - 1 |
| IdivConst.UdivPostEval | src/compiler/nir/nir_opt_idiv_const.c:45-46 | the optional post-shift divides by 2^post |
| IdivConst.UdivEmissionOrder | src/compiler/nir/nir_opt_idiv_const.c:40-46 | the general unsigned case applies, in this order: `ushr` only for a non-zero pre-shift, `uadd_sat` only for a non-zero increment, `umul_high`, then `ushr` only for a non-zero post-shift |
| IdivConst.BuildUmod | src/compiler/nir/nir_opt_idiv_const.c:52-63 | the sequence `build_umod` emits has the numerator's bit size |
| IdivConst.BuildUmodCorrect | src/compiler/nir/nir_opt_idiv_const.c:52-63 | for every N-bit n: a zero divisor gives the constant 0; otherwise the result is n mod d, for powers of two and for exact magic parameters |
| IdivConst.BuildUmodPow2 | src/compiler/nir/nir_opt_idiv_const.c:57-58 | for a power-of-two d, `iand(n, d - 1)` is n mod d |
| IdivConst.UmodPow2Eval | src/compiler/nir/nir_opt_idiv_const.c:58 | the mask d - 1 at the numerator's bit size keeps exactly n mod d |
| IdivConst.BuildUmodMagic | src/compiler/nir/nir_opt_idiv_const.c:59-61 | otherwise, with exact `udiv` parameters, n - udiv(n, d) * d modulo 2^N is n mod d |
| IdivConst.UmodByQuotientEval | src/compiler/nir/nir_opt_idiv_const.c:60-61 | `isub(n, imul(q, d))` is n mod d whenever q evaluates to n / d |
| IdivConst.BuildIdiv | src/compiler/nir/nir_opt_idiv_const.c:65-98 | the sequence `build_idiv` emits has the numerator's bit size |
| IdivConst.BuildIdivCorrect | src/compiler/nir/nir_opt_idiv_const.c:65-98 | for every N-bit n and in-range d: 0 for d = 0; otherwise the two's-complement wrap of n / d rounded toward zero |
| IdivConst.BuildIdivUnit | src/compiler/nir/nir_opt_idiv_const.c:70-75 | d = 0 gives the constant 0, d = 1 returns n unchanged, and d = -1 gives the wrapping negation of n |
| IdivConst.InegSignedEval | src/compiler/nir/nir_opt_idiv_const.c:75 | `ineg(n)` is -n, read as signed and wrapped to N bits |
| IdivConst.IdivPow2Correct | src/compiler/nir/nir_opt_idiv_const.c:76-81 | when \|d\| passes the power-of-two test, the shift sequence rounds n / d toward zero for every n, the most negative n included |
| IdivConst.IdivPow2Eval | src/compiler/nir/nir_opt_idiv_const.c:76-81 | `bcsel(neg, ineg(uq), uq)` with uq = `ushr(iabs(n), log2 \|d\|)` is the truncating quotient |
| IdivConst.AbsShiftEval | src/compiler/nir/nir_opt_idiv_const.c:77-78 | `ushr(iabs(n), k)` is \|n\| / 2^k for every signed n, including the most negative, whose `iabs` wraps |
| IdivConst.IsNegativeEval | src/compiler/nir/nir_opt_idiv_const.c:79 | `ilt(n, 0)` is 1 exactly when n is negative |
| IdivConst.SelectEval | src/compiler/nir/nir_opt_idiv_const.c:79-81 | the select negates the magnitude quotient exactly when the signs of n and d differ |
| IdivConst.IdivPow2Select | src/compiler/nir/nir_opt_idiv_const.c:79-81 | given the shifted magnitude, the select and negation give the quotient rounded toward zero |
| IdivConst.IdivMagicEval | src/compiler/nir/nir_opt_idiv_const.c:83-96 | the general signed sequence computes r = floor(n * M / 2^(N + shift)) plus 1 if r < 0, wrapped. M is the multiplier with the `+ n` / `- n` correction folded in |
| IdivConst.IdivMagicExact | src/compiler/nir/nir_opt_idiv_const.c:83-96 | with exact signed parameters, the general sequence rounds n / d toward zero |
| IdivConst.IdivHighEval | src/compiler/nir/nir_opt_idiv_const.c:86-91 | `imul_high` followed by the conditional `iadd` / `isub` of n is the high half of n * M |
| IdivConst.ShiftStepEval | src/compiler/nir/nir_opt_idiv_const.c:92-93 | the optional `ishr` by the shift divides the high half by 2^shift, rounding down |
| IdivConst.SignBit | src/compiler/nir/nir_opt_idiv_const.c:94 | `ushr(r, N - 1)` of a signed N-bit r is 1 exactly when r is negative (a logical shift, not a sign mask) |
| IdivConst.RoundStepEval | src/compiler/nir/nir_opt_idiv_const.c:94 | the final `iadd(res, ushr(res, N - 1))` adds 1 exactly to negative values |
| IdivConst.IdivEmissionOrder | src/compiler/nir/nir_opt_idiv_const.c:86-94 | the general signed case applies, in this order: `imul_high`, `iadd` of n only when d > 0 and the multiplier is negative, `isub` of n only when d < 0 and it is positive, `ishr` only for a non-zero shift, then the final `iadd` |
| FastDiv.RoundUpExact | src/compiler/nir/nir_opt_idiv_const.c:37-48 | parameters meeting the round-up condition are exact: d = 2^pre * d', no increment, mult * d' = 2^(N+post) + e with e * 2^(N-pre) <= 2^(N+post) |
| FastDiv.RoundDownExact | src/compiler/nir/nir_opt_idiv_const.c:37-48 | parameters meeting the round-down condition are exact, including the input 2^N - 1 where `uadd_sat` saturates: no pre-shift, increment 1, mult * d = 2^(N+post) - e with 0 < e and e * 2^N <= 2^(N+post), and 2^N - 1 not a multiple of d |
| FastDiv.SdivMagicExact | src/compiler/nir/nir_opt_idiv_const.c:83-96 | signed parameters with \|M\| * \|d\| = 2^(N+shift) + e, 0 < e, e * 2^(N-1) < 2^(N+shift) round every signed N-bit n / d toward zero |
| IdivLower.UnsignedDivisor | src/compiler/nir/nir_opt_idiv_const.c:139-147 | for `udiv` and `umod`, the divisor read from the lane (sign-extended, then masked below 64 bits), taken as a `uint64_t`, is exactly the lane's low `bit_size` bits |
| IdivLower.LowerLane | src/compiler/nir/nir_opt_idiv_const.c:149-161 | the lane built for each opcode has the numerator's bit size |
| IdivLower.UdivLaneCorrect | src/compiler/nir/nir_opt_idiv_const.c:150-151 | a `udiv` lane computes n / d, d unsigned, and 0 for d = 0 |
| IdivLower.IdivLaneCorrect | src/compiler/nir/nir_opt_idiv_const.c:153-154 | an `idiv` lane computes n / d rounded toward zero, d sign-extended, and 0 for d = 0 |
| IdivLower.UmodLaneCorrect | src/compiler/nir/nir_opt_idiv_const.c:156-157 | a `umod` lane computes n mod d, d unsigned, and 0 for d = 0 |
| IdivLower.LowerLaneCorrect | src/compiler/nir/nir_opt_idiv_const.c:115-162 | every lane computes its reference quotient or remainder |
| IdivLower.LaneOf | src/compiler/nir/nir_opt_idiv_const.c:115-161 | the lane built for component c has the numerator's bit size |
| IdivLower.LowerInstrCorrect | src/compiler/nir/nir_opt_idiv_const.c:110-164 | the replacement is a vector with `num_components` components that defines the new SSA value with the division's bit size and component count; component c is the reference quotient or remainder of numerator lane `src[0].swizzle[c]` by divisor lane `src[1].swizzle[c]` |
| IdivLower.RelabelLane | src/compiler/nir/nir_opt_idiv_const.c:115-161 | which SSA value the numerator names does not change the shape of the built lane |
| IdivLower.LowerInstrErase | src/compiler/nir/nir_opt_idiv_const.c:114-164 | divisions that agree up to the values they use are replaced by vectors that agree up to the values they use |
| IdivLower.LowerUses | src/compiler/nir/nir_opt_idiv_const.c:114-163 | every value the replacement vector uses is the numerator `src[0]`: the divisor is read as constants |
| IdivLower.LowerInstrRelabel | src/compiler/nir/nir_opt_idiv_const.c:114-165 | renaming a value before lowering a division or after it gives the same vector, and the renamed division still has a constant divisor |
| NirIr.RelabelBlocks | src/compiler/nir/nir_opt_idiv_const.c:165 | rewriting the uses of `from` to `to` keeps every block's length and every instruction's shape; in every instruction, each use of `from` now names `to`, every other use is unchanged, and the number and order of uses are kept; the IR stays well formed |
| NirIr.RelabelRewires | src/compiler/nir/nir_opt_idiv_const.c:165 | in one instruction, rewriting renames exactly the uses of `from` to `to` and keeps the rest |
| NirIr.UsesRelabel | src/compiler/nir/nir_opt_idiv_const.c:165 | an instruction's uses after relabelling are its uses before, each relabelled, in the same order |
| NirIr.ExprUsesRelabel | src/compiler/nir/nir_opt_idiv_const.c:163-165 | the values a built expression reads, after relabelling, are the values it read, each relabelled, in order |
| NirIr.ShapeAndUses | src/compiler/nir/nir_opt_idiv_const.c:165 | an instruction is determined by its shape and the values it uses |
| NirIr.EraseRelabel | src/compiler/nir/nir_opt_idiv_const.c:165 | rewriting uses only changes which values an instruction uses |
| IdivPass.LowerAt | src/compiler/nir/nir_opt_idiv_const.c:163-166 | after the replacement the vector sits in the division's slot; in every other instruction each use of the division's value now names the vector's and every other use is unchanged; the block shape and well-formedness are kept |
| IdivPass.LowerAtNames | src/compiler/nir/nir_opt_idiv_const.c:163-166 | one replacement replaces exactly the division's slot, and renames exactly the division's value to the vector's |
| IdivPass.LowerAtRenames | src/compiler/nir/nir_opt_idiv_const.c:163-166 | one replacement, taken at the counter, is a stretch of the walk: every use afterwards is the use before (or in the lowering) renamed |
| IdivPass.LowerAtSsa | src/compiler/nir/nir_opt_idiv_const.c:163-166 | in SSA form, the vector defined at the counter is a fresh value: with the counter advanced by one, values are still defined once and below it, and every use names an earlier-allocated value other than the user's own |
| IdivPass.NewNameAt | src/compiler/nir/nir_opt_idiv_const.c:165 | with values defined once, a replaced division's value is renamed to its vector's |
| IdivPass.SegmentCompose | src/compiler/nir/nir_opt_idiv_const.c:179-196 | two consecutive stretches of the walk make one: the slots replaced are those of either, a slot replaced early is not replaced again, and early replacements take values below the later ones |
| IdivPass.NewNameCompose | src/compiler/nir/nir_opt_idiv_const.c:179-196 | the renaming over two consecutive stretches is the first renaming followed by the second |
| IdivPass.RenamedCompose | src/compiler/nir/nir_opt_idiv_const.c:179-196 | if the uses after each of two consecutive stretches are the renamed uses before it, the same holds across both |
| IdivPass.VisitRenames | src/compiler/nir/nir_opt_idiv_const.c:180-194 | one visit of the inner loop is a stretch of the walk that renames uses and keeps SSA form |
| IdivPass.StretchCompose | src/compiler/nir/nir_opt_idiv_const.c:179-196 | two consecutive stretches that rename uses and keep SSA form make one |
| IdivPass.WalkBlockRenames | src/compiler/nir/nir_opt_idiv_const.c:180-195 | the inner loop from any slot on renames uses and keeps SSA form |
| IdivPass.WalkBlocksRenames | src/compiler/nir/nir_opt_idiv_const.c:179-196 | the walk over the blocks from `bi` on renames uses and keeps SSA form |
| IdivPass.RunImplRenames | src/compiler/nir/nir_opt_idiv_const.c:179-196 | in SSA form, after the walk: SSA form holds at the new counter, the slots replaced by vectors are exactly the lowered divisions, and every use is the original use (or the lowering's) renamed |
| IdivPass.RunImplSsa | src/compiler/nir/nir_opt_idiv_const.c:179-196 | whenever the implementation is in SSA form before the walk, it is in SSA form after it at the advanced counter |
| IdivPass.RunImplRewires | src/compiler/nir/nir_opt_idiv_const.c:163-196 | in SSA form, after the walk: the vectors that replaced divisions define pairwise distinct values; every use of a replaced division's value now names that division's vector; every other use is unchanged |
| IdivPass.ReadDivisor | src/compiler/nir/nir_opt_idiv_const.c:121-147 | the divisor read into an `int64_t` is the lane sign-extended from the bit size, masked back to it for unsigned opcodes below 64 bits: for `idiv` it is the signed value in range whose low bits are the lane's; for `udiv`/`umod`, as a `uint64_t`, it is the lane's low `bit_size` bits |
| IdivPass.Impl.BuildLane | src/compiler/nir/nir_opt_idiv_const.c:115-161 | one iteration of the component loop builds exactly lane `comp` of the division |
| IdivPass.Impl.BuildVec | src/compiler/nir/nir_opt_idiv_const.c:114-164 | the loop filling `q[4]` and the final `nir_vec` give exactly the replacement vector |
| IdivPass.Impl.OptInstr | src/compiler/nir/nir_opt_idiv_const.c:100-169 | without a constant divisor the result is false and nothing changes; otherwise uses are rewired, the vector replaces the division, one new SSA index is taken, and the result is true; SSA form is kept |
| IdivPass.Impl.OptVisit | src/compiler/nir/nir_opt_idiv_const.c:180-194 | one iteration of the inner loop (the filters, then `nir_opt_idiv_const_instr`) ends in the state `VisitInstr` gives |
| IdivPass.VisitInstr | src/compiler/nir/nir_opt_idiv_const.c:180-194 | one visit of the inner loop keeps the IR's shape and well-formedness |
| IdivPass.VisitFacts | src/compiler/nir/nir_opt_idiv_const.c:180-194 | the visited instruction is replaced by its vector under the current counter, and progress and the counter advance, exactly when it is a division that passes the filter and has a constant divisor; otherwise the state is unchanged; every other instruction keeps its shape and whether it lowers |
| IdivPass.WalkBlockFacts | src/compiler/nir/nir_opt_idiv_const.c:180-195 | the inner loop's progress reports whether some instruction of the block lowers; each instruction lowers or keeps its shape |
| IdivPass.WalkBlocksFacts | src/compiler/nir/nir_opt_idiv_const.c:179-196 | the same over all blocks from `bi` on |
| IdivPass.Impl.OptBlock | src/compiler/nir/nir_opt_idiv_const.c:180-195 | the inner loop over one block ends in the state `WalkBlock` gives, and keeps SSA form |
| IdivPass.RunImplFacts | src/compiler/nir/nir_opt_idiv_const.c:179-196 | exactly the ALU `udiv`/`idiv`/`umod` with destination bit size >= `min_bit_size` and a constant divisor are replaced, each by its vector, defining an SSA index from the range the counter advanced over; every other instruction keeps its shape; progress is true exactly when something was replaced |
| IdivPass.RunImplNoLowers | src/compiler/nir/nir_opt_idiv_const.c:179-196 | an implementation with nothing to lower is returned unchanged, without progress |
| IdivPass.RunImplIdempotent | src/compiler/nir/nir_opt_idiv_const.c:171-206 | running the pass a second time makes no progress and changes nothing |
| IdivPass.AllMetadataUnit | src/compiler/nir/nir_opt_idiv_const.c:201-202 | preserving all metadata leaves the valid set as it was |
| IdivPass.Impl.OptImpl | src/compiler/nir/nir_opt_idiv_const.c:171-206 | the blocks, the SSA counter and the progress result are those of `RunImpl`; the valid metadata is cut to block index and dominance on progress and kept otherwise; SSA form is kept |
| IdivPass.OptIdivConst | src/compiler/nir/nir_opt_idiv_const.c:208-219 | every function with an implementation is rewritten as `OptImpl` says, and the result is the OR of the per-implementation progress |

## Left out

- The magic-number derivation (`util_compute_fast_udiv_info`, `util_compute_fast_sdiv_info` in `util/fast_idiv_by_const.c`) is not part of this model. Its results come from the oracle `FastDiv`, and the general cases are proved for parameters that divide exactly (`UdivExact`, `SdivExact`). The `FastDiv` lemmas prove that the Granlund–Montgomery conditions are enough. That the derivation meets them is not proved.
- IdivConst.BuildIdivCorrect: `abs_d` at line 68 is the mathematical |d|. For d = INT64_MIN (64-bit lanes only) the C negation overflows. The model takes the value 2^63 that the `uint64_t` conversion of the wrapped negation produces. That d then takes the power-of-two path.
- The NIR builder (`nir_builder`, the cursor set at line 112, instruction insertion) is not modelled as state. A lowered sequence is an `Expr` tree stored in the `Vec` that replaces the division, and it takes one SSA index. The intermediate builder instructions get no SSA values of their own, and their placement before the division is not modelled.
- `nir_instr_remove` (line 166) is modelled as the vector taking the division's slot. The order of the other instructions is unchanged.
- `nir_ssa_def_rewrite_uses` (line 165) is modelled by renaming the SSA index in every use in the implementation (`RelabelBlocks`). Use lists are not modelled, so the rename reaches every instruction of the implementation, not only those on a list. A rewired source keeps its constant value as well: in valid NIR, a division's result is never a `load_const`.
- `nir_src_as_const_value` (line 106) is modelled by an optional field of constant lanes on each ALU source (`AluSrc.konst`). Each lane is held as its raw 64 bits. The `switch (bit_size)` at lines 122-137 reads the lane's `.i8`/`.i16`/`.i32`/`.i64` member, and the model writes that as the sign extension of the lane's low `bit_size` bits.
- The `is_ssa` `assert`s at lines 103-104 and 190 are not modelled: every source and destination in the model's IR is an SSA value by construction. The further SSA facts the pass keeps (`SsaValid`) are not required by the methods: `OptInstr`, `OptBlock` and `OptImpl` state that they keep SSA form whenever it held before, and the lemmas about renaming (`RunImplRenames`, `RunImplRewires`) require it. The `unreachable` branches at lines 136 and 160 are excluded by the requires `ValidBitSize` and `IsDivOp`. These, and the other guarantees of NIR validation, are requires clauses (`DivWellFormed`): operands of one valid bit size, at most four components, swizzles and constant lanes present.
- `nir_metadata_preserve` lives in `nir.c`, which is not part of this model. It is modelled as intersecting the implementation's valid-metadata set with the preserved set. The metadata kinds are limited to block index, dominance, live SSA defs and loop analysis.
- `nir_foreach_instr_safe` (line 180): the walk visits every original slot once. The vector placed in a slot is not revisited. The model states this by walking slot indices over a block whose length does not change.
- At shader level (lines 213-216), implementations are objects in the heap. `OptIdivConst` requires that no two functions share an implementation (`DistinctImpls`).
- The environment `Env` gives the lanes of SSA values the code reads. A lane it does not give reads as 0.
- NirAlu: the opcodes' meanings follow NIR's definitions (`nir_opcodes.py`), which are not part of this model. Only the opcodes the pass emits are modelled.
- The final rounding step at line 94, `iadd(res, ushr(res, N - 1))`, is modelled as written: the logical shift of the sign bit adds 1 to a negative `res` and 0 otherwise.
