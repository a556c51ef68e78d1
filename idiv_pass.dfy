/**
  The pass drivers `nir_opt_idiv_const_instr`, `nir_opt_idiv_const_impl` and
  `nir_opt_idiv_const`.

  `VisitInstr`, `WalkBlock` and `WalkBlocks` state, as functions of the IR, what
  the nested loops over blocks and instructions do; the methods of `Impl`
  (a `nir_function_impl`) are proved to compute exactly that, and the lemmas say
  what it means: which instructions are replaced, that every other instruction
  only has its uses rewired, what the progress flag reports, and that a second
  run changes nothing.
 */
module IdivPass {
  import opened Bits
  import opened NirAlu
  import opened NirIr
  import opened FastDiv
  import opened IdivConst
  import opened IdivLower

  /** The analyses whose validity NIR tracks per function implementation. */
  datatype Metadata = BlockIndex | Dominance | LiveSsaDefs | LoopAnalysis

  const AllMetadata: set<Metadata> := {BlockIndex, Dominance, LiveSsaDefs, LoopAnalysis}

  /** Every analysis is among `AllMetadata`, so preserving all of them keeps the valid set. */
  lemma AllMetadataUnit(valid: set<Metadata>)
    ensures valid * AllMetadata == valid
  {
    forall m | m in valid
      ensures m in AllMetadata
    {
      assert m.BlockIndex? || m.Dominance? || m.LiveSsaDefs? || m.LoopAnalysis?;
    }
  }

  /** The driver's filter: an ALU `udiv`, `idiv` or `umod` whose result is at least `minBitSize` bits. */
  predicate Lowerable(i: Instr, minBitSize: nat) {
    i.Alu? && IsDivOp(i.op) && i.dest.bitSize >= minBitSize
  }

  /** An instruction the pass replaces: it passes the filter and its divisor is a constant. */
  ghost predicate Lowers(i: Instr, minBitSize: nat) {
    Lowerable(i, minBitSize) && HasConstDivisor(i)
  }

  /** Instructions that agree once erased are lowered alike. */
  lemma LowersErase(i: Instr, j: Instr, minBitSize: nat)
    requires Erase(i) == Erase(j)
    ensures Lowers(i, minBitSize) == Lowers(j, minBitSize)
    ensures HasConstDivisor(i) == HasConstDivisor(j)
  {
    EraseKeepsAlu(i, j);
  }

  /**
    Replacing the division at (bi, ii): the vector takes the division's place
    and, everywhere else, every use of the division's value is rewired to the
    vector's value `newDef` while every other use and every instruction's shape
    stay as they were.
   */
  function LowerAt(blocks: Blocks, bi: nat, ii: nat, newDef: nat, fast: FastDiv): (r: Blocks)
    requires bi < |blocks| && ii < |blocks[bi]| && HasConstDivisor(blocks[bi][ii])
    ensures SameShape(r, blocks)
    ensures r[bi][ii] == LowerInstr(blocks[bi][ii], newDef, fast)
    ensures forall b, k :: 0 <= b < |r| && 0 <= k < |r[b]| && (b != bi || k != ii) ==> Erase(r[b][k]) == Erase(blocks[b][k])
    ensures forall b, k :: 0 <= b < |r| && 0 <= k < |r[b]| && (b != bi || k != ii) ==>
              RewiredFrom(blocks[b][k], r[b][k], blocks[bi][ii].dest.index, newDef)
    ensures AllWellFormed(blocks) ==> AllWellFormed(r)
  {
    var vec := LowerInstr(blocks[bi][ii], newDef, fast);
    var rewired := RelabelBlocks(blocks, Rewire(blocks[bi][ii].dest.index, newDef));
    rewired[bi := rewired[bi][ii := vec]]
  }

  /** The state the walk threads: the IR, the next free SSA index, and the progress flag. */
  datatype PassState = PassState(blocks: Blocks, ssaAlloc: nat, progress: bool)

  /** One iteration of the inner loop of `nir_opt_idiv_const_impl`. */
  function VisitInstr(st: PassState, bi: nat, ii: nat, minBitSize: nat, fast: FastDiv): (r: PassState)
    requires bi < |st.blocks| && ii < |st.blocks[bi]| && AllWellFormed(st.blocks)
    ensures SameShape(r.blocks, st.blocks) && AllWellFormed(r.blocks)
  {
    var i := st.blocks[bi][ii];
    if Lowerable(i, minBitSize) && i.srcs[1].konst.Some? then
      PassState(LowerAt(st.blocks, bi, ii, st.ssaAlloc, fast), st.ssaAlloc + 1, true)
    else
      st
  }

  /** The inner loop, from instruction `ii` of block `bi` to the end of the block. */
  function WalkBlock(st: PassState, bi: nat, ii: nat, minBitSize: nat, fast: FastDiv): (r: PassState)
    requires bi < |st.blocks| && ii <= |st.blocks[bi]| && AllWellFormed(st.blocks)
    ensures SameShape(r.blocks, st.blocks) && AllWellFormed(r.blocks)
    decreases |st.blocks[bi]| - ii
  {
    if ii == |st.blocks[bi]| then st
    else WalkBlock(VisitInstr(st, bi, ii, minBitSize, fast), bi, ii + 1, minBitSize, fast)
  }

  /** The outer loop, from block `bi` to the last block. */
  function WalkBlocks(st: PassState, bi: nat, minBitSize: nat, fast: FastDiv): (r: PassState)
    requires bi <= |st.blocks| && AllWellFormed(st.blocks)
    ensures SameShape(r.blocks, st.blocks) && AllWellFormed(r.blocks)
    decreases |st.blocks| - bi
  {
    if bi == |st.blocks| then st
    else WalkBlocks(WalkBlock(st, bi, 0, minBitSize, fast), bi + 1, minBitSize, fast)
  }

  /** The walk of `nir_opt_idiv_const_impl` over a whole implementation, progress starting false. */
  function RunImpl(blocks: Blocks, ssaAlloc: nat, minBitSize: nat, fast: FastDiv): (r: PassState)
    requires AllWellFormed(blocks)
    ensures SameShape(r.blocks, blocks) && AllWellFormed(r.blocks)
  {
    WalkBlocks(PassState(blocks, ssaAlloc, false), 0, minBitSize, fast)
  }

  // ---------------------------------------------------------------------
  // What the walk does
  // ---------------------------------------------------------------------

  /**
    What became of the instruction `o` at one position: when `lowered`, a vector
    defining a new value numbered in [lo, hi) that, up to which values it uses,
    is the lowering of `o`; otherwise `o` itself up to which values it uses.
   */
  ghost predicate Outcome(o: Instr, r: Instr, lowered: bool, lo: nat, hi: nat, fast: FastDiv) {
    if lowered then
      HasConstDivisor(o) && r.Vec? && lo <= r.dest.index < hi && Erase(r) == Erase(LowerInstr(o, r.dest.index, fast))
    else
      Erase(r) == Erase(o)
  }

  /** An outcome carries over an earlier step that kept the instruction's shape. */
  lemma OutcomeThrough(o: Instr, o1: Instr, x: Instr, lowered: bool, lo: nat, mid: nat, hi: nat, fast: FastDiv)
    requires Erase(o1) == Erase(o) && lo <= mid
    requires Outcome(o1, x, lowered, mid, hi, fast)
    ensures Outcome(o, x, lowered, lo, hi, fast)
  {
    if lowered {
      LowersErase(o1, o, 0);
      LowerInstrErase(o1, o, x.dest.index, fast);
    }
  }

  /** The instruction replaced in this step keeps its vector through the later steps. */
  lemma OutcomeReplaced(o: Instr, x: Instr, lo: nat, hi: nat, fast: FastDiv)
    requires HasConstDivisor(o) && lo < hi
    requires Outcome(LowerInstr(o, lo, fast), x, false, lo + 1, hi, fast)
    ensures Outcome(o, x, true, lo, hi, fast)
  {
    EraseKeepsAlu(x, LowerInstr(o, lo, fast));
  }

  /**
    What one step of the inner loop does to the state `st1` it produces: the
    visited instruction is replaced, and the counter advanced, exactly when it
    lowers; every other instruction keeps its shape.
   */
  ghost predicate Visited(st: PassState, st1: PassState, bi: nat, ii: nat, minBitSize: nat, fast: FastDiv)
    requires bi < |st.blocks| && ii < |st.blocks[bi]| && SameShape(st1.blocks, st.blocks)
  {
    var here := Lowers(st.blocks[bi][ii], minBitSize);
    && st1.progress == (st.progress || here)
    && st1.ssaAlloc == (if here then st.ssaAlloc + 1 else st.ssaAlloc)
    && (here ==> HasConstDivisor(st.blocks[bi][ii]) && st1.blocks[bi][ii] == LowerInstr(st.blocks[bi][ii], st.ssaAlloc, fast))
    && (!here ==> st1 == st)
    && forall b, k :: 0 <= b < |st.blocks| && 0 <= k < |st.blocks[b]| && (b != bi || k != ii) ==>
         Erase(st1.blocks[b][k]) == Erase(st.blocks[b][k]) && Lowers(st1.blocks[b][k], minBitSize) == Lowers(st.blocks[b][k], minBitSize)
  }

  /** One step of the inner loop: the visited instruction is replaced exactly when it lowers; others keep their shape. */
  lemma VisitFacts(st: PassState, bi: nat, ii: nat, minBitSize: nat, fast: FastDiv)
    requires bi < |st.blocks| && ii < |st.blocks[bi]| && AllWellFormed(st.blocks)
    ensures Visited(st, VisitInstr(st, bi, ii, minBitSize, fast), bi, ii, minBitSize, fast)
  {
    var r := VisitInstr(st, bi, ii, minBitSize, fast);
    forall b, k | 0 <= b < |st.blocks| && 0 <= k < |st.blocks[b]| && (b != bi || k != ii)
      ensures Erase(r.blocks[b][k]) == Erase(st.blocks[b][k])
      ensures Lowers(r.blocks[b][k], minBitSize) == Lowers(st.blocks[b][k], minBitSize)
    {
      LowersErase(r.blocks[b][k], st.blocks[b][k], minBitSize);
    }
  }

  /**
    What the inner walk from `ii` promises about its result `r`: the counter
    only grows, progress reports whether an instruction from `ii` on lowers,
    and each instruction's outcome.
   */
  ghost predicate BlockWalked(st: PassState, r: PassState, bi: nat, ii: nat, minBitSize: nat, fast: FastDiv)
    requires bi < |st.blocks| && SameShape(r.blocks, st.blocks)
  {
    && st.ssaAlloc <= r.ssaAlloc
    && r.progress == (st.progress || exists k :: ii <= k < |st.blocks[bi]| && Lowers(st.blocks[bi][k], minBitSize))
    && forall b, k :: 0 <= b < |st.blocks| && 0 <= k < |st.blocks[b]| ==>
         Outcome(st.blocks[b][k], r.blocks[b][k], b == bi && ii <= k && Lowers(st.blocks[b][k], minBitSize),
                 st.ssaAlloc, r.ssaAlloc, fast)
  }

  /** The progress flag of the walk reports whether some instruction was replaced. */
  lemma {:induction false} WalkBlockFacts(st: PassState, bi: nat, ii: nat, minBitSize: nat, fast: FastDiv)
    requires bi < |st.blocks| && ii <= |st.blocks[bi]| && AllWellFormed(st.blocks)
    ensures BlockWalked(st, WalkBlock(st, bi, ii, minBitSize, fast), bi, ii, minBitSize, fast)
    decreases |st.blocks[bi]| - ii
  {
    if ii < |st.blocks[bi]| {
      var st1 := VisitInstr(st, bi, ii, minBitSize, fast);
      var r := WalkBlock(st1, bi, ii + 1, minBitSize, fast);
      assert WalkBlock(st, bi, ii, minBitSize, fast) == r;
      VisitFacts(st, bi, ii, minBitSize, fast);
      WalkBlockFacts(st1, bi, ii + 1, minBitSize, fast);
      WalkBlockStep(st, st1, r, bi, ii, minBitSize, fast);
    }
  }

  /** One inner step composed with the rest of the inner walk. */
  lemma WalkBlockStep(st: PassState, st1: PassState, r: PassState, bi: nat, ii: nat, minBitSize: nat, fast: FastDiv)
    requires bi < |st.blocks| && ii < |st.blocks[bi]|
    requires SameShape(st1.blocks, st.blocks) && SameShape(r.blocks, st1.blocks)
    requires Visited(st, st1, bi, ii, minBitSize, fast)
    requires BlockWalked(st1, r, bi, ii + 1, minBitSize, fast)
    ensures BlockWalked(st, r, bi, ii, minBitSize, fast)
  {
    var here := Lowers(st.blocks[bi][ii], minBitSize);
    forall b, k | 0 <= b < |st.blocks| && 0 <= k < |st.blocks[b]|
      ensures Outcome(st.blocks[b][k], r.blocks[b][k], b == bi && ii <= k && Lowers(st.blocks[b][k], minBitSize),
                      st.ssaAlloc, r.ssaAlloc, fast)
    {
      if b == bi && k == ii {
        if here {
          OutcomeReplaced(st.blocks[b][k], r.blocks[b][k], st.ssaAlloc, r.ssaAlloc, fast);
        }
      } else {
        OutcomeThrough(st.blocks[b][k], st1.blocks[b][k], r.blocks[b][k], b == bi && ii <= k && Lowers(st.blocks[b][k], minBitSize),
                       st.ssaAlloc, st1.ssaAlloc, r.ssaAlloc, fast);
      }
    }
    WalkBlockProgress(st, st1, r, bi, ii, minBitSize);
  }

  /** The progress part of one inner step: the later instructions lower alike before and after it. */
  lemma WalkBlockProgress(st: PassState, st1: PassState, r: PassState, bi: nat, ii: nat, minBitSize: nat)
    requires bi < |st.blocks| && ii < |st.blocks[bi]| && SameShape(st1.blocks, st.blocks)
    requires st1.progress == (st.progress || Lowers(st.blocks[bi][ii], minBitSize))
    requires forall k :: ii < k < |st.blocks[bi]| ==> Lowers(st1.blocks[bi][k], minBitSize) == Lowers(st.blocks[bi][k], minBitSize)
    requires r.progress == (st1.progress || exists k :: ii + 1 <= k < |st1.blocks[bi]| && Lowers(st1.blocks[bi][k], minBitSize))
    ensures r.progress == (st.progress || exists k :: ii <= k < |st.blocks[bi]| && Lowers(st.blocks[bi][k], minBitSize))
  {
    if r.progress && !st1.progress {
      var k :| ii + 1 <= k < |st1.blocks[bi]| && Lowers(st1.blocks[bi][k], minBitSize);
      assert Lowers(st.blocks[bi][k], minBitSize);
    }
    if !r.progress {
      forall k | ii <= k < |st.blocks[bi]|
        ensures !Lowers(st.blocks[bi][k], minBitSize)
      {
        if k > ii {
          assert !Lowers(st1.blocks[bi][k], minBitSize);
        }
      }
    }
  }

  /** The progress part of one outer step. */
  lemma WalkBlocksProgress(st: PassState, st1: PassState, r: PassState, bi: nat, minBitSize: nat)
    requires bi < |st.blocks| && SameShape(st1.blocks, st.blocks)
    requires st1.progress == (st.progress || exists k :: 0 <= k < |st.blocks[bi]| && Lowers(st.blocks[bi][k], minBitSize))
    requires forall b, k :: bi < b < |st.blocks| && 0 <= k < |st.blocks[b]| ==> Lowers(st1.blocks[b][k], minBitSize) == Lowers(st.blocks[b][k], minBitSize)
    requires r.progress == (st1.progress || exists b, k :: bi + 1 <= b < |st1.blocks| && 0 <= k < |st1.blocks[b]| && Lowers(st1.blocks[b][k], minBitSize))
    ensures r.progress == (st.progress || exists b, k :: bi <= b < |st.blocks| && 0 <= k < |st.blocks[b]| && Lowers(st.blocks[b][k], minBitSize))
  {
    if r.progress && !st1.progress {
      var b, k :| bi + 1 <= b < |st1.blocks| && 0 <= k < |st1.blocks[b]| && Lowers(st1.blocks[b][k], minBitSize);
      assert Lowers(st.blocks[b][k], minBitSize);
    }
    if !r.progress {
      forall b, k | bi <= b < |st.blocks| && 0 <= k < |st.blocks[b]|
        ensures !Lowers(st.blocks[b][k], minBitSize)
      {
        if b > bi {
          assert !Lowers(st1.blocks[b][k], minBitSize);
        }
      }
    }
  }

  /** What the outer walk from block `bi` promises about its result `r`. */
  ghost predicate BlocksWalked(st: PassState, r: PassState, bi: nat, minBitSize: nat, fast: FastDiv)
    requires SameShape(r.blocks, st.blocks)
  {
    && st.ssaAlloc <= r.ssaAlloc
    && r.progress == (st.progress || exists b, k :: bi <= b < |st.blocks| && 0 <= k < |st.blocks[b]| && Lowers(st.blocks[b][k], minBitSize))
    && forall b, k :: 0 <= b < |st.blocks| && 0 <= k < |st.blocks[b]| ==>
         Outcome(st.blocks[b][k], r.blocks[b][k], bi <= b && Lowers(st.blocks[b][k], minBitSize),
                 st.ssaAlloc, r.ssaAlloc, fast)
  }

  /** The outer loop: the same facts over the blocks from `bi` on. */
  lemma {:induction false} WalkBlocksFacts(st: PassState, bi: nat, minBitSize: nat, fast: FastDiv)
    requires bi <= |st.blocks| && AllWellFormed(st.blocks)
    ensures BlocksWalked(st, WalkBlocks(st, bi, minBitSize, fast), bi, minBitSize, fast)
    decreases |st.blocks| - bi
  {
    if bi < |st.blocks| {
      forall st1: PassState | |st1.blocks| == |st.blocks| && AllWellFormed(st1.blocks)
        ensures BlocksWalked(st1, WalkBlocks(st1, bi + 1, minBitSize, fast), bi + 1, minBitSize, fast)
      {
        WalkBlocksFacts(st1, bi + 1, minBitSize, fast);
      }
      WalkBlocksStep(st, bi, minBitSize, fast);
    } else {
      WalkBlocksDone(st, minBitSize, fast);
    }
  }

  /** Past the last block the outer walk changes nothing. */
  lemma WalkBlocksDone(st: PassState, minBitSize: nat, fast: FastDiv)
    requires AllWellFormed(st.blocks)
    ensures BlocksWalked(st, WalkBlocks(st, |st.blocks|, minBitSize, fast), |st.blocks|, minBitSize, fast)
  {
    assert WalkBlocks(st, |st.blocks|, minBitSize, fast) == st;
  }

  /** One block's walk composed with the walk of the blocks after it. */
  lemma WalkBlocksStep(st: PassState, bi: nat, minBitSize: nat, fast: FastDiv)
    requires bi < |st.blocks| && AllWellFormed(st.blocks)
    requires var st1 := WalkBlock(st, bi, 0, minBitSize, fast);
             BlocksWalked(st1, WalkBlocks(st1, bi + 1, minBitSize, fast), bi + 1, minBitSize, fast)
    ensures BlocksWalked(st, WalkBlocks(st, bi, minBitSize, fast), bi, minBitSize, fast)
  {
    var st1 := WalkBlock(st, bi, 0, minBitSize, fast);
    var r := WalkBlocks(st1, bi + 1, minBitSize, fast);
    assert WalkBlocks(st, bi, minBitSize, fast) == r;
    WalkBlockFacts(st, bi, 0, minBitSize, fast);
    forall b, k | 0 <= b < |st.blocks| && 0 <= k < |st.blocks[b]| && b != bi
      ensures Erase(st1.blocks[b][k]) == Erase(st.blocks[b][k])
      ensures Lowers(st1.blocks[b][k], minBitSize) == Lowers(st.blocks[b][k], minBitSize)
    {
      assert Outcome(st.blocks[b][k], st1.blocks[b][k], false, st.ssaAlloc, st1.ssaAlloc, fast);
      LowersErase(st1.blocks[b][k], st.blocks[b][k], minBitSize);
    }
    forall b, k | 0 <= b < |st.blocks| && 0 <= k < |st.blocks[b]|
      ensures Outcome(st.blocks[b][k], r.blocks[b][k], bi <= b && Lowers(st.blocks[b][k], minBitSize),
                      st.ssaAlloc, r.ssaAlloc, fast)
    {
      if b == bi {
        OutcomeLater(st.blocks[b][k], st1.blocks[b][k], r.blocks[b][k], Lowers(st.blocks[b][k], minBitSize),
                     st.ssaAlloc, st1.ssaAlloc, r.ssaAlloc, fast);
      } else {
        OutcomeThrough(st.blocks[b][k], st1.blocks[b][k], r.blocks[b][k], bi <= b && Lowers(st.blocks[b][k], minBitSize),
                       st.ssaAlloc, st1.ssaAlloc, r.ssaAlloc, fast);
      }
    }
    WalkBlocksProgress(st, st1, r, bi, minBitSize);
  }

  /** An outcome of an earlier step survives later steps that keep the instruction's shape. */
  lemma OutcomeLater(o: Instr, o1: Instr, x: Instr, lowered: bool, lo: nat, mid: nat, hi: nat, fast: FastDiv)
    requires mid <= hi
    requires Outcome(o, o1, lowered, lo, mid, fast)
    requires Outcome(o1, x, false, mid, hi, fast)
    ensures Outcome(o, x, lowered, lo, hi, fast)
  {
    if lowered {
      EraseKeepsAlu(x, o1);
    }
  }

  /**
    `nir_opt_idiv_const_impl` replaces exactly the filtered divisions with a
    constant divisor, each by the vector of its lanes, numbering the new values
    from `ssaAlloc` on; every other instruction keeps its shape; and it reports
    progress exactly when it replaced something.
   */
  lemma RunImplFacts(blocks: Blocks, ssaAlloc: nat, minBitSize: nat, fast: FastDiv)
    requires AllWellFormed(blocks)
    ensures var r := RunImpl(blocks, ssaAlloc, minBitSize, fast);
            && SameShape(r.blocks, blocks)
            && r.progress == (exists b, k :: 0 <= b < |blocks| && 0 <= k < |blocks[b]| && Lowers(blocks[b][k], minBitSize))
            && forall b, k :: 0 <= b < |blocks| && 0 <= k < |blocks[b]| ==>
                 Outcome(blocks[b][k], r.blocks[b][k], Lowers(blocks[b][k], minBitSize), ssaAlloc, r.ssaAlloc, fast)
  {
    WalkBlocksFacts(PassState(blocks, ssaAlloc, false), 0, minBitSize, fast);
  }

  // ---------------------------------------------------------------------
  // What becomes of the values used
  // ---------------------------------------------------------------------

  /** Slot (b, k) holds a division in `s` and a vector in `r`: a stretch of the walk from `s` to `r` replaced it. */
  predicate Replaced(s: Blocks, r: Blocks, b: int, k: int) {
    0 <= b < |s| && 0 <= k < |s[b]| && b < |r| && k < |r[b]| && s[b][k].Alu? && r[b][k].Vec?
  }

  /** The value that `v` of `s` is known by in `r`: the vector's value when `v` is a replaced division's, else `v`. */
  ghost function NewName(s: Blocks, r: Blocks, v: nat): nat {
    if exists b, k :: Replaced(s, r, b, k) && s[b][k].dest.index == v then
      var b, k :| Replaced(s, r, b, k) && s[b][k].dest.index == v; r[b][k].dest.index
    else
      v
  }

  /** A replaced division whose value no other replaced division defines: its value is known by its vector's. */
  lemma NewNameOnly(s: Blocks, r: Blocks, b: int, k: int)
    requires Replaced(s, r, b, k)
    requires forall b2, k2 :: Replaced(s, r, b2, k2) && s[b2][k2].dest.index == s[b][k].dest.index ==> b2 == b && k2 == k
    ensures NewName(s, r, s[b][k].dest.index) == r[b][k].dest.index
  {
  }

  /** With values defined once, a replaced division's value is known by its vector's. */
  lemma NewNameAt(s: Blocks, r: Blocks, b: int, k: int)
    requires DefsUnique(s) && Replaced(s, r, b, k)
    ensures NewName(s, r, s[b][k].dest.index) == r[b][k].dest.index
  {
    NewNameOnly(s, r, b, k);
  }

  /** A value no replaced division defined keeps its name. */
  lemma NewNameKept(s: Blocks, r: Blocks, v: nat)
    requires forall b, k :: Replaced(s, r, b, k) ==> s[b][k].dest.index != v
    ensures NewName(s, r, v) == v
  {
  }

  /**
    What slot (b, k) of `r` holds, up to the names of the values it uses: the
    lowering of the division `s` held there when it was replaced, else what `s`
    held there.
   */
  ghost function Before(s: Blocks, r: Blocks, b: nat, k: nat, fast: FastDiv): Instr
    requires b < |s| && k < |s[b]| && b < |r| && k < |r[b]|
  {
    if Replaced(s, r, b, k) && HasConstDivisor(s[b][k]) then LowerInstr(s[b][k], r[b][k].dest.index, fast) else s[b][k]
  }

  /** Each use slot (b, k) of `r` makes is the corresponding use of `Before`, renamed by `NewName`. */
  ghost predicate RenamedAt(s: Blocks, r: Blocks, b: nat, k: nat, fast: FastDiv)
    requires b < |s| && k < |s[b]| && b < |r| && k < |r[b]|
  {
    var o := Before(s, r, b, k, fast);
    && |UsesOf(r[b][k])| == |UsesOf(o)|
    && forall u :: 0 <= u < |UsesOf(o)| ==> UsesOf(r[b][k])[u] == NewName(s, r, UsesOf(o)[u])
  }

  /** Every use in `r` is the use in `s`, or in a replacement, renamed by `NewName`. */
  ghost predicate Renamed(s: Blocks, r: Blocks, fast: FastDiv) {
    SameShape(r, s) && forall b, k :: 0 <= b < |s| && 0 <= k < |s[b]| ==> RenamedAt(s, r, b, k, fast)
  }

  /** The shape facts of a stretch of the walk: each slot's outcome, the replaced ones given values in [lo, hi). */
  ghost predicate Segment(s: Blocks, r: Blocks, lo: nat, hi: nat, fast: FastDiv) {
    && lo <= hi
    && SameShape(r, s)
    && forall b, k :: 0 <= b < |s| && 0 <= k < |s[b]| ==> Outcome(s[b][k], r[b][k], Replaced(s, r, b, k), lo, hi, fast)
  }

  /** An outcome's flag is whether a division became a vector. */
  lemma OutcomeFlag(o: Instr, x: Instr, lowered: bool, lo: nat, hi: nat, fast: FastDiv)
    requires Outcome(o, x, lowered, lo, hi, fast)
    ensures lowered == (o.Alu? && x.Vec?)
  {
    if !lowered {
      EraseKeepsAlu(x, o);
    }
  }

  /** A stretch that replaces nothing. */
  lemma SegmentRefl(s: Blocks, lo: nat, fast: FastDiv)
    ensures Segment(s, s, lo, lo, fast) && Renamed(s, s, fast)
  {
    forall b, k | 0 <= b < |s| && 0 <= k < |s[b]|
      ensures RenamedAt(s, s, b, k, fast)
    {
      forall u | 0 <= u < |UsesOf(s[b][k])|
        ensures UsesOf(s[b][k])[u] == NewName(s, s, UsesOf(s[b][k])[u])
      {
        NewNameKept(s, s, UsesOf(s[b][k])[u]);
      }
    }
  }

  /** Two stretches make one: a slot is replaced in it when it is in either, and keeps the first vector's value. */
  lemma SegmentCompose(s: Blocks, s1: Blocks, r: Blocks, lo: nat, mid: nat, hi: nat, fast: FastDiv)
    requires Segment(s, s1, lo, mid, fast) && Segment(s1, r, mid, hi, fast)
    ensures Segment(s, r, lo, hi, fast)
    ensures forall b, k :: Replaced(s, r, b, k) == (Replaced(s, s1, b, k) || Replaced(s1, r, b, k))
    ensures forall b, k :: Replaced(s, s1, b, k) ==> r[b][k].dest == s1[b][k].dest && !Replaced(s1, r, b, k)
    ensures forall b, k :: Replaced(s1, r, b, k) ==> Erase(s1[b][k]) == Erase(s[b][k])
    ensures forall b, k :: Replaced(s1, r, b, k) ==> s[b][k].Alu? && s1[b][k].dest == s[b][k].dest
    ensures forall b, k :: Replaced(s, s1, b, k) ==> lo <= s1[b][k].dest.index < mid
  {
    forall b, k | 0 <= b < |s| && 0 <= k < |s[b]|
      ensures Outcome(s[b][k], r[b][k], Replaced(s, r, b, k), lo, hi, fast)
      ensures Replaced(s, r, b, k) == (Replaced(s, s1, b, k) || Replaced(s1, r, b, k))
      ensures Replaced(s, s1, b, k) ==> r[b][k].dest == s1[b][k].dest && !Replaced(s1, r, b, k)
      ensures Replaced(s1, r, b, k) ==> Erase(s1[b][k]) == Erase(s[b][k])
      ensures Replaced(s1, r, b, k) ==> s[b][k].Alu? && s1[b][k].dest == s[b][k].dest
    {
      var o, o1, x := s[b][k], s1[b][k], r[b][k];
      OutcomeFlag(o, o1, Replaced(s, s1, b, k), lo, mid, fast);
      OutcomeFlag(o1, x, Replaced(s1, r, b, k), mid, hi, fast);
      if Replaced(s, s1, b, k) {
        EraseKeepsAlu(x, o1);
        OutcomeLater(o, o1, x, true, lo, mid, hi, fast);
      } else {
        EraseKeepsAlu(o1, o);
        OutcomeThrough(o, o1, x, Replaced(s1, r, b, k), lo, mid, hi, fast);
      }
    }
  }

  /** A value replaced in the first stretch: its vector's value stays put in the second. */
  lemma NameEarly(s: Blocks, s1: Blocks, r: Blocks, b: int, k: int, lo: nat)
    requires DefsUnique(s) && Replaced(s, s1, b, k) && Replaced(s, r, b, k)
    requires r[b][k].dest == s1[b][k].dest && lo <= s1[b][k].dest.index
    requires forall b2, k2 :: Replaced(s1, r, b2, k2) ==> s1[b2][k2].dest.index < lo
    ensures NewName(s, r, s[b][k].dest.index) == NewName(s1, r, NewName(s, s1, s[b][k].dest.index))
  {
    NewNameAt(s, r, b, k);
    NewNameAt(s, s1, b, k);
    NewNameKept(s1, r, s1[b][k].dest.index);
  }

  /** A value replaced in the second stretch: the first leaves it alone. */
  lemma NameLate(s: Blocks, s1: Blocks, r: Blocks, b: int, k: int)
    requires SameShape(s1, s) && DefsUnique(s) && Replaced(s1, r, b, k) && Replaced(s, r, b, k) && !Replaced(s, s1, b, k)
    requires forall b2, k2 :: Replaced(s1, r, b2, k2) ==> s[b2][k2].Alu? && s1[b2][k2].dest == s[b2][k2].dest
    ensures NewName(s, r, s[b][k].dest.index) == NewName(s1, r, NewName(s, s1, s[b][k].dest.index))
  {
    var v := s[b][k].dest.index;
    NewNameAt(s, r, b, k);
    forall b2, k2 | Replaced(s, s1, b2, k2)
      ensures s[b2][k2].dest.index != v
    {
    }
    NewNameKept(s, s1, v);
    forall b2, k2 | Replaced(s1, r, b2, k2) && s1[b2][k2].dest.index == v
      ensures b2 == b && k2 == k
    {
    }
    NewNameOnly(s1, r, b, k);
  }

  /** A value replaced in neither stretch keeps its name throughout. */
  lemma NameKept(s: Blocks, s1: Blocks, r: Blocks, v: nat)
    requires forall b, k :: Replaced(s, r, b, k) ==> s[b][k].dest.index != v
    requires forall b, k :: Replaced(s, s1, b, k) ==> Replaced(s, r, b, k)
    requires forall b, k :: Replaced(s1, r, b, k) ==> Replaced(s, r, b, k) && s1[b][k].dest == s[b][k].dest
    ensures NewName(s, r, v) == NewName(s1, r, NewName(s, s1, v))
  {
    NewNameKept(s, r, v);
    NewNameKept(s, s1, v);
    NewNameKept(s1, r, v);
  }

  /** Renaming over two stretches is renaming over the first, then over the second. */
  lemma NewNameCompose(s: Blocks, s1: Blocks, r: Blocks, lo: nat, mid: nat, hi: nat, fast: FastDiv, v: nat)
    requires Segment(s, s1, lo, mid, fast) && Segment(s1, r, mid, hi, fast)
    requires DefsUnique(s) && DefsBelow(s, lo)
    ensures NewName(s, r, v) == NewName(s1, r, NewName(s, s1, v))
  {
    SegmentCompose(s, s1, r, lo, mid, hi, fast);
    if exists b, k :: Replaced(s, r, b, k) && s[b][k].dest.index == v {
      var b, k :| Replaced(s, r, b, k) && s[b][k].dest.index == v;
      if Replaced(s, s1, b, k) {
        NameEarly(s, s1, r, b, k, lo);
      } else {
        NameLate(s, s1, r, b, k);
      }
    } else {
      NameKept(s, s1, r, v);
    }
  }

  /** The uses of one slot over two stretches: renamed over the first, then over the second. */
  lemma RenamedComposeAt(s: Blocks, s1: Blocks, r: Blocks, b: nat, k: nat, lo: nat, mid: nat, hi: nat, fast: FastDiv)
    requires b < |s| && k < |s[b]| && SameShape(s1, s) && SameShape(r, s1)
    requires forall v :: NewName(s, r, v) == NewName(s1, r, NewName(s, s1, v))
    requires Outcome(s[b][k], s1[b][k], Replaced(s, s1, b, k), lo, mid, fast)
    requires Outcome(s1[b][k], r[b][k], Replaced(s1, r, b, k), mid, hi, fast)
    requires Replaced(s, r, b, k) == (Replaced(s, s1, b, k) || Replaced(s1, r, b, k))
    requires Replaced(s, s1, b, k) ==> r[b][k].dest == s1[b][k].dest && !Replaced(s1, r, b, k)
    requires RenamedAt(s, s1, b, k, fast) && RenamedAt(s1, r, b, k, fast)
    ensures RenamedAt(s, r, b, k, fast)
  {
    var o := Before(s, r, b, k, fast);
    if Replaced(s1, r, b, k) {
      var idx := r[b][k].dest.index;
      LowersErase(s1[b][k], s[b][k], 0);
      LowerInstrErase(s[b][k], s1[b][k], idx, fast);
      UsesLength(o, LowerInstr(s1[b][k], idx, fast));
      LowerUses(s[b][k], idx, fast);
      LowerUses(s1[b][k], idx, fast);
      assert UsesOf(s[b][k])[0] == s[b][k].srcs[0].def && UsesOf(s1[b][k])[0] == s1[b][k].srcs[0].def;
    }
  }

  /** Two stretches of the walk make one whose uses are renamed by the composed renaming. */
  lemma RenamedCompose(s: Blocks, s1: Blocks, r: Blocks, lo: nat, mid: nat, hi: nat, fast: FastDiv)
    requires Segment(s, s1, lo, mid, fast) && Segment(s1, r, mid, hi, fast)
    requires DefsUnique(s) && DefsBelow(s, lo)
    requires Renamed(s, s1, fast) && Renamed(s1, r, fast)
    ensures Segment(s, r, lo, hi, fast) && Renamed(s, r, fast)
  {
    SegmentCompose(s, s1, r, lo, mid, hi, fast);
    forall v
      ensures NewName(s, r, v) == NewName(s1, r, NewName(s, s1, v))
    {
      NewNameCompose(s, s1, r, lo, mid, hi, fast, v);
    }
    forall b, k | 0 <= b < |s| && 0 <= k < |s[b]|
      ensures RenamedAt(s, r, b, k, fast)
    {
      RenamedComposeAt(s, s1, r, b, k, lo, mid, hi, fast);
    }
  }

  /** `LowerAt` replaces exactly the division at (bi, ii); its value is now known by `newDef`, every other by its own. */
  lemma LowerAtNames(blocks: Blocks, bi: nat, ii: nat, newDef: nat, fast: FastDiv)
    requires bi < |blocks| && ii < |blocks[bi]| && HasConstDivisor(blocks[bi][ii]) && DefsUnique(blocks)
    ensures var r := LowerAt(blocks, bi, ii, newDef, fast);
            && (forall b, k :: Replaced(blocks, r, b, k) == (b == bi && k == ii))
            && forall v :: NewName(blocks, r, v) == if v == blocks[bi][ii].dest.index then newDef else v
  {
    var r := LowerAt(blocks, bi, ii, newDef, fast);
    forall b, k | 0 <= b < |blocks| && 0 <= k < |blocks[b]| && (b != bi || k != ii)
      ensures !Replaced(blocks, r, b, k)
    {
      EraseKeepsAlu(r[b][k], blocks[b][k]);
    }
    NewNameAt(blocks, r, bi, ii);
  }

  /** The stretch of one replacement: the new vector takes the value `alloc`, every use is renamed, SSA form is kept. */
  lemma LowerAtRenames(blocks: Blocks, bi: nat, ii: nat, alloc: nat, fast: FastDiv)
    requires bi < |blocks| && ii < |blocks[bi]| && HasConstDivisor(blocks[bi][ii]) && SsaValid(blocks, alloc)
    ensures var r := LowerAt(blocks, bi, ii, alloc, fast);
            Segment(blocks, r, alloc, alloc + 1, fast) && Renamed(blocks, r, fast)
  {
    var r := LowerAt(blocks, bi, ii, alloc, fast);
    var d := blocks[bi][ii].dest.index;
    LowerAtNames(blocks, bi, ii, alloc, fast);
    forall b, k | 0 <= b < |blocks| && 0 <= k < |blocks[b]|
      ensures Outcome(blocks[b][k], r[b][k], Replaced(blocks, r, b, k), alloc, alloc + 1, fast)
      ensures RenamedAt(blocks, r, b, k, fast)
    {
      if b == bi && k == ii {
        LowerUses(blocks[bi][ii], alloc, fast);
        assert UsesOf(blocks[bi][ii])[0] == blocks[bi][ii].srcs[0].def;
        assert UsesValid(blocks[bi][ii], alloc);
      } else {
        assert RewiredFrom(blocks[b][k], r[b][k], d, alloc);
      }
    }
  }

  /** Replacing a division keeps SSA form, with one more value allocated. */
  lemma LowerAtSsa(blocks: Blocks, bi: nat, ii: nat, alloc: nat, fast: FastDiv)
    requires bi < |blocks| && ii < |blocks[bi]| && HasConstDivisor(blocks[bi][ii]) && SsaValid(blocks, alloc)
    ensures SsaValid(LowerAt(blocks, bi, ii, alloc, fast), alloc + 1)
  {
    var r := LowerAt(blocks, bi, ii, alloc, fast);
    var d := blocks[bi][ii].dest.index;
    forall b, k | 0 <= b < |r| && 0 <= k < |r[b]| && (b != bi || k != ii)
      ensures Defines(r[b][k]) == Defines(blocks[b][k])
      ensures Defines(r[b][k]) ==> r[b][k].dest.index == blocks[b][k].dest.index
    {
      EraseKeepsAlu(r[b][k], blocks[b][k]);
    }
    forall b, k | 0 <= b < |r| && 0 <= k < |r[b]|
      ensures UsesValid(r[b][k], alloc + 1)
    {
      if b == bi && k == ii {
        LowerUses(blocks[bi][ii], alloc, fast);
        assert UsesOf(blocks[bi][ii])[0] == blocks[bi][ii].srcs[0].def;
        assert UsesValid(blocks[bi][ii], alloc);
      } else {
        assert RewiredFrom(blocks[b][k], r[b][k], d, alloc);
        assert UsesValid(blocks[b][k], alloc);
      }
    }
  }

  /** What a stretch of the walk from `st` to `r` keeps: its outcomes, the renaming of uses, and SSA form. */
  ghost predicate Stretch(st: PassState, r: PassState, fast: FastDiv) {
    && Segment(st.blocks, r.blocks, st.ssaAlloc, r.ssaAlloc, fast)
    && Renamed(st.blocks, r.blocks, fast)
    && SsaValid(r.blocks, r.ssaAlloc)
  }

  lemma VisitRenames(st: PassState, bi: nat, ii: nat, minBitSize: nat, fast: FastDiv)
    requires bi < |st.blocks| && ii < |st.blocks[bi]| && AllWellFormed(st.blocks) && SsaValid(st.blocks, st.ssaAlloc)
    ensures Stretch(st, VisitInstr(st, bi, ii, minBitSize, fast), fast)
  {
    var i := st.blocks[bi][ii];
    if Lowerable(i, minBitSize) && i.srcs[1].konst.Some? {
      assert DivWellFormed(i);
      LowerAtRenames(st.blocks, bi, ii, st.ssaAlloc, fast);
      LowerAtSsa(st.blocks, bi, ii, st.ssaAlloc, fast);
    } else {
      SegmentRefl(st.blocks, st.ssaAlloc, fast);
    }
  }

  /** A step followed by a stretch is a stretch. */
  lemma StretchCompose(st: PassState, st1: PassState, r: PassState, fast: FastDiv)
    requires SsaValid(st.blocks, st.ssaAlloc) && Stretch(st, st1, fast) && Stretch(st1, r, fast)
    ensures Stretch(st, r, fast)
  {
    RenamedCompose(st.blocks, st1.blocks, r.blocks, st.ssaAlloc, st1.ssaAlloc, r.ssaAlloc, fast);
  }

  lemma {:induction false} WalkBlockRenames(st: PassState, bi: nat, ii: nat, minBitSize: nat, fast: FastDiv)
    requires bi < |st.blocks| && ii <= |st.blocks[bi]| && AllWellFormed(st.blocks) && SsaValid(st.blocks, st.ssaAlloc)
    ensures Stretch(st, WalkBlock(st, bi, ii, minBitSize, fast), fast)
    decreases |st.blocks[bi]| - ii
  {
    if ii < |st.blocks[bi]| {
      var st1 := VisitInstr(st, bi, ii, minBitSize, fast);
      var r := WalkBlock(st1, bi, ii + 1, minBitSize, fast);
      assert WalkBlock(st, bi, ii, minBitSize, fast) == r;
      VisitRenames(st, bi, ii, minBitSize, fast);
      WalkBlockRenames(st1, bi, ii + 1, minBitSize, fast);
      StretchCompose(st, st1, r, fast);
    } else {
      SegmentRefl(st.blocks, st.ssaAlloc, fast);
    }
  }

  lemma {:induction false} WalkBlocksRenames(st: PassState, bi: nat, minBitSize: nat, fast: FastDiv)
    requires bi <= |st.blocks| && AllWellFormed(st.blocks) && SsaValid(st.blocks, st.ssaAlloc)
    ensures Stretch(st, WalkBlocks(st, bi, minBitSize, fast), fast)
    decreases |st.blocks| - bi
  {
    if bi < |st.blocks| {
      forall st1: PassState | |st1.blocks| == |st.blocks| && AllWellFormed(st1.blocks)
        ensures SsaValid(st1.blocks, st1.ssaAlloc) ==> Stretch(st1, WalkBlocks(st1, bi + 1, minBitSize, fast), fast)
      {
        if SsaValid(st1.blocks, st1.ssaAlloc) {
          WalkBlocksRenames(st1, bi + 1, minBitSize, fast);
        }
      }
      WalkBlocksRenamesStep(st, bi, minBitSize, fast);
    } else {
      SegmentRefl(st.blocks, st.ssaAlloc, fast);
    }
  }

  /** One block's stretch composed with the stretch of the blocks after it. */
  lemma WalkBlocksRenamesStep(st: PassState, bi: nat, minBitSize: nat, fast: FastDiv)
    requires bi < |st.blocks| && AllWellFormed(st.blocks) && SsaValid(st.blocks, st.ssaAlloc)
    requires var st1 := WalkBlock(st, bi, 0, minBitSize, fast);
             SsaValid(st1.blocks, st1.ssaAlloc) ==> Stretch(st1, WalkBlocks(st1, bi + 1, minBitSize, fast), fast)
    ensures Stretch(st, WalkBlocks(st, bi, minBitSize, fast), fast)
  {
    var st1 := WalkBlock(st, bi, 0, minBitSize, fast);
    WalkBlockRenames(st, bi, 0, minBitSize, fast);
    StretchCompose(st, st1, WalkBlocks(st1, bi + 1, minBitSize, fast), fast);
  }

  /**
    Over the whole walk, the slots replaced are exactly the lowered divisions,
    every use is renamed as `NewName` says, and SSA form is kept with the new
    values allocated from `ssaAlloc` on.
   */
  /** The pass keeps SSA form. */
  lemma RunImplSsa(blocks: Blocks, ssaAlloc: nat, minBitSize: nat, fast: FastDiv)
    requires AllWellFormed(blocks)
    ensures var r := RunImpl(blocks, ssaAlloc, minBitSize, fast);
            SsaValid(blocks, ssaAlloc) ==> SsaValid(r.blocks, r.ssaAlloc)
  {
    if SsaValid(blocks, ssaAlloc) {
      RunImplRenames(blocks, ssaAlloc, minBitSize, fast);
    }
  }

  lemma RunImplRenames(blocks: Blocks, ssaAlloc: nat, minBitSize: nat, fast: FastDiv)
    requires AllWellFormed(blocks) && SsaValid(blocks, ssaAlloc)
    ensures var r := RunImpl(blocks, ssaAlloc, minBitSize, fast);
            && SsaValid(r.blocks, r.ssaAlloc)
            && (forall b, k :: 0 <= b < |blocks| && 0 <= k < |blocks[b]| ==>
                  Replaced(blocks, r.blocks, b, k) == Lowers(blocks[b][k], minBitSize))
            && Renamed(blocks, r.blocks, fast)
  {
    var r := RunImpl(blocks, ssaAlloc, minBitSize, fast);
    WalkBlocksRenames(PassState(blocks, ssaAlloc, false), 0, minBitSize, fast);
    RunImplFacts(blocks, ssaAlloc, minBitSize, fast);
    forall b, k | 0 <= b < |blocks| && 0 <= k < |blocks[b]|
      ensures Replaced(blocks, r.blocks, b, k) == Lowers(blocks[b][k], minBitSize)
    {
      OutcomeFlag(blocks[b][k], r.blocks[b][k], Lowers(blocks[b][k], minBitSize), ssaAlloc, r.ssaAlloc, fast);
    }
  }

  /**
    What `nir_ssa_def_rewrite_uses` achieves over the whole walk, the replaced
    slots being exactly the lowered divisions (`RunImplRenames`): the vectors
    have pairwise distinct values; a use that named a replaced division's value
    now names that division's vector; every other use is as it was, which for a
    vector means the numerator its lowering reads.
   */
  lemma RunImplRewires(blocks: Blocks, ssaAlloc: nat, minBitSize: nat, fast: FastDiv)
    requires AllWellFormed(blocks) && SsaValid(blocks, ssaAlloc)
    ensures var r := RunImpl(blocks, ssaAlloc, minBitSize, fast);
            forall b, k, b2, k2 ::
              Replaced(blocks, r.blocks, b, k) && Replaced(blocks, r.blocks, b2, k2) && (b != b2 || k != k2) ==>
                r.blocks[b][k].dest.index != r.blocks[b2][k2].dest.index
    ensures var r := RunImpl(blocks, ssaAlloc, minBitSize, fast);
            forall b, k :: 0 <= b < |blocks| && 0 <= k < |blocks[b]| ==>
              |UsesOf(r.blocks[b][k])| == |UsesOf(Before(blocks, r.blocks, b, k, fast))|
    ensures var r := RunImpl(blocks, ssaAlloc, minBitSize, fast);
            forall b, k, u, b2, k2 ::
              && 0 <= b < |blocks| && 0 <= k < |blocks[b]| && Replaced(blocks, r.blocks, b2, k2)
              && 0 <= u < |UsesOf(Before(blocks, r.blocks, b, k, fast))|
              && UsesOf(Before(blocks, r.blocks, b, k, fast))[u] == blocks[b2][k2].dest.index
              ==> UsesOf(r.blocks[b][k])[u] == r.blocks[b2][k2].dest.index
    ensures var r := RunImpl(blocks, ssaAlloc, minBitSize, fast);
            forall b, k, u ::
              && 0 <= b < |blocks| && 0 <= k < |blocks[b]|
              && 0 <= u < |UsesOf(Before(blocks, r.blocks, b, k, fast))|
              && (forall b2, k2 :: Replaced(blocks, r.blocks, b2, k2) ==>
                    blocks[b2][k2].dest.index != UsesOf(Before(blocks, r.blocks, b, k, fast))[u])
              ==> UsesOf(r.blocks[b][k])[u] == UsesOf(Before(blocks, r.blocks, b, k, fast))[u]
  {
    var r := RunImpl(blocks, ssaAlloc, minBitSize, fast);
    RunImplRenames(blocks, ssaAlloc, minBitSize, fast);
    forall b, k | 0 <= b < |blocks| && 0 <= k < |blocks[b]|
      ensures |UsesOf(r.blocks[b][k])| == |UsesOf(Before(blocks, r.blocks, b, k, fast))|
    {
      assert RenamedAt(blocks, r.blocks, b, k, fast);
    }
    forall b, k, u, b2, k2 |
      && 0 <= b < |blocks| && 0 <= k < |blocks[b]| && Replaced(blocks, r.blocks, b2, k2)
      && 0 <= u < |UsesOf(Before(blocks, r.blocks, b, k, fast))|
      && UsesOf(Before(blocks, r.blocks, b, k, fast))[u] == blocks[b2][k2].dest.index
      ensures UsesOf(r.blocks[b][k])[u] == r.blocks[b2][k2].dest.index
    {
      assert RenamedAt(blocks, r.blocks, b, k, fast);
      NewNameAt(blocks, r.blocks, b2, k2);
    }
    forall b, k, u |
      && 0 <= b < |blocks| && 0 <= k < |blocks[b]|
      && 0 <= u < |UsesOf(Before(blocks, r.blocks, b, k, fast))|
      && (forall b2, k2 :: Replaced(blocks, r.blocks, b2, k2) ==>
            blocks[b2][k2].dest.index != UsesOf(Before(blocks, r.blocks, b, k, fast))[u])
      ensures UsesOf(r.blocks[b][k])[u] == UsesOf(Before(blocks, r.blocks, b, k, fast))[u]
    {
      assert RenamedAt(blocks, r.blocks, b, k, fast);
      NewNameKept(blocks, r.blocks, UsesOf(Before(blocks, r.blocks, b, k, fast))[u]);
    }
  }

  // ---------------------------------------------------------------------
  // Nothing to lower, nothing changes
  // ---------------------------------------------------------------------

  lemma {:induction false} WalkBlockNoLowers(st: PassState, bi: nat, ii: nat, minBitSize: nat, fast: FastDiv)
    requires bi < |st.blocks| && ii <= |st.blocks[bi]| && AllWellFormed(st.blocks)
    requires forall k :: ii <= k < |st.blocks[bi]| ==> !Lowers(st.blocks[bi][k], minBitSize)
    ensures WalkBlock(st, bi, ii, minBitSize, fast) == st
    decreases |st.blocks[bi]| - ii
  {
    if ii < |st.blocks[bi]| {
      assert VisitInstr(st, bi, ii, minBitSize, fast) == st;
      WalkBlockNoLowers(st, bi, ii + 1, minBitSize, fast);
    }
  }

  lemma {:induction false} WalkBlocksNoLowers(st: PassState, bi: nat, minBitSize: nat, fast: FastDiv)
    requires bi <= |st.blocks| && AllWellFormed(st.blocks)
    requires forall b, k :: bi <= b < |st.blocks| && 0 <= k < |st.blocks[b]| ==> !Lowers(st.blocks[b][k], minBitSize)
    ensures WalkBlocks(st, bi, minBitSize, fast) == st
    decreases |st.blocks| - bi
  {
    if bi < |st.blocks| {
      WalkBlocksNoLowers(st, bi + 1, minBitSize, fast);
      WalkBlocksKept(st, bi, minBitSize, fast);
    }
  }

  /** A block with nothing to lower, followed by blocks the walk leaves alone, is left alone. */
  lemma WalkBlocksKept(st: PassState, bi: nat, minBitSize: nat, fast: FastDiv)
    requires bi < |st.blocks| && AllWellFormed(st.blocks)
    requires forall k :: 0 <= k < |st.blocks[bi]| ==> !Lowers(st.blocks[bi][k], minBitSize)
    requires WalkBlocks(st, bi + 1, minBitSize, fast) == st
    ensures WalkBlocks(st, bi, minBitSize, fast) == st
  {
    WalkBlockNoLowers(st, bi, 0, minBitSize, fast);
  }

  /** An implementation with no filtered division by a constant is left as it is, without progress. */
  lemma RunImplNoLowers(blocks: Blocks, ssaAlloc: nat, minBitSize: nat, fast: FastDiv)
    requires AllWellFormed(blocks)
    requires forall b, k :: 0 <= b < |blocks| && 0 <= k < |blocks[b]| ==> !Lowers(blocks[b][k], minBitSize)
    ensures RunImpl(blocks, ssaAlloc, minBitSize, fast) == PassState(blocks, ssaAlloc, false)
  {
    WalkBlocksNoLowers(PassState(blocks, ssaAlloc, false), 0, minBitSize, fast);
  }

  /** Running the pass a second time makes no progress and changes nothing. */
  lemma RunImplIdempotent(blocks: Blocks, ssaAlloc: nat, minBitSize: nat, fast: FastDiv)
    requires AllWellFormed(blocks)
    ensures var r := RunImpl(blocks, ssaAlloc, minBitSize, fast);
            RunImpl(r.blocks, r.ssaAlloc, minBitSize, fast) == PassState(r.blocks, r.ssaAlloc, false)
  {
    var r := RunImpl(blocks, ssaAlloc, minBitSize, fast);
    RunImplFacts(blocks, ssaAlloc, minBitSize, fast);
    forall b, k | 0 <= b < |r.blocks| && 0 <= k < |r.blocks[b]|
      ensures !Lowers(r.blocks[b][k], minBitSize)
    {
      if !Lowers(blocks[b][k], minBitSize) {
        LowersErase(r.blocks[b][k], blocks[b][k], minBitSize);
      }
    }
    RunImplNoLowers(r.blocks, r.ssaAlloc, minBitSize, fast);
  }

  // ---------------------------------------------------------------------
  // The imperative drivers
  // ---------------------------------------------------------------------

  /**
    The divisor lane as `nir_opt_idiv_const_instr` reads it into an `int64_t`:
    the member of the constant that the bit size selects, sign-extended, then
    masked back to the bit size when the opcode's divisor is unsigned.
   */
  method ReadDivisor(op: AluOp, bitSize: nat, raw: nat) returns (d: int)
    requires ValidBitSize(bitSize)
    ensures d == DivisorValue(op, bitSize, raw)
    ensures !DivisorIsUnsigned(op) ==>
      -Pow2(bitSize - 1) <= d < Pow2(bitSize - 1) && d % Pow2(bitSize) == raw % Pow2(bitSize)
    ensures DivisorIsUnsigned(op) ==> Wrap(64, d) == raw % Pow2(bitSize)
  {
    ValidBitSizeCases(bitSize);
    d := ToSigned(bitSize, raw);
    if DivisorIsUnsigned(op) {
      if bitSize < 64 {
        d := And(Wrap(64, d), Pow2(bitSize) - 1);
      }
      UnsignedDivisor(op, bitSize, raw);
    }
  }

  /** A `nir_function_impl`: its blocks, its SSA index counter and its valid metadata. */
  class Impl {
    var blocks: Blocks
    var ssaAlloc: nat
    var validMetadata: set<Metadata>

    constructor (blocks: Blocks, ssaAlloc: nat, validMetadata: set<Metadata>)
      ensures this.blocks == blocks && this.ssaAlloc == ssaAlloc && this.validMetadata == validMetadata
    {
      this.blocks := blocks;
      this.ssaAlloc := ssaAlloc;
      this.validMetadata := validMetadata;
    }

    /** One iteration of the component loop of `nir_opt_idiv_const_instr`: lane `comp` of the division, built. */
    static method BuildLane(alu: Instr, comp: nat, fast: FastDiv) returns (lane: Expr)
      requires HasConstDivisor(alu) && comp < alu.dest.numComponents
      ensures lane == LaneOf(alu, comp, fast)
    {
      var n := Chan(alu.srcs[0].def, alu.srcs[0].bitSize, alu.srcs[0].swizzle[comp]);
      var raw := alu.srcs[1].konst.value[alu.srcs[1].swizzle[comp]];
      var d := ReadDivisor(alu.op, alu.srcs[1].bitSize, raw);
      if alu.op == Udiv {
        lane := BuildUdiv(n, Wrap(64, d), fast);
      } else if alu.op == Idiv {
        lane := BuildIdiv(n, d, fast);
      } else {
        lane := BuildUmod(n, Wrap(64, d), fast);
      }
    }

    /**
      The component loop of `nir_opt_idiv_const_instr`: each lane is built into
      `q`, and the vector of the first `num_components` of them is the result.
     */
    static method BuildVec(alu: Instr, newDef: nat, fast: FastDiv) returns (qvec: Instr)
      requires HasConstDivisor(alu)
      ensures qvec == LowerInstr(alu, newDef, fast)
    {
      var nc := alu.dest.numComponents;
      var q := new Expr[4];
      var comp := 0;
      while comp < nc
        invariant comp <= nc
        invariant forall c :: 0 <= c < comp ==> q[c] == LaneOf(alu, c, fast)
      {
        var lane := BuildLane(alu, comp, fast);
        q[comp] := lane;
        comp := comp + 1;
      }
      qvec := Vec(SsaDef(newDef, alu.dest.bitSize, nc), q[..nc]);
    }

    /**
      `nir_opt_idiv_const_instr`: without a constant divisor nothing changes and
      the result is false; otherwise the division at (bi, ii) is replaced as
      `LowerAt` says, one new SSA index is used, and the result is true.
     */
    method OptInstr(bi: nat, ii: nat, fast: FastDiv) returns (progress: bool)
      requires bi < |blocks| && ii < |blocks[bi]|
      requires blocks[bi][ii].Alu? && IsDivOp(blocks[bi][ii].op) && DivWellFormed(blocks[bi][ii])
      modifies this
      ensures progress == old(blocks[bi][ii]).srcs[1].konst.Some?
      ensures progress ==> blocks == LowerAt(old(blocks), bi, ii, old(ssaAlloc), fast) && ssaAlloc == old(ssaAlloc) + 1
      ensures !progress ==> blocks == old(blocks) && ssaAlloc == old(ssaAlloc)
      ensures SsaValid(old(blocks), old(ssaAlloc)) ==> SsaValid(blocks, ssaAlloc)
      ensures validMetadata == old(validMetadata)
    {
      var alu := blocks[bi][ii];
      var konst := alu.srcs[1].konst;
      if konst.None? {
        return false;
      }
      assert HasConstDivisor(alu);
      if SsaValid(blocks, ssaAlloc) {
        LowerAtSsa(blocks, bi, ii, ssaAlloc, fast);
      }
      var qvec := BuildVec(alu, ssaAlloc, fast);
      var rewired := RelabelBlocks(blocks, Rewire(alu.dest.index, ssaAlloc));
      assert |rewired[bi]| == |blocks[bi]|;
      blocks := rewired[bi := rewired[bi][ii := qvec]];
      ssaAlloc := ssaAlloc + 1;
      return true;
    }

    /**
      One iteration of the inner loop of `nir_opt_idiv_const_impl`: an ALU
      `udiv`, `idiv` or `umod` of at least `minBitSize` bits goes to
      `nir_opt_idiv_const_instr`, and the state ends as `VisitInstr` says.
     */
    method OptVisit(bi: nat, ii: nat, minBitSize: nat, fast: FastDiv, progressIn: bool) returns (progress: bool)
      requires bi < |blocks| && ii < |blocks[bi]| && AllWellFormed(blocks)
      modifies this
      ensures PassState(blocks, ssaAlloc, progress) == VisitInstr(PassState(old(blocks), old(ssaAlloc), progressIn), bi, ii, minBitSize, fast)
      ensures validMetadata == old(validMetadata)
    {
      progress := progressIn;
      var instr := blocks[bi][ii];
      if instr.Alu? && IsDivOp(instr.op) && instr.dest.bitSize >= minBitSize {
        var p := OptInstr(bi, ii, fast);
        progress := progress || p;
      }
    }

    /**
      The inner loop of `nir_opt_idiv_const_impl`, over the instructions of block
      `bi`: the IR, the SSA counter and the progress flag end as `WalkBlock` says.
     */
    method OptBlock(bi: nat, minBitSize: nat, fast: FastDiv, progressIn: bool) returns (progress: bool)
      requires bi < |blocks| && AllWellFormed(blocks)
      modifies this
      ensures PassState(blocks, ssaAlloc, progress) == WalkBlock(PassState(old(blocks), old(ssaAlloc), progressIn), bi, 0, minBitSize, fast)
      ensures SsaValid(old(blocks), old(ssaAlloc)) ==> SsaValid(blocks, ssaAlloc)
      ensures validMetadata == old(validMetadata)
    {
      ghost var target := WalkBlock(PassState(blocks, ssaAlloc, progressIn), bi, 0, minBitSize, fast);
      ghost var numBlocks := |blocks|;
      ghost var blockLen := |blocks[bi]|;
      progress := progressIn;
      var ii := 0;
      while ii < |blocks[bi]|
        invariant |blocks| == numBlocks && |blocks[bi]| == blockLen && ii <= blockLen && AllWellFormed(blocks)
        invariant WalkBlock(PassState(blocks, ssaAlloc, progress), bi, ii, minBitSize, fast) == target
        invariant validMetadata == old(validMetadata)
        decreases blockLen - ii
      {
        ghost var st := PassState(blocks, ssaAlloc, progress);
        assert WalkBlock(st, bi, ii, minBitSize, fast) == WalkBlock(VisitInstr(st, bi, ii, minBitSize, fast), bi, ii + 1, minBitSize, fast);
        progress := OptVisit(bi, ii, minBitSize, fast, progress);
        ii := ii + 1;
      }
      if SsaValid(old(blocks), old(ssaAlloc)) {
        assert SsaValid(target.blocks, target.ssaAlloc) by {
          WalkBlockRenames(PassState(old(blocks), old(ssaAlloc), progressIn), bi, 0, minBitSize, fast);
        }
      }
    }

    /**
      `nir_opt_idiv_const_impl`: the loops over blocks and instructions compute
      `RunImpl`; the valid metadata is cut down to block indices and dominance on
      progress and kept otherwise.
     */
    method OptImpl(minBitSize: nat, fast: FastDiv) returns (progress: bool)
      requires AllWellFormed(blocks)
      modifies this
      ensures var r := RunImpl(old(blocks), old(ssaAlloc), minBitSize, fast);
              blocks == r.blocks && ssaAlloc == r.ssaAlloc && progress == r.progress
      ensures validMetadata == old(validMetadata) * (if progress then {BlockIndex, Dominance} else AllMetadata)
      ensures !progress ==> validMetadata == old(validMetadata)
      ensures SsaValid(old(blocks), old(ssaAlloc)) ==> SsaValid(blocks, ssaAlloc)
    {
      ghost var target := RunImpl(blocks, ssaAlloc, minBitSize, fast);
      RunImplSsa(blocks, ssaAlloc, minBitSize, fast);
      ghost var numBlocks := |blocks|;
      progress := false;
      var bi := 0;
      while bi < |blocks|
        invariant |blocks| == numBlocks && bi <= |blocks| && AllWellFormed(blocks)
        invariant WalkBlocks(PassState(blocks, ssaAlloc, progress), bi, minBitSize, fast) == target
        invariant validMetadata == old(validMetadata)
        decreases numBlocks - bi
      {
        ghost var st := PassState(blocks, ssaAlloc, progress);
        assert WalkBlocks(st, bi, minBitSize, fast) == WalkBlocks(WalkBlock(st, bi, 0, minBitSize, fast), bi + 1, minBitSize, fast);
        progress := OptBlock(bi, minBitSize, fast, progress);
        bi := bi + 1;
      }
      AllMetadataUnit(validMetadata);
      validMetadata := validMetadata * (if progress then {BlockIndex, Dominance} else AllMetadata);
    }
  }

  /** A `nir_function`: a name and, unless it is only declared, an implementation. */
  datatype Function = Function(name: string, impl: Option<Impl>)

  function Impls(shader: seq<Function>): set<Impl> {
    set i | 0 <= i < |shader| && shader[i].impl.Some? :: shader[i].impl.value
  }

  /** No two functions share an implementation. */
  predicate DistinctImpls(shader: seq<Function>) {
    forall i, j :: 0 <= i < j < |shader| && shader[i].impl.Some? && shader[j].impl.Some? ==>
      shader[i].impl.value != shader[j].impl.value
  }

  /** `f` holds what `OptImpl` leaves after running on `blocks`, `ssaAlloc` and the valid metadata `valid`. */
  ghost predicate ImplDone(f: Impl, blocks: Blocks, ssaAlloc: nat, valid: set<Metadata>, minBitSize: nat, fast: FastDiv)
    requires AllWellFormed(blocks)
    reads f
  {
    var r := RunImpl(blocks, ssaAlloc, minBitSize, fast);
    && f.blocks == r.blocks && f.ssaAlloc == r.ssaAlloc
    && f.validMetadata == valid * (if r.progress then {BlockIndex, Dominance} else AllMetadata)
  }

  /**
    `nir_opt_idiv_const`: every implementation is rewritten as `RunImpl` says,
    with its metadata cut down as `OptImpl` says, and the result is true exactly
    when some implementation made progress.
   */
  method OptIdivConst(shader: seq<Function>, minBitSize: nat, fast: FastDiv) returns (progress: bool)
    requires DistinctImpls(shader)
    requires forall i :: 0 <= i < |shader| && shader[i].impl.Some? ==> AllWellFormed(shader[i].impl.value.blocks)
    modifies Impls(shader)
    ensures forall i :: 0 <= i < |shader| && shader[i].impl.Some? ==>
              var f := shader[i].impl.value;
              ImplDone(f, old(f.blocks), old(f.ssaAlloc), old(f.validMetadata), minBitSize, fast)
    ensures progress == (exists i :: 0 <= i < |shader| && shader[i].impl.Some? &&
                           RunImpl(old(shader[i].impl.value.blocks), old(shader[i].impl.value.ssaAlloc), minBitSize, fast).progress)
  {
    progress := false;
    var i := 0;
    while i < |shader|
      invariant i <= |shader|
      invariant forall j :: i <= j < |shader| && shader[j].impl.Some? ==>
                  var f := shader[j].impl.value;
                  f.blocks == old(f.blocks) && f.ssaAlloc == old(f.ssaAlloc) && f.validMetadata == old(f.validMetadata)
      invariant forall j :: 0 <= j < i && shader[j].impl.Some? ==>
                  var f := shader[j].impl.value;
                  ImplDone(f, old(f.blocks), old(f.ssaAlloc), old(f.validMetadata), minBitSize, fast)
      invariant progress == (exists j :: 0 <= j < i && shader[j].impl.Some? &&
                               RunImpl(old(shader[j].impl.value.blocks), old(shader[j].impl.value.ssaAlloc), minBitSize, fast).progress)
    {
      if shader[i].impl.Some? {
        var f := shader[i].impl.value;
        ghost var blocks0, alloc0, valid0 := f.blocks, f.ssaAlloc, f.validMetadata;
        var p := f.OptImpl(minBitSize, fast);
        assert ImplDone(f, blocks0, alloc0, valid0, minBitSize, fast);
        assert p == RunImpl(blocks0, alloc0, minBitSize, fast).progress;
        assert forall j :: 0 <= j < |shader| && j != i && shader[j].impl.Some? ==> shader[j].impl.value != f;
        progress := progress || p;
      }
      i := i + 1;
    }
  }
}
