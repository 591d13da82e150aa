/** The must-defined analysis behind DetectUninitializedCalleeSavedRegisters of
    core/register_tracker.cc: a forward intersection fixpoint over the blocks, shown to report exactly
    the callee-saved registers that some path reads before writing. */
module MustDefined {
  import opened Mips
  import opened Sets
  import opened UseDefs
  import opened Blocks
  import opened Reachability
  import opened Wrappers

  predicate IsCalleeSaved(r: Register) { 16 <= r <= 23 || r == FP }

  /** $zero, the arguments, $gp, $sp and $ra are defined on entry. */
  const INITIALLY_DEFINED: set<Register> := {ZERO, A0, A1, A2, A3, GP, SP, RA}

  predicate IsStackSpill(inst: Instruction, r: Register) {
    && (inst.opcode.Sw? || inst.opcode.Sd?)
    && (inst.rs == Some(SP) || inst.rs == Some(FP))
    && inst.rt == Some(r)
  }

  function AsSet(regs: seq<Register>): set<Register> { set r | r in regs }

  /** Everything a list of instructions writes. */
  function WrittenBy(insts: seq<Instruction>): set<Register> {
    if insts == [] then {}
    else WrittenBy(insts[..|insts| - 1]) + AsSet(GetInstructionUseDef(insts[|insts| - 1]).gprDefs)
  }

  lemma {:induction false} WrittenByMembers(insts: seq<Instruction>, r: Register)
    ensures r in WrittenBy(insts) <==>
              exists i :: 0 <= i < |insts| && r in GetInstructionUseDef(insts[i]).gprDefs
  {
    hide GetInstructionUseDef;
    if insts != [] {
      WrittenByMembers(insts[..|insts| - 1], r);
    }
  }

  // ----- The equations -----

  function AllRegisters(): set<Register> { RegistersFrom(0) }

  lemma EveryRegister(r: Register)
    ensures r in AllRegisters()
  {
    RegistersFromAre(0);
  }

  predicate Bounded(list: seq<nat>, n: nat) {
    forall i :: 0 <= i < |list| ==> list[i] < n
  }

  /** Registers defined at the end of every listed block. */
  function Meet(preds: seq<nat>, out: seq<set<Register>>): set<Register>
    requires Bounded(preds, |out|)
  {
    if preds == [] then AllRegisters() else Meet(preds[..|preds| - 1], out) * out[preds[|preds| - 1]]
  }

  lemma {:induction false} MeetMembers(preds: seq<nat>, out: seq<set<Register>>, r: Register)
    requires Bounded(preds, |out|)
    ensures r in Meet(preds, out) <==> forall i :: 0 <= i < |preds| ==> r in out[preds[i]]
  {
    if preds == [] {
      EveryRegister(r);
    } else {
      var front, last := preds[..|preds| - 1], preds[|preds| - 1];
      MeetMembers(front, out, r);
      assert preds == front + [last];
    }
  }

  ghost predicate IsGraph(preds: seq<seq<nat>>) {
    forall v :: 0 <= v < |preds| ==> Bounded(preds[v], |preds|)
  }

  /** What flows into block b: the entry definitions at block 0, nothing into any other block without
      predecessors. */
  function Inflow(preds: seq<seq<nat>>, out: seq<set<Register>>, b: nat): set<Register>
    requires IsGraph(preds) && |out| == |preds| && b < |preds|
  {
    if b == 0 then INITIALLY_DEFINED
    else if preds[b] == [] then {}
    else Meet(preds[b], out)
  }

  /** A root of the analysis: block 0, or a block nothing leads to. */
  predicate IsRoot(preds: seq<seq<nat>>, b: nat)
    requires b < |preds|
  {
    b == 0 || preds[b] == []
  }

  /** A walk from a root that never writes r before its last block. */
  ghost predicate UnwrittenWalk(preds: seq<seq<nat>>, gen: seq<set<Register>>, r: Register, q: seq<nat>)
    requires |gen| == |preds|
  {
    && |q| > 0 && (forall i :: 0 <= i < |q| ==> q[i] < |preds|)
    && IsRoot(preds, q[0])
    && forall i :: 0 <= i < |q| - 1 ==> q[i] in preds[q[i + 1]] && r !in gen[q[i]]
  }

  ghost predicate UnwrittenAt(preds: seq<seq<nat>>, gen: seq<set<Register>>, r: Register, b: nat)
    requires |gen| == |preds|
  {
    exists q :: UnwrittenWalk(preds, gen, r, q) && q[|q| - 1] == b
  }

  lemma RootUnwritten(preds: seq<seq<nat>>, gen: seq<set<Register>>, r: Register, b: nat)
    requires |gen| == |preds| && b < |preds| && IsRoot(preds, b)
    ensures UnwrittenAt(preds, gen, r, b)
  {
    assert UnwrittenWalk(preds, gen, r, [b]) && [b][|[b]| - 1] == b;
  }

  lemma UnwrittenStep(preds: seq<seq<nat>>, gen: seq<set<Register>>, r: Register, p: nat, b: nat)
    requires |gen| == |preds| && b < |preds| && p in preds[b] && p < |preds|
    requires UnwrittenAt(preds, gen, r, p) && r !in gen[p]
    ensures UnwrittenAt(preds, gen, r, b)
  {
    var q :| UnwrittenWalk(preds, gen, r, q) && q[|q| - 1] == p;
    var q' := q + [b];
    assert UnwrittenWalk(preds, gen, r, q') && q'[|q'| - 1] == b;
  }

  // ----- Invariants of the iteration -----

  /** Lost registers are lost for a reason. */
  ghost predicate Justified(
    preds: seq<seq<nat>>, gen: seq<set<Register>>, out: seq<set<Register>>)
    requires |gen| == |out| == |preds|
  {
    forall b: nat, r: Register {:trigger r in out[b]} ::
      b < |preds| && r !in INITIALLY_DEFINED && r !in out[b] ==> UnwrittenAt(preds, gen, r, b) && r !in gen[b]
  }

  /** Recomputing any block can only shrink its out set. */
  ghost predicate OutShrinks(preds: seq<seq<nat>>, gen: seq<set<Register>>, out: seq<set<Register>>)
    requires IsGraph(preds) && |gen| == |out| == |preds|
  {
    forall b: nat {:trigger out[b]} :: b < |preds| ==> Inflow(preds, out, b) + gen[b] <= out[b]
  }

  /** Recomputing any of the first n blocks can only shrink its in set. */
  ghost predicate InShrinks(preds: seq<seq<nat>>, ins: seq<set<Register>>, out: seq<set<Register>>, n: nat)
    requires IsGraph(preds) && |ins| == |out| == |preds| && n <= |preds|
  {
    forall b: nat {:trigger ins[b]} :: b < n ==> Inflow(preds, out, b) <= ins[b]
  }

  ghost predicate SolvedAt(
    preds: seq<seq<nat>>, gen: seq<set<Register>>, ins: seq<set<Register>>, out: seq<set<Register>>, b: nat)
    requires IsGraph(preds) && |gen| == |ins| == |out| == |preds| && b < |preds|
  {
    ins[b] == Inflow(preds, out, b) && out[b] == ins[b] + gen[b]
  }

  lemma InflowMonotone(preds: seq<seq<nat>>, small: seq<set<Register>>, big: seq<set<Register>>, b: nat)
    requires IsGraph(preds) && |small| == |big| == |preds| && b < |preds|
    requires forall i: nat :: i < |preds| ==> small[i] <= big[i]
    ensures Inflow(preds, small, b) <= Inflow(preds, big, b)
  {
    forall r: Register | r in Inflow(preds, small, b) ensures r in Inflow(preds, big, b) {
      MeetMembers(preds[b], small, r);
      MeetMembers(preds[b], big, r);
    }
    hide Meet;
  }

  /** After storing a recomputed out set, the invariants still hold. */
  lemma UpdateKeeps(
    preds: seq<seq<nat>>, gen: seq<set<Register>>, out: seq<set<Register>>, b: nat)
    requires IsGraph(preds) && |gen| == |out| == |preds| && b < |preds|
    requires Justified(preds, gen, out) && OutShrinks(preds, gen, out)
    ensures var out' := out[b := Inflow(preds, out, b) + gen[b]];
            Justified(preds, gen, out') && OutShrinks(preds, gen, out')
    ensures var out' := out[b := Inflow(preds, out, b) + gen[b]];
            forall i: nat :: i < |preds| ==> out'[i] <= out[i]
  {
    var inflow := Inflow(preds, out, b);
    var out' := out[b := inflow + gen[b]];
    forall r: Register | r !in INITIALLY_DEFINED && r !in out'[b]
      ensures UnwrittenAt(preds, gen, r, b) && r !in gen[b]
    {
      LostInflow(preds, gen, out, r, b);
    }
    forall c: nat | c < |preds| ensures Inflow(preds, out', c) + gen[c] <= out'[c] {
      InflowMonotone(preds, out', out, c);
      assert Inflow(preds, out, c) + gen[c] <= out[c];
    }
    hide Inflow, UnwrittenAt;
  }

  lemma LostInflow(preds: seq<seq<nat>>, gen: seq<set<Register>>, out: seq<set<Register>>, r: Register, b: nat)
    requires IsGraph(preds) && |gen| == |out| == |preds| && b < |preds|
    requires Justified(preds, gen, out)
    requires r !in INITIALLY_DEFINED && r !in Inflow(preds, out, b)
    ensures UnwrittenAt(preds, gen, r, b)
  {
    hide UnwrittenAt, Meet;
    if IsRoot(preds, b) {
      RootUnwritten(preds, gen, r, b);
    } else {
      MeetMembers(preds[b], out, r);
      var i :| 0 <= i < |preds[b]| && r !in out[preds[b][i]];
      UnwrittenStep(preds, gen, r, preds[b][i], b);
    }
  }

  // ----- Termination -----

  ghost function Total(sets: seq<set<Register>>): nat {
    if sets == [] then 0 else Total(sets[..|sets| - 1]) + |sets[|sets| - 1]|
  }

  lemma {:induction false} TotalShrinks(small: seq<set<Register>>, big: seq<set<Register>>)
    requires |small| == |big|
    requires forall i :: 0 <= i < |small| ==> small[i] <= big[i]
    ensures Total(small) <= Total(big)
    ensures small != big ==> Total(small) < Total(big)
  {
    if small != [] {
      var n := |small| - 1;
      TotalShrinks(small[..n], big[..n]);
      SubsetSize(small[n], big[n]);
      assert small == small[..n] + [small[n]] && big == big[..n] + [big[n]];
    }
  }

  // ----- The iteration -----

  method MeetBlocks(preds: seq<nat>, out: seq<set<Register>>) returns (m: set<Register>)
    requires Bounded(preds, |out|)
    ensures m == Meet(preds, out)
  {
    m := AllRegisters();
    for i := 0 to |preds|
      invariant m == Meet(preds[..i], out)
    {
      assert preds[..i + 1][..i] == preds[..i];
      m := m * out[preds[i]];
    }
    assert preds[..|preds|] == preds;
  }

  method InflowOf(preds: seq<seq<nat>>, out: seq<set<Register>>, b: nat) returns (m: set<Register>)
    requires IsGraph(preds) && |out| == |preds| && b < |preds|
    ensures m == Inflow(preds, out, b)
  {
    m := {};
    if b == 0 {
      m := INITIALLY_DEFINED;
    } else if preds[b] != [] {
      m := MeetBlocks(preds[b], out);
    }
  }

  method DefinedAfter(insts: seq<Instruction>, before: set<Register>) returns (defs: set<Register>)
    ensures defs == before + WrittenBy(insts)
  {
    hide GetInstructionUseDef;
    defs := before;
    for i := 0 to |insts|
      invariant defs == before + WrittenBy(insts[..i])
    {
      assert insts[..i + 1][..i] == insts[..i];
      defs := defs + AsSet(GetInstructionUseDef(insts[i]).gprDefs);
    }
    assert insts[..|insts|] == insts;
  }

  ghost function BlockWrites(blocks: seq<BasicBlock>): (gen: seq<set<Register>>)
    ensures |gen| == |blocks|
  {
    seq(|blocks|, b requires 0 <= b < |blocks| => WrittenBy(blocks[b].instructions))
  }

  ghost predicate SweepInv(
    preds: seq<seq<nat>>, gen: seq<set<Register>>, ins0: seq<set<Register>>, out0: seq<set<Register>>,
    ins: seq<set<Register>>, out: seq<set<Register>>, changed: bool, b: nat)
    requires IsGraph(preds) && |gen| == |ins0| == |out0| == |preds|
  {
    && |ins| == |out| == |preds| && b <= |preds|
    && Justified(preds, gen, out) && OutShrinks(preds, gen, out) && InShrinks(preds, ins, out, b)
    && (forall c :: 0 <= c < |preds| ==> out[c] <= out0[c])
    && (forall c :: b <= c < |preds| ==> ins[c] == ins0[c])
    && (InShrinks(preds, ins0, out0, |preds|) ==> forall c :: 0 <= c < |preds| ==> ins[c] <= ins0[c])
    && (!changed ==> ins == ins0 && out == out0)
    && (!changed ==> forall c: nat :: c < b ==> SolvedAt(preds, gen, ins, out, c))
    && (changed ==> exists c :: 0 <= c < b && (ins[c] != ins0[c] || out[c] != out0[c]))
  }

  lemma SweepStep(
    preds: seq<seq<nat>>, gen: seq<set<Register>>, ins0: seq<set<Register>>, out0: seq<set<Register>>,
    ins: seq<set<Register>>, out: seq<set<Register>>, changed: bool, b: nat)
    requires IsGraph(preds) && |gen| == |ins0| == |out0| == |preds| && b < |preds|
    requires SweepInv(preds, gen, ins0, out0, ins, out, changed, b)
    requires forall c :: b <= c < |preds| ==> out[c] == out0[c]
    ensures var ins' := ins[b := Inflow(preds, out, b)];
            var out' := out[b := Inflow(preds, out, b) + gen[b]];
            SweepInv(preds, gen, ins0, out0, ins', out', changed || ins' != ins || out' != out, b + 1)
  {
    var inflow := Inflow(preds, out, b);
    var ins', out' := ins[b := inflow], out[b := inflow + gen[b]];
    UpdateKeeps(preds, gen, out, b);
    forall c: nat | c < b + 1 ensures Inflow(preds, out', c) <= ins'[c] {
      InflowMonotone(preds, out', out, c);
      assert c < b ==> Inflow(preds, out, c) <= ins[c];
    }
    if InShrinks(preds, ins0, out0, |preds|) {
      InflowMonotone(preds, out, out0, b);
      assert Inflow(preds, out0, b) <= ins0[b];
    }
    SweepChange(preds, gen, ins0, out0, ins, out, changed, b);
    hide Inflow, Justified, OutShrinks, SolvedAt;
  }

  lemma SweepChange(
    preds: seq<seq<nat>>, gen: seq<set<Register>>, ins0: seq<set<Register>>, out0: seq<set<Register>>,
    ins: seq<set<Register>>, out: seq<set<Register>>, changed: bool, b: nat)
    requires IsGraph(preds) && |gen| == |ins0| == |out0| == |preds| && b < |preds|
    requires SweepInv(preds, gen, ins0, out0, ins, out, changed, b)
    requires forall c :: b <= c < |preds| ==> out[c] == out0[c]
    ensures var ins' := ins[b := Inflow(preds, out, b)];
            var out' := out[b := Inflow(preds, out, b) + gen[b]];
            if changed || ins' != ins || out' != out
            then exists c :: 0 <= c < b + 1 && (ins'[c] != ins0[c] || out'[c] != out0[c])
            else ins' == ins && out' == out && forall c: nat :: c < b + 1 ==> SolvedAt(preds, gen, ins', out', c)
  {
    hide Inflow, Justified, OutShrinks;
    var ins' := ins[b := Inflow(preds, out, b)];
    var out' := out[b := Inflow(preds, out, b) + gen[b]];
    if changed {
      var c :| 0 <= c < b && (ins[c] != ins0[c] || out[c] != out0[c]);
      assert ins'[c] == ins[c] && out'[c] == out[c];
    } else if ins' != ins || out' != out {
      assert ins'[b] != ins0[b] || out'[b] != out0[b];
    }
  }

  /** One pass of the while loop over all blocks. */
  method Sweep(
    blocks: seq<BasicBlock>, preds: seq<seq<nat>>, ins0: seq<set<Register>>, out0: seq<set<Register>>)
    returns (ins: seq<set<Register>>, out: seq<set<Register>>, changed: bool)
    requires IsGraph(preds) && |blocks| == |ins0| == |out0| == |preds|
    requires Justified(preds, BlockWrites(blocks), out0) && OutShrinks(preds, BlockWrites(blocks), out0)
    ensures SweepInv(preds, BlockWrites(blocks), ins0, out0, ins, out, changed, |preds|)
  {
    hide Inflow, Justified, OutShrinks, SolvedAt, WrittenBy, SweepInv;
    ins, out, changed := ins0, out0, false;
    ghost var gen := BlockWrites(blocks);
    SweepStart(preds, gen, ins0, out0);
    for b := 0 to |preds|
      invariant |ins| == |out| == |preds|
      invariant SweepInv(preds, gen, ins0, out0, ins, out, changed, b)
      invariant forall c :: b <= c < |preds| ==> out[c] == out0[c]
    {
      SweepStep(preds, gen, ins0, out0, ins, out, changed, b);
      ghost var ins1, out1 := ins, out;
      var currIn := InflowOf(preds, out, b);
      var was := changed;
      if currIn != ins[b] {
        ins := ins[b := currIn];
        changed := true;
      }
      var defs := DefinedAfter(blocks[b].instructions, ins[b]);
      if defs != out[b] {
        out := out[b := defs];
        changed := true;
      }
      assert ins == ins1[b := currIn] && out == out1[b := currIn + gen[b]];
      assert changed == (was || ins != ins1 || out != out1);
    }
  }

  lemma SweepStart(
    preds: seq<seq<nat>>, gen: seq<set<Register>>, ins0: seq<set<Register>>, out0: seq<set<Register>>)
    requires IsGraph(preds) && |gen| == |ins0| == |out0| == |preds|
    requires Justified(preds, gen, out0) && OutShrinks(preds, gen, out0)
    ensures SweepInv(preds, gen, ins0, out0, ins0, out0, false, 0)
  {
    hide Inflow, Justified, OutShrinks;
  }

  /** All blocks satisfy their equations. */
  ghost predicate Solved(
    preds: seq<seq<nat>>, gen: seq<set<Register>>, ins: seq<set<Register>>, out: seq<set<Register>>)
  {
    && IsGraph(preds) && |gen| == |ins| == |out| == |preds|
    && forall b: nat :: b < |preds| ==> SolvedAt(preds, gen, ins, out, b)
  }

  lemma SweepProgress(
    preds: seq<seq<nat>>, gen: seq<set<Register>>, ins0: seq<set<Register>>, out0: seq<set<Register>>,
    ins: seq<set<Register>>, out: seq<set<Register>>, changed: bool)
    requires IsGraph(preds) && |gen| == |ins0| == |out0| == |preds|
    requires SweepInv(preds, gen, ins0, out0, ins, out, changed, |preds|)
    ensures InShrinks(preds, ins0, out0, |preds|) && changed ==>
              Total(ins) + Total(out) < Total(ins0) + Total(out0)
    ensures !changed ==> ins == ins0 && out == out0 && Solved(preds, gen, ins, out)
  {
    hide Inflow, Justified, OutShrinks;
    if InShrinks(preds, ins0, out0, |preds|) {
      TotalShrinks(ins, ins0);
      TotalShrinks(out, out0);
    }
    hide Total, SolvedAt;
  }

  /** The while (changed) loop. */
  method Iterate(blocks: seq<BasicBlock>, preds: seq<seq<nat>>)
    returns (ins: seq<set<Register>>, outDefs: seq<set<Register>>)
    requires IsGraph(preds) && |blocks| == |preds| > 0
    ensures Solved(preds, BlockWrites(blocks), ins, outDefs)
    ensures Justified(preds, BlockWrites(blocks), outDefs)
  {
    hide Inflow, Justified, OutShrinks, SolvedAt, WrittenBy, SweepInv, Total, InShrinks;
    ghost var gen := BlockWrites(blocks);
    ins := seq(|preds|, b => {});
    outDefs := seq(|preds|, b => AllRegisters());
    ins := ins[0 := INITIALLY_DEFINED];
    StartFull(preds, gen, outDefs);
    ghost var first := true;
    var changed := true;
    while changed
      invariant |ins| == |outDefs| == |preds|
      invariant Justified(preds, gen, outDefs) && OutShrinks(preds, gen, outDefs)
      invariant !first ==> InShrinks(preds, ins, outDefs, |preds|)
      invariant !changed ==> Solved(preds, gen, ins, outDefs)
      decreases first, Total(ins) + Total(outDefs), changed
    {
      ghost var ins0, out0 := ins, outDefs;
      ins, outDefs, changed := Sweep(blocks, preds, ins, outDefs);
      SweepProgress(preds, gen, ins0, out0, ins, outDefs, changed);
      SweepKeeps(preds, gen, ins0, out0, ins, outDefs, changed);
      first := false;
    }
  }

  lemma SweepKeeps(
    preds: seq<seq<nat>>, gen: seq<set<Register>>, ins0: seq<set<Register>>, out0: seq<set<Register>>,
    ins: seq<set<Register>>, out: seq<set<Register>>, changed: bool)
    requires IsGraph(preds) && |gen| == |ins0| == |out0| == |preds|
    requires SweepInv(preds, gen, ins0, out0, ins, out, changed, |preds|)
    ensures |ins| == |out| == |preds|
    ensures Justified(preds, gen, out) && OutShrinks(preds, gen, out) && InShrinks(preds, ins, out, |preds|)
  {
    hide Inflow, Justified, OutShrinks, SolvedAt;
  }

  lemma StartFull(preds: seq<seq<nat>>, gen: seq<set<Register>>, out: seq<set<Register>>)
    requires IsGraph(preds) && |gen| == |out| == |preds|
    requires forall b :: 0 <= b < |out| ==> out[b] == AllRegisters()
    ensures Justified(preds, gen, out) && OutShrinks(preds, gen, out)
  {
    hide AllRegisters, Inflow;
    forall r: Register ensures r in AllRegisters() {
      EveryRegister(r);
    }
  }

  // ----- The solution is exact -----

  lemma {:induction false} WalkKeepsUndefined(
    preds: seq<seq<nat>>, gen: seq<set<Register>>, ins: seq<set<Register>>, out: seq<set<Register>>,
    r: Register, q: seq<nat>, i: nat)
    requires Solved(preds, gen, ins, out) && r !in INITIALLY_DEFINED
    requires UnwrittenWalk(preds, gen, r, q) && i < |q|
    ensures r !in ins[q[i]]
  {
    hide Meet;
    assert SolvedAt(preds, gen, ins, out, q[i]);
    if i > 0 && q[i] != 0 {
      WalkKeepsUndefined(preds, gen, ins, out, r, q, i - 1);
      assert SolvedAt(preds, gen, ins, out, q[i - 1]);
      assert q[i - 1] in preds[q[i]];
      MeetMembers(preds[q[i]], out, r);
    }
  }

  /** A register not defined on entry is missing at a block exactly when some walk from a root reaches
      the block without writing it. */
  lemma MissingExactly(
    preds: seq<seq<nat>>, gen: seq<set<Register>>, ins: seq<set<Register>>, out: seq<set<Register>>,
    r: Register, b: nat)
    requires Solved(preds, gen, ins, out) && Justified(preds, gen, out)
    requires r !in INITIALLY_DEFINED && b < |preds|
    ensures r !in ins[b] <==> UnwrittenAt(preds, gen, r, b)
  {
    assert SolvedAt(preds, gen, ins, out, b);
    if r !in ins[b] {
      LostInflow(preds, gen, out, r, b);
    }
    if UnwrittenAt(preds, gen, r, b) {
      var q :| UnwrittenWalk(preds, gen, r, q) && q[|q| - 1] == b;
      WalkKeepsUndefined(preds, gen, ins, out, r, q, |q| - 1);
    }
    hide Inflow;
  }

  // ----- The report -----

  predicate ReadsUnspilled(inst: Instruction, r: Register) {
    r in GetInstructionUseDef(inst).gprUses && !IsStackSpill(inst, r)
  }

  /** Some instruction of the block reads callee-saved r, other than to spill it, before the block or
      anything in `before` writes it. */
  ghost predicate ReadFirst(insts: seq<Instruction>, before: set<Register>, r: Register) {
    IsCalleeSaved(r) && exists i :: ReadFirstAt(insts, before, r, i)
  }

  ghost predicate ReadFirstAt(insts: seq<Instruction>, before: set<Register>, r: Register, i: int) {
    0 <= i < |insts| && ReadsUnspilled(insts[i], r) && r !in before && r !in WrittenBy(insts[..i])
  }

  method ReportInstruction(inst: Instruction, defs: set<Register>, uninit0: set<Register>)
    returns (uninit: set<Register>)
    ensures forall r: Register :: r in uninit <==>
              r in uninit0 || (IsCalleeSaved(r) && ReadsUnspilled(inst, r) && r !in defs)
  {
    hide IsStackSpill;
    uninit := uninit0;
    var uses := GetInstructionUseDef(inst).gprUses;
    hide GetInstructionUseDef;
    for k := 0 to |uses|
      invariant forall r: Register :: r in uninit <==>
                  r in uninit0 || (IsCalleeSaved(r) && r in uses[..k] && !IsStackSpill(inst, r) && r !in defs)
    {
      assert uses[..k + 1] == uses[..k] + [uses[k]];
      var u := uses[k];
      if IsCalleeSaved(u) && !IsStackSpill(inst, u) {
        if u !in defs {
          uninit := uninit + {u};
        }
      }
    }
    assert uses[..|uses|] == uses;
  }

  method ReportBlock(insts: seq<Instruction>, before: set<Register>, uninit0: set<Register>)
    returns (uninit: set<Register>)
    ensures forall r: Register :: r in uninit <==> r in uninit0 || ReadFirst(insts, before, r)
  {
    hide GetInstructionUseDef, ReadsUnspilled;
    uninit := uninit0;
    var defs := before;
    for i := 0 to |insts|
      invariant defs == before + WrittenBy(insts[..i])
      invariant forall r: Register :: r in uninit <==> r in uninit0 || ReadFirst(insts[..i], before, r)
    {
      ghost var was := uninit;
      uninit := ReportInstruction(insts[i], defs, uninit);
      forall r: Register
        ensures ReadFirst(insts[..i + 1], before, r) <==>
                ReadFirst(insts[..i], before, r) || (IsCalleeSaved(r) && ReadsUnspilled(insts[i], r) && r !in defs)
      {
        ReadFirstStep(insts, before, r, i);
      }
      assert insts[..i + 1][..i] == insts[..i];
      defs := defs + AsSet(GetInstructionUseDef(insts[i]).gprDefs);
    }
    assert insts[..|insts|] == insts;
  }

  lemma ReadFirstStep(insts: seq<Instruction>, before: set<Register>, r: Register, i: nat)
    requires i < |insts|
    ensures ReadFirst(insts[..i + 1], before, r) <==>
              ReadFirst(insts[..i], before, r)
              || (IsCalleeSaved(r) && ReadsUnspilled(insts[i], r) && r !in before + WrittenBy(insts[..i]))
  {
    hide ReadsUnspilled, WrittenBy;
    forall j | 0 <= j < i
      ensures ReadFirstAt(insts[..i + 1], before, r, j) <==> ReadFirstAt(insts[..i], before, r, j)
    {
      assert insts[..i + 1][..j] == insts[..i][..j];
    }
    assert insts[..i + 1][..i] == insts[..i];
    assert ReadFirstAt(insts[..i + 1], before, r, i) <==>
             (ReadsUnspilled(insts[i], r) && r !in before + WrittenBy(insts[..i]));
    if ReadFirst(insts[..i + 1], before, r) {
      var j :| ReadFirstAt(insts[..i + 1], before, r, j);
      assert j < i ==> ReadFirstAt(insts[..i], before, r, j);
    }
    if ReadFirst(insts[..i], before, r) {
      var j :| ReadFirstAt(insts[..i], before, r, j);
      assert ReadFirstAt(insts[..i + 1], before, r, j);
    }
  }

  method Report(blocks: seq<BasicBlock>, ins: seq<set<Register>>) returns (uninit: set<Register>)
    requires |ins| == |blocks|
    ensures forall r: Register :: r in uninit <==>
              exists b :: 0 <= b < |blocks| && ReadFirst(blocks[b].instructions, ins[b], r)
  {
    hide ReadFirst;
    uninit := {};
    for b := 0 to |blocks|
      invariant forall r: Register :: r in uninit <==>
                  exists c :: 0 <= c < b && ReadFirst(blocks[c].instructions, ins[c], r)
    {
      uninit := ReportBlock(blocks[b].instructions, ins[b], uninit);
    }
  }

  // ----- In terms of paths through the graph -----

  /** Block 0, or a block no edge leads to. */
  ghost predicate IsEntry(blocks: seq<BasicBlock>, b: nat) {
    b == 0 || forall u: nat :: !HasEdge(blocks, u, b)
  }

  /** Path p runs from an entry into a block that reads r at instruction i; nothing on the way, nor
      earlier in that block, writes r. */
  ghost predicate ReadsUnwritten(blocks: seq<BasicBlock>, r: Register, p: seq<nat>, i: nat) {
    && IsPath(blocks, p) && IsEntry(blocks, p[0])
    && (forall k :: 0 <= k < |p| - 1 ==> r !in WrittenBy(blocks[p[k]].instructions))
    && var insts := blocks[p[|p| - 1]].instructions;
       i < |insts| && ReadsUnspilled(insts[i], r) && r !in WrittenBy(insts[..i])
  }

  lemma WalksArePaths(blocks: seq<BasicBlock>, preds: seq<seq<nat>>, r: Register, q: seq<nat>)
    requires PredecessorsExact(blocks, preds, seq(|blocks|, i => true)) && |blocks| > 0
    ensures UnwrittenWalk(preds, BlockWrites(blocks), r, q) <==>
              IsPath(blocks, q) && IsEntry(blocks, q[0])
              && forall k :: 0 <= k < |q| - 1 ==> r !in WrittenBy(blocks[q[k]].instructions)
  {
    hide HasEdge, WrittenBy;
    if |q| > 0 && forall i :: 0 <= i < |q| ==> q[i] < |blocks| {
      RootsAreEntries(blocks, preds, q[0]);
      forall k | 0 <= k < |q| - 1 ensures q[k] in preds[q[k + 1]] <==> HasEdge(blocks, q[k], q[k + 1]) {
      }
    }
  }

  lemma RootsAreEntries(blocks: seq<BasicBlock>, preds: seq<seq<nat>>, b: nat)
    requires PredecessorsExact(blocks, preds, seq(|blocks|, i => true)) && b < |blocks|
    ensures IsRoot(preds, b) <==> IsEntry(blocks, b)
  {
    if preds[b] != [] {
      assert preds[b][0] in preds[b];
      assert HasEdge(blocks, preds[b][0], b);
    } else {
      forall u: nat ensures !HasEdge(blocks, u, b) {
        assert u !in preds[b];
      }
    }
  }

  lemma PredecessorsAreGraph(blocks: seq<BasicBlock>, preds: seq<seq<nat>>)
    requires PredecessorsExact(blocks, preds, seq(|blocks|, i => true))
    ensures IsGraph(preds)
  {
    forall v: nat, k: nat | v < |preds| && k < |preds[v]| ensures preds[v][k] < |preds| {
      assert preds[v][k] in preds[v];
    }
  }

  lemma ReportedHasPath(
    blocks: seq<BasicBlock>, preds: seq<seq<nat>>, ins: seq<set<Register>>, out: seq<set<Register>>,
    r: Register, b: nat)
    requires |ins| == |preds| == |blocks| > 0 && PredecessorsExact(blocks, preds, seq(|blocks|, i => true))
    requires Solved(preds, BlockWrites(blocks), ins, out) && Justified(preds, BlockWrites(blocks), out)
    requires b < |blocks| && ReadFirst(blocks[b].instructions, ins[b], r)
    ensures exists p, i :: ReadsUnwritten(blocks, r, p, i)
  {
    hide Solved, Justified, PredecessorsExact;
    var gen := BlockWrites(blocks);
    var i :| ReadFirstAt(blocks[b].instructions, ins[b], r, i);
    MissingExactly(preds, gen, ins, out, r, b);
    var q :| UnwrittenWalk(preds, gen, r, q) && q[|q| - 1] == b;
    WalksArePaths(blocks, preds, r, q);
    hide HasEdge, WrittenBy, ReadsUnspilled, UnwrittenWalk, IsEntry;
    assert ReadsUnwritten(blocks, r, q, i);
  }

  lemma PathIsReported(
    blocks: seq<BasicBlock>, preds: seq<seq<nat>>, ins: seq<set<Register>>, out: seq<set<Register>>,
    r: Register, p: seq<nat>, i: nat)
    requires |ins| == |preds| == |blocks| > 0 && PredecessorsExact(blocks, preds, seq(|blocks|, i => true))
    requires Solved(preds, BlockWrites(blocks), ins, out) && Justified(preds, BlockWrites(blocks), out)
    requires IsCalleeSaved(r) && ReadsUnwritten(blocks, r, p, i)
    ensures exists b :: 0 <= b < |blocks| && ReadFirst(blocks[b].instructions, ins[b], r)
  {
    hide Solved, Justified, PredecessorsExact;
    var gen, b := BlockWrites(blocks), p[|p| - 1];
    assert UnwrittenAt(preds, gen, r, b) by {
      WalksArePaths(blocks, preds, r, p);
      hide HasEdge, WrittenBy, ReadsUnspilled, UnwrittenWalk, IsEntry;
    }
    hide HasEdge, WrittenBy, ReadsUnspilled, UnwrittenAt, IsEntry;
    MissingExactly(preds, gen, ins, out, r, b);
    assert ReadFirstAt(blocks[b].instructions, ins[b], r, i);
  }

  lemma ReportMeaning(
    blocks: seq<BasicBlock>, preds: seq<seq<nat>>, ins: seq<set<Register>>, out: seq<set<Register>>, r: Register)
    requires |ins| == |preds| == |blocks| > 0 && PredecessorsExact(blocks, preds, seq(|blocks|, i => true))
    requires Solved(preds, BlockWrites(blocks), ins, out) && Justified(preds, BlockWrites(blocks), out)
    requires IsCalleeSaved(r)
    ensures (exists b :: 0 <= b < |blocks| && ReadFirst(blocks[b].instructions, ins[b], r)) <==>
              exists p, i :: ReadsUnwritten(blocks, r, p, i)
  {
    hide Solved, Justified, PredecessorsExact, ReadFirst, ReadsUnwritten;
    if b: nat :| b < |blocks| && ReadFirst(blocks[b].instructions, ins[b], r) {
      ReportedHasPath(blocks, preds, ins, out, r, b);
    }
    if p: seq<nat>, i: nat :| ReadsUnwritten(blocks, r, p, i) {
      PathIsReported(blocks, preds, ins, out, r, p, i);
    }
  }

  /** Reports exactly the callee-saved registers that some path from an entry reads, other than to
      spill them, before anything on the path writes them. */
  method DetectUninitializedCalleeSavedRegisters(blocks: seq<BasicBlock>) returns (uninit: set<Register>)
    ensures forall r: Register :: r in uninit <==>
              IsCalleeSaved(r) && exists p, i :: ReadsUnwritten(blocks, r, p, i)
  {
    hide ReadsUnwritten, Solved, Justified, PredecessorsExact, ReadFirst;
    if blocks == [] {
      uninit := {};
      NoBlocksNoReads(blocks);
      return;
    }
    var graph := BuildCfgReachabilityGraph(blocks, false);
    PredecessorsAreGraph(blocks, graph.predecessors);
    assert |graph.predecessors| == |blocks| by { LengthsAgree(blocks, graph); }
    var ins, out := Iterate(blocks, graph.predecessors);
    assert |ins| == |blocks| by { SolvedLengths(graph.predecessors, BlockWrites(blocks), ins, out); }
    uninit := Report(blocks, ins);
    forall r: Register
      ensures r in uninit <==> IsCalleeSaved(r) && exists p, i :: ReadsUnwritten(blocks, r, p, i)
    {
      if IsCalleeSaved(r) {
        ReportMeaning(blocks, graph.predecessors, ins, out, r);
      } else {
        NotReported(blocks, ins, r);
      }
    }
  }

  lemma LengthsAgree(blocks: seq<BasicBlock>, g: ReachabilityGraph)
    requires Describes(g, blocks, false)
    ensures |g.predecessors| == |blocks|
  {
  }

  lemma SolvedLengths(
    preds: seq<seq<nat>>, gen: seq<set<Register>>, ins: seq<set<Register>>, out: seq<set<Register>>)
    requires Solved(preds, gen, ins, out)
    ensures |ins| == |preds|
  {
  }

  lemma NotReported(blocks: seq<BasicBlock>, ins: seq<set<Register>>, r: Register)
    requires |ins| == |blocks| && !IsCalleeSaved(r)
    ensures !exists b :: 0 <= b < |blocks| && ReadFirst(blocks[b].instructions, ins[b], r)
  {
  }

  lemma NoBlocksNoReads(blocks: seq<BasicBlock>)
    requires blocks == []
    ensures forall r, p, i :: !ReadsUnwritten(blocks, r, p, i)
  {
  }

  /** Safety: along any path from block 0, a read of an unreported callee-saved register that is not a
      spill comes after a write. */
  lemma UnreportedReadsAreWritten(blocks: seq<BasicBlock>, uninit: set<Register>, r: Register, p: seq<nat>, i: nat)
    requires forall q: Register :: q in uninit <==>
               IsCalleeSaved(q) && exists p, i :: ReadsUnwritten(blocks, q, p, i)
    requires IsCalleeSaved(r) && r !in uninit
    requires IsPath(blocks, p) && p[0] == 0 && i < |blocks[p[|p| - 1]].instructions|
    requires ReadsUnspilled(blocks[p[|p| - 1]].instructions[i], r)
    ensures (exists k :: 0 <= k < |p| - 1 && r in WrittenBy(blocks[p[k]].instructions))
            || r in WrittenBy(blocks[p[|p| - 1]].instructions[..i])
  {
    hide HasEdge, WrittenBy, ReadsUnspilled;
    assert !ReadsUnwritten(blocks, r, p, i);
  }
}
