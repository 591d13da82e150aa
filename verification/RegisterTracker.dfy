/** The register tracker of core/register_tracker.cc: what one instruction does to the tracked values,
    reaching definitions, def-use lists and stack-frame facts, as functions on a state value and as
    the class whose methods update that state in place. */
module RegisterTracking {
  import opened Mips
  import opened UseDefs
  import opened Wrappers

  datatype TrackedValue =
    | UnknownValue
    | Constant(value: bv32)
    | StackOffset(offset: bv32)
    | SymbolHi(hi: bv32, hiInst: nat)
    | SymbolAddress(address: bv32)
    | SymbolHiIndex(indexedHi: bv32, indexReg: Register, indexedHiInst: nat, midInst: nat)

  datatype Definition = Definition(vram: bv32, instructionIndex: nat, reg: Register, isLocal: bool)

  datatype StackFrameInfo = StackFrameInfo(
    frameSize: bv32, savedRaOffset: Option<bv32>, savedGprOffsets: map<Register, bv32>, isLeaf: bool)

  datatype TrackerState = TrackerState(
    gprs: seq<TrackedValue>,
    fprs: seq<Option<bv32>>,
    defs: seq<Option<Definition>>,
    uses: map<nat, seq<nat>>,
    frame: StackFrameInfo,
    index: nat)
  {
    predicate Valid() {
      |gprs| == 32 && |fprs| == 32 && |defs| == 32 && gprs[ZERO] == Constant(0)
    }
  }

  // ----- Values -----

  /** 32-bit addition. */
  function Sum(x: bv32, y: bv32): bv32 { x + y }

  /** Base plus a sign-extended displacement. */
  function Displaced(base: bv32, imm: bv16): bv32 { Sum(base, SignExtend(imm)) }

  function AddImmediateValue(src: TrackedValue, imm: bv16): TrackedValue {
    match src
    case Constant(c) => Constant(Displaced(c, imm))
    case StackOffset(o) => StackOffset(Displaced(o, imm))
    case SymbolHi(h, _) => SymbolAddress(Displaced(h, imm))
    case _ => UnknownValue
  }

  /** andi, ori and xori work on the zero-extended immediate. */
  function LogicImmediate(op: Opcode, x: bv32, imm: bv16): bv32 {
    if op.Andi? then x & ZeroExtend(imm)
    else if op.Ori? then x | ZeroExtend(imm)
    else x ^ ZeroExtend(imm)
  }

  function LogicImmediateValue(op: Opcode, src: TrackedValue, imm: bv16): TrackedValue {
    match src
    case Constant(c) => Constant(LogicImmediate(op, c, imm))
    case SymbolHi(h, _) => if op.Ori? then SymbolAddress(LogicImmediate(op, h, imm)) else UnknownValue
    case _ => UnknownValue
  }

  /** A register that may index a table: not $zero, $sp or $fp. */
  predicate IsIndexRegister(r: Register) { r != ZERO && r != SP && r != FP }

  function AddRegistersValue(rs: Register, rt: Register, v1: TrackedValue, v2: TrackedValue, idx: nat)
    : TrackedValue
  {
    if rs == ZERO then v2
    else if rt == ZERO then v1
    else if v1.Constant? && v2.Constant? then Constant(Sum(v1.value, v2.value))
    else if v1.SymbolHi? && !v2.SymbolHi? && !v2.Constant? && IsIndexRegister(rt) then
      SymbolHiIndex(v1.hi, rt, v1.hiInst, idx)
    else if v2.SymbolHi? && !v1.SymbolHi? && !v1.Constant? && IsIndexRegister(rs) then
      SymbolHiIndex(v2.hi, rs, v2.hiInst, idx)
    else UnknownValue
  }

  /** The opcodes whose result the tracker computes. */
  predicate IsTransfer(op: Opcode) {
    op.Lui? || IsAddImmediate(op) || IsLogicImmediate(op) || IsAddRegisters(op)
  }

  function TransferTarget(inst: Instruction): Option<Register>
    requires IsTransfer(inst.opcode)
  {
    if IsAddRegisters(inst.opcode) then inst.rd else inst.rt
  }

  function LuiBits(imm: bv16): bv32 { ZeroExtend(imm) << 16 }

  /** The tracked result of a computed opcode, from the values before the instruction. */
  function TransferValue(inst: Instruction, gprs: seq<TrackedValue>, idx: nat): TrackedValue
    requires IsTransfer(inst.opcode) && HasOperands(inst) && |gprs| == 32
  {
    if inst.opcode.Lui? then SymbolHi(LuiBits(inst.immediate), idx)
    else if IsAddImmediate(inst.opcode) then
      if inst.rs.value == ZERO then Constant(SignExtend(inst.immediate))
      else AddImmediateValue(gprs[inst.rs.value], inst.immediate)
    else if IsLogicImmediate(inst.opcode) then
      if inst.rs.value == ZERO then LogicImmediateValue(inst.opcode, Constant(0), inst.immediate)
      else LogicImmediateValue(inst.opcode, gprs[inst.rs.value], inst.immediate)
    else
      AddRegistersValue(inst.rs.value, inst.rt.value, gprs[inst.rs.value], gprs[inst.rt.value], idx)
  }

  // ----- Tables -----

  /** $at, $v0-$v1, $a0-$a3, $t0-$t9, $k0-$k1. */
  predicate IsCallerSaved(r: Register) { 1 <= r <= 15 || 24 <= r <= 27 }

  predicate IsCallerSavedFpr(f: FpRegister) { f <= 19 }

  function ClearCallerSaved<T>(table: seq<T>, blank: T): (r: seq<T>)
    requires |table| == 32
    ensures |r| == 32
  {
    seq(32, r requires 0 <= r < 32 => if IsCallerSaved(r) then blank else table[r])
  }

  function WithoutCallerSavedFprs(fprs: seq<Option<bv32>>): seq<Option<bv32>>
    requires |fprs| == 32
  {
    seq(32, f requires 0 <= f < 32 => if IsCallerSavedFpr(f) then None else fprs[f])
  }

  function ClearGprs(gprs: seq<TrackedValue>, regs: seq<Register>): (r: seq<TrackedValue>)
    requires |gprs| == 32
    ensures |r| == 32
  {
    if regs == [] then gprs
    else ClearGprs(gprs, regs[..|regs| - 1])[regs[|regs| - 1] := UnknownValue]
  }

  function GprsAfter(gprs: seq<TrackedValue>, inst: Instruction, idx: nat): (r: seq<TrackedValue>)
    requires |gprs| == 32 && HasOperands(inst)
    ensures |r| == 32
  {
    (if inst.IsCall() then ClearCallerSaved(gprs, UnknownValue)
     else if IsTransfer(inst.opcode) then
       var target := TransferTarget(inst);
       if target.Some? && target.value != ZERO then
         gprs[target.value := TransferValue(inst, gprs, idx)]
       else gprs
     else if inst.opcode.Sw? || inst.opcode.Sd? then gprs
     else ClearGprs(gprs, GetInstructionUseDef(inst).gprDefs))[ZERO := Constant(0)]
  }

  /** A double write covers an even register and its odd partner. */
  function ClearFpr(fprs: seq<Option<bv32>>, d: FpRegister): seq<Option<bv32>>
    requires |fprs| == 32
  {
    if d % 2 == 0 then fprs[d := None][d + 1 := None] else fprs[d := None]
  }

  function ClearFprs(fprs: seq<Option<bv32>>, regs: seq<FpRegister>): (r: seq<Option<bv32>>)
    requires |fprs| == 32
    ensures |r| == 32
  {
    if regs == [] then fprs
    else ClearFpr(ClearFprs(fprs, regs[..|regs| - 1]), regs[|regs| - 1])
  }

  /** The bit pattern mtc1 moves, when it is known. */
  function MovedBits(v: TrackedValue): Option<bv32> {
    match v
    case Constant(c) => Some(c)
    case SymbolAddress(a) => Some(a)
    case SymbolHi(h, _) => Some(h)
    case _ => None
  }

  function FprsAfter(fprs: seq<Option<bv32>>, gprs: seq<TrackedValue>, inst: Instruction)
    : (r: seq<Option<bv32>>)
    requires |fprs| == 32 && |gprs| == 32
    ensures |r| == 32
  {
    if inst.IsCall() then WithoutCallerSavedFprs(fprs)
    else if inst.opcode.Mtc1? && inst.rt.Some? && inst.fs.Some? then
      fprs[inst.fs.value := if inst.rt.value == ZERO then Some(0) else MovedBits(gprs[inst.rt.value])]
    else ClearFprs(fprs, GetInstructionUseDef(inst).fprDefs)
  }

  function RecordUses(uses: map<nat, seq<nat>>, defs: seq<Option<Definition>>, regs: seq<Register>, idx: nat)
    : map<nat, seq<nat>>
    requires |defs| == 32
  {
    if regs == [] then uses
    else
      var before := RecordUses(uses, defs, regs[..|regs| - 1], idx);
      var d := defs[regs[|regs| - 1]];
      if d.Some? && d.value.isLocal then
        var k := d.value.instructionIndex;
        before[k := (if k in before then before[k] else []) + [idx]]
      else before
  }

  function RecordDefs(defs: seq<Option<Definition>>, regs: seq<Register>, vram: bv32, idx: nat)
    : (r: seq<Option<Definition>>)
    requires |defs| == 32
    ensures |r| == 32
  {
    if regs == [] then defs
    else
      var reg := regs[|regs| - 1];
      RecordDefs(defs, regs[..|regs| - 1], vram, idx)[reg := Some(Definition(vram, idx, reg, true))]
  }

  function DefsAfter(defs: seq<Option<Definition>>, inst: Instruction, idx: nat): (r: seq<Option<Definition>>)
    requires |defs| == 32
    ensures |r| == 32
  {
    RecordDefs(if inst.IsCall() then ClearCallerSaved(defs, None) else defs,
               GetInstructionUseDef(inst).gprDefs, inst.vram, idx)
  }

  predicate IsNegative(x: bv32) { x & 0x80000000 != 0 }

  /** The frame is as large as the deepest $sp seen. */
  function GrownFrame(frame: StackFrameInfo, spOffset: bv32): StackFrameInfo {
    if IsNegative(spOffset) && frame.frameSize < 0 - spOffset then frame.(frameSize := 0 - spOffset)
    else frame
  }

  predicate Names(r: Option<Register>, reg: Register) { r.Some? && r.value == reg }

  function FrameAfterAdd(frame: StackFrameInfo, gprs: seq<TrackedValue>, inst: Instruction): StackFrameInfo
    requires |gprs| == 32 && inst.rs.Some?
  {
    var src := gprs[inst.rs.value];
    if Names(inst.rt, SP) && inst.rs.value != ZERO && src.StackOffset? then
      GrownFrame(frame, Displaced(src.offset, inst.immediate))
    else frame
  }

  function FrameAfterStore(frame: StackFrameInfo, inst: Instruction): StackFrameInfo {
    if !Names(inst.rs, SP) then frame
    else if Names(inst.rt, RA) then frame.(savedRaOffset := Some(SignExtend(inst.immediate)))
    else if inst.rt.Some? then
      frame.(savedGprOffsets := frame.savedGprOffsets[inst.rt.value := SignExtend(inst.immediate)])
    else frame
  }

  function FrameAfter(frame: StackFrameInfo, gprs: seq<TrackedValue>, inst: Instruction): StackFrameInfo
    requires |gprs| == 32 && HasOperands(inst)
  {
    if inst.IsCall() then frame.(isLeaf := false)
    else if IsAddImmediate(inst.opcode) then FrameAfterAdd(frame, gprs, inst)
    else if inst.opcode.Sw? || inst.opcode.Sd? then FrameAfterStore(frame, inst)
    else frame
  }

  // ----- One step and whole lists -----

  function InitialState(): (s: TrackerState) {
    TrackerState(
      seq(32, r => UnknownValue)[ZERO := Constant(0)][SP := StackOffset(0)],
      seq(32, f => None), seq(32, r => None), map[],
      StackFrameInfo(0, None, map[], true), 0)
  }

  function StepState(s: TrackerState, inst: Instruction): (s': TrackerState)
    requires s.Valid() && HasOperands(inst)
    ensures s'.Valid() && s'.index == s.index + 1
  {
    var ud := GetInstructionUseDef(inst);
    TrackerState(
      GprsAfter(s.gprs, inst, s.index),
      FprsAfter(s.fprs, s.gprs, inst),
      DefsAfter(s.defs, inst, s.index),
      RecordUses(s.uses, s.defs, ud.gprUses, s.index),
      FrameAfter(s.frame, s.gprs, inst),
      s.index + 1)
  }

  function AnalyzeState(s: TrackerState, insts: seq<Instruction>): (s': TrackerState)
    requires s.Valid() && forall i :: 0 <= i < |insts| ==> HasOperands(insts[i])
    ensures s'.Valid() && s'.index == s.index + |insts|
  {
    if insts == [] then s
    else StepState(AnalyzeState(s, insts[..|insts| - 1]), insts[|insts| - 1])
  }

  // ----- Merging -----

  /** Equality of tracked values; where a value was computed does not matter. */
  predicate SameValue(a: TrackedValue, b: TrackedValue) {
    match (a, b)
    case (UnknownValue, UnknownValue) => true
    case (Constant(x), Constant(y)) => x == y
    case (StackOffset(x), StackOffset(y)) => x == y
    case (SymbolHi(x, _), SymbolHi(y, _)) => x == y
    case (SymbolAddress(x), SymbolAddress(y)) => x == y
    case (SymbolHiIndex(x, r, _, _), SymbolHiIndex(y, q, _, _)) => x == y && r == q
    case _ => false
  }

  predicate SameDefinition(a: Option<Definition>, b: Option<Definition>) {
    a.Some? && b.Some? && a.value.instructionIndex == b.value.instructionIndex
    && a.value.vram == b.value.vram && a.value.reg == b.value.reg
  }

  function MergedValue(a: TrackedValue, b: TrackedValue): TrackedValue {
    if SameValue(a, b) then a else UnknownValue
  }

  function MergedDefinition(a: Option<Definition>, b: Option<Definition>): Option<Definition> {
    if SameDefinition(a, b) then a else None
  }

  function MergedBits(a: Option<bv32>, b: Option<bv32>): Option<bv32> {
    if a == b then a else None
  }

  function MergeState(s: TrackerState, o: TrackerState): (m: TrackerState)
    requires s.Valid() && o.Valid()
    ensures m.Valid()
  {
    s.(gprs := seq(32, r requires 0 <= r < 32 =>
                 if r == ZERO then s.gprs[r] else MergedValue(s.gprs[r], o.gprs[r])),
       defs := seq(32, r requires 0 <= r < 32 =>
                 if r == ZERO then s.defs[r] else MergedDefinition(s.defs[r], o.defs[r])),
       fprs := seq(32, f requires 0 <= f < 32 => MergedBits(s.fprs[f], o.fprs[f])))
  }

  /** Something known about register r goes away in the merge. */
  predicate LosesGpr(s: TrackerState, o: TrackerState, r: Register)
    requires s.Valid() && o.Valid()
  {
    r != ZERO &&
    ((!s.gprs[r].UnknownValue? && !SameValue(s.gprs[r], o.gprs[r]))
     || (s.defs[r].Some? && !SameDefinition(s.defs[r], o.defs[r])))
  }

  predicate LosesFpr(s: TrackerState, o: TrackerState, f: FpRegister)
    requires s.Valid() && o.Valid()
  {
    s.fprs[f].Some? && s.fprs[f] != o.fprs[f]
  }

  ghost predicate Loses(s: TrackerState, o: TrackerState)
    requires s.Valid() && o.Valid()
  {
    (exists r: Register :: LosesGpr(s, o, r)) || (exists f: FpRegister :: LosesFpr(s, o, f))
  }

  // ----- The class -----

  class RegisterTracker {
    var gprValues: seq<TrackedValue>
    var fprConstBits: seq<Option<bv32>>
    var reachingDefs: seq<Option<Definition>>
    var defToUses: map<nat, seq<nat>>
    var frameInfo: StackFrameInfo
    var currentInstructionIndex: nat

    function State(): TrackerState
      reads this
    {
      TrackerState(gprValues, fprConstBits, reachingDefs, defToUses, frameInfo, currentInstructionIndex)
    }

    constructor ()
      ensures State() == InitialState()
    {
      new;
      Reset();
    }

    method Reset()
      modifies this
      ensures State() == InitialState()
    {
      gprValues := seq(32, r => UnknownValue);
      gprValues := gprValues[ZERO := Constant(0)];
      gprValues := gprValues[SP := StackOffset(0)];
      fprConstBits := seq(32, f => None);
      reachingDefs := seq(32, r => None);
      defToUses := map[];
      frameInfo := StackFrameInfo(0, None, map[], true);
      currentInstructionIndex := 0;
    }

    method ClearCallerSavedGprs()
      requires |gprValues| == 32 && |reachingDefs| == 32
      modifies this`gprValues, this`reachingDefs
      ensures gprValues == ClearCallerSaved(old(gprValues), UnknownValue)
      ensures reachingDefs == ClearCallerSaved(old(reachingDefs), None)
    {
      var cleared := [AT, V0, V1, A0, A1, A2, A3] + seq(8, i requires 0 <= i < 8 => (T0 + i) as Register)
                     + [T8, T9, K0, K1];
      assert forall r: Register :: r in cleared <==> IsCallerSaved(r) by {
        CallerSavedList(cleared);
      }
      var i := 0;
      while i < |cleared|
        invariant 0 <= i <= |cleared|
        invariant |gprValues| == 32 && |reachingDefs| == 32
        invariant forall r: Register ::
                    gprValues[r] == if r in cleared[..i] then UnknownValue else old(gprValues)[r]
        invariant forall r: Register ::
                    reachingDefs[r] == if r in cleared[..i] then None else old(reachingDefs)[r]
      {
        Invalidate(cleared[i]);
        assert cleared[..i + 1] == cleared[..i] + [cleared[i]];
        i := i + 1;
      }
      assert cleared[..i] == cleared;
    }

    method Invalidate(reg: Register)
      requires |gprValues| == 32 && |reachingDefs| == 32
      modifies this`gprValues, this`reachingDefs
      ensures gprValues == old(gprValues)[reg := UnknownValue]
      ensures reachingDefs == old(reachingDefs)[reg := None]
    {
      gprValues := gprValues[reg := UnknownValue];
      reachingDefs := reachingDefs[reg := None];
    }

    method ClearCallerSavedFprs()
      requires |fprConstBits| == 32
      modifies this`fprConstBits
      ensures fprConstBits == WithoutCallerSavedFprs(old(fprConstBits))
    {
      for f := 0 to 20
        invariant |fprConstBits| == 32
        invariant forall g :: 0 <= g < 32 ==>
                    fprConstBits[g] == if g < f then None else old(fprConstBits)[g]
      {
        fprConstBits := fprConstBits[f := None];
      }
    }

    /** Phase 1: every register read adds a use to the local definition that reaches it. */
    method RecordUsesOf(regs: seq<Register>, instIdx: nat)
      requires |reachingDefs| == 32
      modifies this`defToUses
      ensures defToUses == RecordUses(old(defToUses), reachingDefs, regs, instIdx)
    {
      for i := 0 to |regs|
        invariant defToUses == RecordUses(old(defToUses), reachingDefs, regs[..i], instIdx)
      {
        assert regs[..i + 1][..i] == regs[..i];
        var d := reachingDefs[regs[i]];
        if d.Some? && d.value.isLocal {
          var k := d.value.instructionIndex;
          var known := if k in defToUses then defToUses[k] else [];
          defToUses := defToUses[k := known + [instIdx]];
        }
      }
      assert regs[..|regs|] == regs;
    }

    method ClearWrittenFprs(fprDefs: seq<FpRegister>)
      requires |fprConstBits| == 32
      modifies this`fprConstBits
      ensures fprConstBits == ClearFprs(old(fprConstBits), fprDefs)
    {
      for i := 0 to |fprDefs|
        invariant |fprConstBits| == 32
        invariant fprConstBits == ClearFprs(old(fprConstBits), fprDefs[..i])
      {
        assert fprDefs[..i + 1][..i] == fprDefs[..i];
        var d := fprDefs[i];
        fprConstBits := fprConstBits[d := None];
        if d % 2 == 0 && d + 1 < |fprConstBits| {
          fprConstBits := fprConstBits[d + 1 := None];
        }
      }
      assert fprDefs[..|fprDefs|] == fprDefs;
    }

    /** Phase 2: floating-point bit patterns, and the registers a call clobbers. */
    method TrackFprs(inst: Instruction, fprDefs: seq<FpRegister>)
      requires |gprValues| == 32 && |fprConstBits| == 32 && |reachingDefs| == 32
      requires fprDefs == GetInstructionUseDef(inst).fprDefs
      modifies this`fprConstBits, this`gprValues, this`reachingDefs
      ensures fprConstBits == FprsAfter(old(fprConstBits), old(gprValues), inst)
      ensures gprValues == if inst.IsCall() then ClearCallerSaved(old(gprValues), UnknownValue) else old(gprValues)
      ensures reachingDefs == if inst.IsCall() then ClearCallerSaved(old(reachingDefs), None) else old(reachingDefs)
    {
      if inst.IsCall() {
        ClearCallerSavedFprs();
        ClearCallerSavedGprs();
      } else if inst.opcode.Mtc1? && inst.rt.Some? && inst.fs.Some? {
        if inst.rt.value == ZERO {
          fprConstBits := fprConstBits[inst.fs.value := Some(0)];
        } else {
          fprConstBits := fprConstBits[inst.fs.value := MovedBits(gprValues[inst.rt.value])];
        }
      } else {
        ClearWrittenFprs(fprDefs);
      }
    }

    method ClearWrittenGprs(gprDefs: seq<Register>)
      requires |gprValues| == 32
      modifies this`gprValues
      ensures gprValues == ClearGprs(old(gprValues), gprDefs)
    {
      for i := 0 to |gprDefs|
        invariant |gprValues| == 32
        invariant gprValues == ClearGprs(old(gprValues), gprDefs[..i])
      {
        assert gprDefs[..i + 1][..i] == gprDefs[..i];
        gprValues := gprValues[gprDefs[i] := UnknownValue];
      }
      assert gprDefs[..|gprDefs|] == gprDefs;
    }

    /** An adjustment of $sp by a known offset may deepen the frame. */
    method NoteStackAdjustment(inst: Instruction)
      requires |gprValues| == 32 && inst.rs.Some?
      modifies this`frameInfo
      ensures frameInfo == FrameAfterAdd(old(frameInfo), gprValues, inst)
    {
      hide GrownFrame, Displaced;
      var src := gprValues[inst.rs.value];
      if Names(inst.rt, SP) && inst.rs.value != ZERO && src.StackOffset? {
        frameInfo := GrownFrame(frameInfo, Displaced(src.offset, inst.immediate));
      }
    }

    method TrackAddImmediate(inst: Instruction)
      requires |gprValues| == 32 && HasOperands(inst) && IsAddImmediate(inst.opcode)
      requires inst.rt.Some? && inst.rt.value != ZERO
      modifies this`gprValues, this`frameInfo
      ensures gprValues == old(gprValues)[inst.rt.value := TransferValue(inst, old(gprValues), 0)]
      ensures frameInfo == FrameAfterAdd(old(frameInfo), old(gprValues), inst)
    {
      hide GrownFrame, Displaced, FrameAfterAdd;
      NoteStackAdjustment(inst);
      var dest := inst.rt.value;
      if inst.rs.value == ZERO {
        gprValues := gprValues[dest := Constant(SignExtend(inst.immediate))];
      } else {
        gprValues := gprValues[dest := AddImmediateValue(gprValues[inst.rs.value], inst.immediate)];
      }
    }

    /** The arms of phase 3 that compute a value. */
    method TrackTransfer(inst: Instruction, instIdx: nat)
      requires |gprValues| == 32 && HasOperands(inst) && IsTransfer(inst.opcode) && !inst.IsCall()
      modifies this`gprValues, this`frameInfo
      ensures gprValues == var target := TransferTarget(inst);
                           if target.Some? && target.value != ZERO then
                             old(gprValues)[target.value := TransferValue(inst, old(gprValues), instIdx)]
                           else old(gprValues)
      ensures frameInfo == FrameAfter(old(frameInfo), old(gprValues), inst)
    {
      if inst.opcode.Lui? {
        if inst.rt.Some? && inst.rt.value != ZERO {
          gprValues := gprValues[inst.rt.value := SymbolHi(LuiBits(inst.immediate), instIdx)];
        }
      } else if IsAddImmediate(inst.opcode) {
        if inst.rt.Some? && inst.rt.value != ZERO {
          TrackAddImmediate(inst);
        }
      } else if IsLogicImmediate(inst.opcode) {
        if inst.rt.Some? && inst.rt.value != ZERO {
          var src := if inst.rs.value == ZERO then Constant(0) else gprValues[inst.rs.value];
          gprValues := gprValues[inst.rt.value := LogicImmediateValue(inst.opcode, src, inst.immediate)];
        }
      } else {
        if inst.rd.Some? && inst.rd.value != ZERO {
          var v1, v2 := gprValues[inst.rs.value], gprValues[inst.rt.value];
          gprValues := gprValues[inst.rd.value :=
            AddRegistersValue(inst.rs.value, inst.rt.value, v1, v2, instIdx)];
        }
      }
    }

    /** Phase 3: the tracked values and the stack frame. */
    method TrackGprs(inst: Instruction, instIdx: nat, gprDefs: seq<Register>)
      requires |gprValues| == 32 && |reachingDefs| == 32 && HasOperands(inst)
      requires gprDefs == GetInstructionUseDef(inst).gprDefs
      modifies this`gprValues, this`frameInfo, this`reachingDefs
      ensures gprValues == GprsAfter(old(gprValues), inst, instIdx)
      ensures frameInfo == FrameAfter(old(frameInfo), old(gprValues), inst)
      ensures reachingDefs == if inst.IsCall() then ClearCallerSaved(old(reachingDefs), None) else old(reachingDefs)
    {
      if inst.IsCall() {
        frameInfo := frameInfo.(isLeaf := false);
        ClearCallerSavedGprs();
      } else if IsTransfer(inst.opcode) {
        TrackTransfer(inst, instIdx);
      } else if inst.opcode.Sw? || inst.opcode.Sd? {
        if Names(inst.rs, SP) {
          var offset := SignExtend(inst.immediate);
          if Names(inst.rt, RA) {
            frameInfo := frameInfo.(savedRaOffset := Some(offset));
          } else if inst.rt.Some? {
            frameInfo := frameInfo.(savedGprOffsets := frameInfo.savedGprOffsets[inst.rt.value := offset]);
          }
        }
      } else {
        ClearWrittenGprs(gprDefs);
      }
      gprValues := gprValues[ZERO := Constant(0)];
    }

    /** Phase 4: the instruction becomes the reaching definition of what it writes. */
    method RecordDefinitions(regs: seq<Register>, vram: bv32, instIdx: nat)
      requires |reachingDefs| == 32
      modifies this`reachingDefs
      ensures reachingDefs == RecordDefs(old(reachingDefs), regs, vram, instIdx)
    {
      for i := 0 to |regs|
        invariant |reachingDefs| == 32
        invariant reachingDefs == RecordDefs(old(reachingDefs), regs[..i], vram, instIdx)
      {
        assert regs[..i + 1][..i] == regs[..i];
        reachingDefs := reachingDefs[regs[i] := Some(Definition(vram, instIdx, regs[i], true))];
      }
      assert regs[..|regs|] == regs;
    }

    method Step(inst: Instruction)
      requires State().Valid() && HasOperands(inst)
      modifies this
      ensures State() == StepState(old(State()), inst)
    {
      hide GprsAfter, FprsAfter, FrameAfter, RecordUses, RecordDefs, ClearCallerSaved, HasOperands, IsCallOp;
      hide GetInstructionUseDef;
      var instIdx := currentInstructionIndex;
      currentInstructionIndex := currentInstructionIndex + 1;
      var ud := GetInstructionUseDef(inst);
      RecordUsesOf(ud.gprUses, instIdx);
      TrackFprs(inst, ud.fprDefs);
      TrackGprs(inst, instIdx, ud.gprDefs);
      if inst.IsCall() {
        ClearingTwice(old(gprValues), old(reachingDefs), old(frameInfo), inst, instIdx);
      }
      RecordDefinitions(ud.gprDefs, inst.vram, instIdx);
    }

    method Analyze(instructions: seq<Instruction>)
      requires State().Valid()
      requires forall i :: 0 <= i < |instructions| ==> HasOperands(instructions[i])
      modifies this
      ensures State() == AnalyzeState(old(State()), instructions)
    {
      for i := 0 to |instructions|
        invariant State() == AnalyzeState(old(State()), instructions[..i])
      {
        assert instructions[..i + 1][..i] == instructions[..i];
        Step(instructions[i]);
      }
      assert instructions[..|instructions|] == instructions;
    }

    /** Keeps what both trackers agree on; true when this tracker lost something. */
    method Merge(other: RegisterTracker) returns (changed: bool)
      requires State().Valid() && other.State().Valid()
      modifies this
      ensures State() == MergeState(old(State()), old(other.State()))
      ensures changed == Loses(old(State()), old(other.State()))
    {
      var o := other.State();
      ghost var s := State();
      changed := MergeGprs(o);
      assert State() == s.(gprs := gprValues, defs := reachingDefs);
      var fprChanged := MergeFprs(s, o);
      changed := changed || fprChanged;
    }

    method MergeGprs(o: TrackerState) returns (changed: bool)
      requires State().Valid() && o.Valid()
      modifies this`gprValues, this`reachingDefs
      ensures gprValues == MergeState(old(State()), o).gprs
      ensures reachingDefs == MergeState(old(State()), o).defs
      ensures changed == exists r: Register :: LosesGpr(old(State()), o, r)
    {
      changed := false;
      ghost var s := State();
      ghost var m := MergeState(s, o);
      for r := 0 to 32
        invariant |gprValues| == 32 && |reachingDefs| == 32
        invariant forall q :: 0 <= q < 32 ==> (gprValues[q] == if q < r then m.gprs[q] else s.gprs[q])
        invariant forall q :: 0 <= q < 32 ==> (reachingDefs[q] == if q < r then m.defs[q] else s.defs[q])
        invariant changed == exists q: Register :: q < r && LosesGpr(s, o, q)
      {
        ghost var before := changed;
        var lost := false;
        if r != ZERO {
          lost := MergeRegister(o, r);
          changed := changed || lost;
        }
        assert lost == LosesGpr(s, o, r);
        assert changed == (before || LosesGpr(s, o, r));
      }
    }

    method MergeRegister(o: TrackerState, r: Register) returns (lost: bool)
      requires |gprValues| == 32 && |reachingDefs| == 32 && o.Valid() && r != ZERO
      modifies this`gprValues, this`reachingDefs
      ensures gprValues == old(gprValues)[r := MergedValue(old(gprValues)[r], o.gprs[r])]
      ensures reachingDefs == old(reachingDefs)[r := MergedDefinition(old(reachingDefs)[r], o.defs[r])]
      ensures lost == ((!old(gprValues)[r].UnknownValue? && !SameValue(old(gprValues)[r], o.gprs[r]))
                       || (old(reachingDefs)[r].Some? && !SameDefinition(old(reachingDefs)[r], o.defs[r])))
    {
      lost := false;
      if !SameValue(gprValues[r], o.gprs[r]) {
        if !gprValues[r].UnknownValue? {
          gprValues := gprValues[r := UnknownValue];
          lost := true;
        }
      }
      if !SameDefinition(reachingDefs[r], o.defs[r]) && reachingDefs[r].Some? {
        reachingDefs := reachingDefs[r := None];
        lost := true;
      }
    }

    method MergeFprs(ghost s: TrackerState, o: TrackerState) returns (changed: bool)
      requires s.Valid() && o.Valid() && fprConstBits == s.fprs
      modifies this`fprConstBits
      ensures fprConstBits == MergeState(s, o).fprs
      ensures changed == exists f: FpRegister :: LosesFpr(s, o, f)
    {
      changed := false;
      ghost var m := MergeState(s, o);
      for f := 0 to 32
        invariant |fprConstBits| == 32
        invariant forall g :: 0 <= g < 32 ==> (fprConstBits[g] == if g < f then m.fprs[g] else s.fprs[g])
        invariant changed == exists g: FpRegister :: g < f && LosesFpr(s, o, g)
      {
        ghost var before := changed;
        if fprConstBits[f] != o.fprs[f] {
          if fprConstBits[f].Some? {
            fprConstBits := fprConstBits[f := None];
            changed := true;
          }
        }
        assert changed == (before || LosesFpr(s, o, f));
      }
    }
  }

  /** A call clears the caller-saved tables in two phases; the second clearing changes nothing. */
  lemma ClearingTwice(
    gprs: seq<TrackedValue>, defs: seq<Option<Definition>>, frame: StackFrameInfo, inst: Instruction, idx: nat)
    requires |gprs| == 32 && |defs| == 32 && HasOperands(inst) && inst.IsCall()
    ensures GprsAfter(ClearCallerSaved(gprs, UnknownValue), inst, idx) == GprsAfter(gprs, inst, idx)
    ensures FrameAfter(frame, ClearCallerSaved(gprs, UnknownValue), inst) == FrameAfter(frame, gprs, inst)
    ensures ClearCallerSaved(ClearCallerSaved(defs, None), None) == ClearCallerSaved(defs, None)
  {
    var once := ClearCallerSaved(gprs, UnknownValue);
    assert ClearCallerSaved(once, UnknownValue) == once;
  }

  lemma CallerSavedList(cleared: seq<Register>)
    requires cleared == [AT, V0, V1, A0, A1, A2, A3] + seq(8, i requires 0 <= i < 8 => (T0 + i) as Register)
                        + [T8, T9, K0, K1]
    ensures forall r: Register :: r in cleared <==> IsCallerSaved(r)
  {
    forall r: Register | IsCallerSaved(r) ensures r in cleared {
      assert r < 16 ==> cleared[r - 1] == r;
      assert 24 <= r ==> cleared[r - 9] == r;
    }
  }
}
