/** What the tracked values mean: a register machine that executes the instruction list in order, the
    relation between a tracked value and a register's contents, and the theorem that stepping the
    tracker keeps that relation on every run. */
module TrackerSoundness {
  import opened Mips
  import opened UseDefs
  import opened RegisterTracking
  import opened Wrappers

  /** The low 32 bits of every integer register, and the floating-point bit patterns. */
  datatype Machine = Machine(gpr: seq<bv32>, fpr: seq<bv32>) {
    predicate Valid() {
      |gpr| == 32 && |fpr| == 32 && gpr[ZERO] == 0
    }
  }

  /** The value a computed opcode produces. */
  function Result(inst: Instruction, m: Machine): bv32
    requires IsTransfer(inst.opcode) && HasOperands(inst) && m.Valid()
  {
    if inst.opcode.Lui? then LuiBits(inst.immediate)
    else if IsAddImmediate(inst.opcode) then Displaced(m.gpr[inst.rs.value], inst.immediate)
    else if IsLogicImmediate(inst.opcode) then
      LogicImmediate(inst.opcode, m.gpr[inst.rs.value], inst.immediate)
    else Sum(m.gpr[inst.rs.value], m.gpr[inst.rt.value])
  }

  /** A call: the callee keeps the callee-saved registers, everything else is arbitrary, and so is the
      return address left in the link register. */
  ghost predicate ExecCall(inst: Instruction, m: Machine, m': Machine)
    requires m.Valid() && m'.Valid()
  {
    && (forall r: Register :: !IsCallerSaved(r) && r != LinkRegister(inst) ==> m'.gpr[r] == m.gpr[r])
    && (forall f: FpRegister :: !IsCallerSavedFpr(f) ==> m'.fpr[f] == m.fpr[f])
  }

  /** Any other instruction: its one integer result is the computed value, or arbitrary when the
      opcode is not one of the computed ones; every other integer register is kept. */
  ghost predicate ExecGprs(inst: Instruction, m: Machine, m': Machine)
    requires m.Valid() && m'.Valid() && HasOperands(inst)
  {
    && (forall r: Register :: GprResult(inst) != Some(r) ==> m'.gpr[r] == m.gpr[r])
    && (IsTransfer(inst.opcode) ==>
          forall r: Register :: GprResult(inst) == Some(r) && r != ZERO ==> m'.gpr[r] == Result(inst, m))
  }

  /** A floating-point result reaches the named register and, from an even one, its odd partner;
      mtc1 moves exactly one word. */
  ghost predicate ExecFprs(inst: Instruction, m: Machine, m': Machine)
    requires m.Valid() && m'.Valid()
  {
    if inst.opcode.Mtc1? && inst.rt.Some? && inst.fs.Some? then
      m'.fpr == m.fpr[inst.fs.value := m.gpr[inst.rt.value]]
    else
      forall f: FpRegister :: !FprReached(FprResult(inst), f) ==> m'.fpr[f] == m.fpr[f]
  }

  predicate FprReached(d: Option<FpRegister>, f: FpRegister) {
    d.Some? && (f == d.value || (d.value % 2 == 0 && f == d.value + 1))
  }

  ghost predicate ExecStep(inst: Instruction, m: Machine, m': Machine)
    requires HasOperands(inst)
  {
    && m.Valid() && m'.Valid()
    && if inst.IsCall() then ExecCall(inst, m, m')
       else ExecGprs(inst, m, m') && ExecFprs(inst, m, m')
  }

  /** trace[i] is the machine just before instruction i. */
  ghost predicate IsRun(insts: seq<Instruction>, trace: seq<Machine>)
    requires AllOperands(insts)
  {
    && |trace| == |insts| + 1
    && trace[0].Valid()
    && forall i :: 0 <= i < |insts| ==> ExecStep(insts[i], trace[i], trace[i + 1])
  }

  predicate AllOperands(insts: seq<Instruction>) {
    forall i :: 0 <= i < |insts| ==> HasOperands(insts[i])
  }

  // ----- Meaning of tracked values -----

  /** The contents x agree with the tracked value: a constant, initial $sp plus an offset, a lui high
      half, an address, or a high half plus what the index register held just before the instruction
      that added it. */
  ghost predicate Denotes(v: TrackedValue, x: bv32, trace: seq<Machine>)
    requires AllValid(trace)
  {
    match v
    case UnknownValue => true
    case Constant(c) => x == c
    case StackOffset(o) => x == Sum(trace[0].gpr[SP], o)
    case SymbolHi(h, _) => x == h
    case SymbolAddress(a) => x == a
    case SymbolHiIndex(h, r, _, mid) => mid < |trace| && x == Sum(h, trace[mid].gpr[r])
  }

  ghost predicate AllValid(trace: seq<Machine>) {
    |trace| > 0 && forall i :: 0 <= i < |trace| ==> trace[i].Valid()
  }

  /** Every tracked register and every known bit pattern is right at the end of the trace. */
  ghost predicate Sound(s: TrackerState, trace: seq<Machine>) {
    && s.Valid()
    && AllValid(trace)
    && |trace| == s.index + 1
    && GprsSound(s.gprs, trace)
    && FprsSound(s.fprs, trace[s.index])
  }

  ghost predicate GprsSound(gprs: seq<TrackedValue>, trace: seq<Machine>)
    requires |gprs| == 32 && AllValid(trace)
  {
    forall r: Register :: Denotes(gprs[r], trace[|trace| - 1].gpr[r], trace)
  }

  ghost predicate FprsSound(fprs: seq<Option<bv32>>, m: Machine)
    requires |fprs| == 32 && m.Valid()
  {
    forall f: FpRegister :: fprs[f].Some? ==> m.fpr[f] == fprs[f].value
  }

  /** Step leaves the link register of a call alone, so a value tracked in it must not survive. */
  predicate LinkSafe(s: TrackerState, inst: Instruction)
    requires s.Valid()
  {
    var link := LinkRegister(inst);
    inst.IsCall() ==> link == ZERO || IsCallerSaved(link) || s.gprs[link].UnknownValue?
  }

  // ----- Value by value -----

  lemma DenotesLater(v: TrackedValue, x: bv32, trace: seq<Machine>, m: Machine)
    requires AllValid(trace) && m.Valid() && Denotes(v, x, trace)
    ensures Denotes(v, x, trace + [m])
  {
  }

  lemma SumAssociative(x: bv32, y: bv32, z: bv32)
    ensures Sum(Sum(x, y), z) == Sum(x, Sum(y, z))
  {
    calc {
      Sum(Sum(x, y), z);
      Sum(x + y, z);
      (x + y) + z;
      x + (y + z);
      Sum(x, y + z);
      Sum(x, Sum(y, z));
    }
  }

  lemma SumDisplaced(base: bv32, o: bv32, imm: bv16)
    ensures Displaced(Sum(base, o), imm) == Sum(base, Displaced(o, imm))
  {
    SumAssociative(base, o, SignExtend(imm));
    hide Sum, SignExtend;
  }

  lemma AddImmediateSound(v: TrackedValue, x: bv32, imm: bv16, trace: seq<Machine>)
    requires AllValid(trace) && Denotes(v, x, trace)
    ensures Denotes(AddImmediateValue(v, imm), Displaced(x, imm), trace)
  {
    if v.StackOffset? {
      SumDisplaced(trace[0].gpr[SP], v.offset, imm);
    }
    hide Displaced, Sum;
  }

  lemma LogicImmediateSound(op: Opcode, v: TrackedValue, x: bv32, imm: bv16, trace: seq<Machine>)
    requires AllValid(trace) && Denotes(v, x, trace)
    ensures Denotes(LogicImmediateValue(op, v, imm), LogicImmediate(op, x, imm), trace)
  {
    hide LogicImmediate, Sum;
  }

  lemma SumFacts(x: bv32, y: bv32)
    ensures Sum(x, y) == Sum(y, x) && Sum(0, x) == x && Sum(x, 0) == x
  {
  }

  lemma AddValuesSound(rs: Register, rt: Register, v1: TrackedValue, v2: TrackedValue, trace: seq<Machine>)
    requires AllValid(trace)
    requires Denotes(v1, trace[|trace| - 1].gpr[rs], trace)
    requires Denotes(v2, trace[|trace| - 1].gpr[rt], trace)
    ensures var m := trace[|trace| - 1];
            Denotes(AddRegistersValue(rs, rt, v1, v2, |trace| - 1), Sum(m.gpr[rs], m.gpr[rt]), trace)
  {
    var m := trace[|trace| - 1];
    SumFacts(m.gpr[rs], m.gpr[rt]);
    SumFacts(m.gpr[rt], m.gpr[rs]);
    hide Sum;
  }

  lemma ZeroOperand(op: Opcode, imm: bv16)
    ensures Displaced(0, imm) == SignExtend(imm)
  {
    SumFacts(SignExtend(imm), 0);
    hide Sum, SignExtend;
  }

  lemma TransferSound(s: TrackerState, inst: Instruction, trace: seq<Machine>)
    requires Sound(s, trace) && IsTransfer(inst.opcode) && HasOperands(inst)
    ensures Denotes(TransferValue(inst, s.gprs, s.index), Result(inst, trace[s.index]), trace)
  {
    var m := trace[s.index];
    if inst.opcode.Lui? {
    } else if IsAddRegisters(inst.opcode) {
      AddValuesSound(inst.rs.value, inst.rt.value, s.gprs[inst.rs.value], s.gprs[inst.rt.value], trace);
    } else {
      ImmediateSound(s, inst, trace);
    }
    hide Displaced, LogicImmediate, LogicImmediateValue, AddImmediateValue, AddRegistersValue, Sum;
  }

  lemma ImmediateSound(s: TrackerState, inst: Instruction, trace: seq<Machine>)
    requires Sound(s, trace) && HasOperands(inst)
    requires IsAddImmediate(inst.opcode) || IsLogicImmediate(inst.opcode)
    ensures Denotes(TransferValue(inst, s.gprs, s.index), Result(inst, trace[s.index]), trace)
  {
    var m, rs := trace[s.index], inst.rs.value;
    assert Denotes(s.gprs[rs], m.gpr[rs], trace);
    AddImmediateSound(s.gprs[rs], m.gpr[rs], inst.immediate, trace);
    LogicImmediateSound(inst.opcode, s.gprs[rs], m.gpr[rs], inst.immediate, trace);
    ZeroOperand(inst.opcode, inst.immediate);
    hide Displaced, SignExtend, LogicImmediate, Sum;
  }

  // ----- One step -----

  lemma ClearGprsAt(gprs: seq<TrackedValue>, regs: seq<Register>, r: Register)
    requires |gprs| == 32
    ensures ClearGprs(gprs, regs)[r] == if r in regs then UnknownValue else gprs[r]
  {
    if regs != [] {
      ClearGprsAt(gprs, regs[..|regs| - 1], r);
      assert regs == regs[..|regs| - 1] + [regs[|regs| - 1]];
    }
  }

  /** What GprsAfter holds for a register other than $zero. */
  lemma GprsAfterAt(s: TrackerState, inst: Instruction, r: Register)
    requires s.Valid() && HasOperands(inst) && r != ZERO
    ensures GprsAfter(s.gprs, inst, s.index)[r] ==
            if inst.IsCall() then (if IsCallerSaved(r) then UnknownValue else s.gprs[r])
            else if IsTransfer(inst.opcode) then
              (if TransferTarget(inst) == Some(r) then TransferValue(inst, s.gprs, s.index) else s.gprs[r])
            else if inst.opcode.Sw? || inst.opcode.Sd? then s.gprs[r]
            else if r in GetInstructionUseDef(inst).gprDefs then UnknownValue else s.gprs[r]
  {
    ClearGprsAt(s.gprs, GetInstructionUseDef(inst).gprDefs, r);
    hide TransferValue, GetInstructionUseDef, TransferTarget, IsTransfer, IsCallOp, ClearGprs;
  }

  lemma TransferResult(inst: Instruction)
    requires IsTransfer(inst.opcode)
    ensures !inst.IsCall() && GprResult(inst) == TransferTarget(inst)
  {
  }

  lemma StoresHaveNoResult(inst: Instruction)
    requires inst.opcode.Sw? || inst.opcode.Sd?
    ensures !inst.IsCall() && GprResult(inst) == None
  {
  }

  lemma GprStepSound(s: TrackerState, inst: Instruction, trace: seq<Machine>, m': Machine, r: Register)
    requires Sound(s, trace) && HasOperands(inst) && LinkSafe(s, inst)
    requires ExecStep(inst, trace[s.index], m') && r != ZERO
    ensures Denotes(GprsAfter(s.gprs, inst, s.index)[r], m'.gpr[r], trace + [m'])
  {
    var m := trace[s.index];
    GprsAfterAt(s, inst, r);
    assert Denotes(s.gprs[r], m.gpr[r], trace);
    DenotesLater(s.gprs[r], m.gpr[r], trace, m');
    if inst.IsCall() {
    } else if IsTransfer(inst.opcode) {
      TransferResult(inst);
      TransferSound(s, inst, trace);
      DenotesLater(TransferValue(inst, s.gprs, s.index), Result(inst, m), trace, m');
    } else if inst.opcode.Sw? || inst.opcode.Sd? {
      StoresHaveNoResult(inst);
    } else {
      GprDefsExact(inst);
    }
    hide GprsAfter, TransferValue, Result, Denotes, GetInstructionUseDef, GprResult, TransferTarget, IsTransfer, IsCallOp;
  }

  lemma {:induction false} ClearFprsAt(fprs: seq<Option<bv32>>, regs: seq<FpRegister>, f: FpRegister)
    requires |fprs| == 32
    ensures ClearFprs(fprs, regs)[f].Some? ==>
              ClearFprs(fprs, regs)[f] == fprs[f] && forall d :: d in regs ==> !FprReached(Some(d), f)
  {
    if regs != [] {
      ClearFprsAt(fprs, regs[..|regs| - 1], f);
      assert regs == regs[..|regs| - 1] + [regs[|regs| - 1]];
    }
  }

  lemma MovedBitsSound(v: TrackedValue, x: bv32, trace: seq<Machine>)
    requires AllValid(trace) && Denotes(v, x, trace)
    ensures MovedBits(v).Some? ==> MovedBits(v).value == x
  {
  }

  lemma MoveToFprSound(s: TrackerState, inst: Instruction, trace: seq<Machine>, m': Machine, f: FpRegister)
    requires Sound(s, trace) && inst.rt.Some? && inst.fs.Some? && m'.Valid()
    requires m'.fpr == trace[s.index].fpr[inst.fs.value := trace[s.index].gpr[inst.rt.value]]
    ensures var bits := if inst.rt.value == ZERO then Some(0) else MovedBits(s.gprs[inst.rt.value]);
            var after := s.fprs[inst.fs.value := bits][f];
            after.Some? ==> m'.fpr[f] == after.value
  {
    var m := trace[s.index];
    assert Denotes(s.gprs[inst.rt.value], m.gpr[inst.rt.value], trace);
    MovedBitsSound(s.gprs[inst.rt.value], m.gpr[inst.rt.value], trace);
    hide Denotes, MovedBits;
  }

  lemma FprStepSound(s: TrackerState, inst: Instruction, trace: seq<Machine>, m': Machine, f: FpRegister)
    requires Sound(s, trace) && HasOperands(inst) && ExecStep(inst, trace[s.index], m')
    ensures var after := FprsAfter(s.fprs, s.gprs, inst)[f]; after.Some? ==> m'.fpr[f] == after.value
  {
    hide Denotes, GprsSound, GetInstructionUseDef, IsCallOp, MovedBits, ClearFprs, ExecGprs, FprResultSlot;
    if inst.IsCall() {
    } else if inst.opcode.Mtc1? && inst.rt.Some? && inst.fs.Some? {
      MoveToFprSound(s, inst, trace, m', f);
    } else {
      FprDefsExact(inst);
      ClearFprsAt(s.fprs, GetInstructionUseDef(inst).fprDefs, f);
    }
  }

  /** One step of the tracker follows one step of the machine, whatever the machine does within its
      freedom. */
  lemma StepSound(s: TrackerState, inst: Instruction, trace: seq<Machine>, m': Machine)
    requires Sound(s, trace) && HasOperands(inst) && LinkSafe(s, inst)
    requires ExecStep(inst, trace[s.index], m')
    ensures Sound(StepState(s, inst), trace + [m'])
  {
    var s', trace' := StepState(s, inst), trace + [m'];
    forall r: Register ensures Denotes(s'.gprs[r], m'.gpr[r], trace') {
      if r != ZERO {
        GprStepSound(s, inst, trace, m', r);
      }
    }
    forall f: FpRegister | s'.fprs[f].Some? ensures m'.fpr[f] == s'.fprs[f].value {
      FprStepSound(s, inst, trace, m', f);
    }
    assert trace'[s'.index] == m';
    hide GprsAfter, FprsAfter, DefsAfter, RecordUses, FrameAfter, ExecStep, GetInstructionUseDef;
  }

  // ----- Whole runs -----

  function StateAt(insts: seq<Instruction>, k: nat): (s: TrackerState)
    requires AllOperands(insts) && k <= |insts|
    ensures s.Valid() && s.index == k
  {
    AnalyzeState(InitialState(), insts[..k])
  }

  lemma StateAtNext(insts: seq<Instruction>, k: nat)
    requires AllOperands(insts) && k < |insts|
    ensures StateAt(insts, k + 1) == StepState(StateAt(insts, k), insts[k])
  {
    assert insts[..k + 1][..k] == insts[..k];
    hide StepState, InitialState;
  }

  /** At every call in the list the link register holds no tracked value that would survive. */
  ghost predicate AllLinksSafe(insts: seq<Instruction>)
    requires AllOperands(insts)
  {
    forall k :: 0 <= k < |insts| ==> LinkSafe(StateAt(insts, k), insts[k])
  }

  lemma InitialSound(m: Machine)
    requires m.Valid()
    ensures Sound(InitialState(), [m])
  {
    var o: bv32 := m.gpr[SP];
    SumFacts(o, 0);
    hide Sum;
  }

  lemma StateAtZero(insts: seq<Instruction>)
    requires AllOperands(insts)
    ensures StateAt(insts, 0) == InitialState()
  {
    hide InitialState;
  }

  lemma {:induction false} PrefixSound(insts: seq<Instruction>, trace: seq<Machine>, k: nat)
    requires AllOperands(insts) && IsRun(insts, trace) && k <= |insts|
    requires forall i :: 0 <= i < k ==> LinkSafe(StateAt(insts, i), insts[i])
    ensures Sound(StateAt(insts, k), trace[..k + 1])
  {
    hide StepState, InitialState, Sound, LinkSafe, StateAt, ExecStep;
    if k == 0 {
      InitialSound(trace[0]);
      StateAtZero(insts);
      assert trace[..1] == [trace[0]];
    } else {
      PrefixSound(insts, trace, k - 1);
      StateAtNext(insts, k - 1);
      StepSound(StateAt(insts, k - 1), insts[k - 1], trace[..k], trace[k]);
      assert trace[..k + 1] == trace[..k] + [trace[k]];
    }
  }

  /** On every run of a list whose calls leave their link registers untracked, all tracked values and
      bit patterns are right at the end. */
  lemma AnalyzeSound(insts: seq<Instruction>, trace: seq<Machine>)
    requires AllOperands(insts) && IsRun(insts, trace) && AllLinksSafe(insts)
    ensures Sound(AnalyzeState(InitialState(), insts), trace)
  {
    PrefixSound(insts, trace, |insts|);
    assert insts[..|insts|] == insts && trace[..|insts| + 1] == trace;
    hide Sound, AnalyzeState, InitialState;
  }

  // ----- Exactly when the tracker is right -----

  /** At every point of the list, on every run that reaches it, the tracked state is right. */
  ghost predicate AlwaysSound(insts: seq<Instruction>)
    requires AllOperands(insts)
  {
    forall k: nat, trace {:trigger Sound(StateAt(insts, k), trace)} ::
      k <= |insts| && IsRun(insts[..k], trace) ==> Sound(StateAt(insts, k), trace)
  }

  /** A machine step that does as little as possible. */
  function LazyStep(inst: Instruction, m: Machine): Machine
    requires HasOperands(inst) && m.Valid()
  {
    if inst.IsCall() then m
    else if IsTransfer(inst.opcode) then
      var target := TransferTarget(inst);
      if target.Some? && target.value != ZERO then m.(gpr := m.gpr[target.value := Result(inst, m)]) else m
    else if inst.opcode.Mtc1? && inst.rt.Some? && inst.fs.Some? then
      m.(fpr := m.fpr[inst.fs.value := m.gpr[inst.rt.value]])
    else m
  }

  lemma LazyStepRuns(inst: Instruction, m: Machine)
    requires HasOperands(inst) && m.Valid()
    ensures ExecStep(inst, m, LazyStep(inst, m))
  {
    hide GetInstructionUseDef, Result, FprResult;
    if IsTransfer(inst.opcode) {
      TransferResult(inst);
    }
    hide GprResult, TransferTarget;
  }

  /** Every list has a run from every valid machine. */
  lemma {:induction false} RunExists(insts: seq<Instruction>, m: Machine) returns (trace: seq<Machine>)
    requires AllOperands(insts) && m.Valid()
    ensures IsRun(insts, trace) && trace[0] == m
  {
    hide ExecStep, LazyStep;
    if insts == [] {
      trace := [m];
    } else {
      var n := |insts| - 1;
      var before := RunExists(insts[..n], m);
      assert before[n].Valid() by {
        RunIsValid(insts[..n], before, n);
      }
      LazyStepRuns(insts[n], before[n]);
      trace := before + [LazyStep(insts[n], before[n])];
      forall i | 0 <= i < |insts| ensures ExecStep(insts[i], trace[i], trace[i + 1]) {
        if i < n {
          assert ExecStep(insts[..n][i], before[i], before[i + 1]);
        }
      }
    }
  }

  lemma RunIsValid(insts: seq<Instruction>, trace: seq<Machine>, i: nat)
    requires AllOperands(insts) && IsRun(insts, trace) && i < |trace|
    ensures trace[i].Valid()
  {
    if i > 0 {
      assert ExecStep(insts[i - 1], trace[i - 1], trace[i]);
    }
  }

  lemma DenotesOneValue(v: TrackedValue, x: bv32, y: bv32, trace: seq<Machine>, m: Machine)
    requires AllValid(trace) && m.Valid() && !v.UnknownValue?
    requires Denotes(v, x, trace) && Denotes(v, y, trace + [m])
    ensures x == y
  {
    hide Sum;
  }

  lemma Successor(x: bv32)
    ensures x + 1 != x
  {
  }

  /** A call that clobbers nothing but its link register. */
  lemma CallChangingLink(inst: Instruction, m: Machine, x: bv32) returns (m': Machine)
    requires inst.IsCall() && HasOperands(inst) && m.Valid() && LinkRegister(inst) != ZERO
    ensures ExecStep(inst, m, m') && m'.gpr[LinkRegister(inst)] == x
  {
    m' := m.(gpr := m.gpr[LinkRegister(inst) := x]);
  }

  lemma UnsafeLinkIsWrong(insts: seq<Instruction>, k: nat, trace: seq<Machine>)
    requires AllOperands(insts) && k < |insts| && !LinkSafe(StateAt(insts, k), insts[k])
    requires IsRun(insts[..k], trace) && Sound(StateAt(insts, k), trace)
    ensures exists m' :: IsRun(insts[..k + 1], trace + [m']) && !Sound(StateAt(insts, k + 1), trace + [m'])
  {
    var inst, s, m := insts[k], StateAt(insts, k), trace[k];
    var link := LinkRegister(inst);
    Successor(m.gpr[link]);
    var m' := CallChangingLink(inst, m, m.gpr[link] + 1);
    RunExtended(insts, k, trace, m');
    StateAtNext(insts, k);
    GprsAfterAt(s, inst, link);
    var s' := StateAt(insts, k + 1);
    assert s'.gprs[link] == s.gprs[link];
    assert Denotes(s.gprs[link], m.gpr[link], trace);
    if Denotes(s.gprs[link], m'.gpr[link], trace + [m']) {
      DenotesOneValue(s.gprs[link], m.gpr[link], m'.gpr[link], trace, m');
    }
    assert (trace + [m'])[|trace + [m']| - 1] == m';
    hide StateAt, StepState, Denotes, ExecStep, LinkSafe, IsRun, GprsAfter, IsCallOp;
  }

  lemma RunExtended(insts: seq<Instruction>, k: nat, trace: seq<Machine>, m': Machine)
    requires AllOperands(insts) && k < |insts| && IsRun(insts[..k], trace) && ExecStep(insts[k], trace[k], m')
    ensures IsRun(insts[..k + 1], trace + [m'])
  {
    hide ExecStep;
    var longer := trace + [m'];
    forall i | 0 <= i < k + 1 ensures ExecStep(insts[..k + 1][i], longer[i], longer[i + 1]) {
      if i < k {
        assert ExecStep(insts[..k][i], trace[i], trace[i + 1]);
      }
    }
  }

  lemma PrefixLinks(insts: seq<Instruction>, k: nat, trace: seq<Machine>)
    requires AllOperands(insts) && k <= |insts| && AllLinksSafe(insts) && IsRun(insts[..k], trace)
    ensures Sound(StateAt(insts, k), trace)
  {
    var prefix := insts[..k];
    forall i: nat | i <= k ensures StateAt(prefix, i) == StateAt(insts, i) {
      assert prefix[..i] == insts[..i];
    }
    assert AllLinksSafe(prefix) by {
      hide StateAt, LinkSafe;
    }
    PrefixSound(prefix, trace, k);
    assert trace[..k + 1] == trace;
    hide Sound, StateAt;
  }

  /** The tracked state is right at every point of every run exactly when no call finds a tracked
      value in a link register that a callee would preserve. */
  lemma SoundExactlyWhenLinksSafe(insts: seq<Instruction>)
    requires AllOperands(insts)
    ensures AlwaysSound(insts) <==> AllLinksSafe(insts)
  {
    hide StateAt, Sound, LinkSafe, IsRun;
    if AllLinksSafe(insts) {
      forall k: nat, trace | k <= |insts| && IsRun(insts[..k], trace) ensures Sound(StateAt(insts, k), trace) {
        PrefixLinks(insts, k, trace);
      }
    }
    if AlwaysSound(insts) {
      forall k | 0 <= k < |insts| ensures LinkSafe(StateAt(insts, k), insts[k]) {
        var m := Machine(seq(32, r => 0), seq(32, f => 0));
        var trace := RunExists(insts[..k], m);
        assert Sound(StateAt(insts, k), trace);
        if !LinkSafe(StateAt(insts, k), insts[k]) {
          UnsafeLinkIsWrong(insts, k, trace);
        }
      }
    }
  }

  // ----- What stays right when a link is unsafe -----

  /** The state without what is tracked in the link register of a call. */
  function Forgetting(s: TrackerState, inst: Instruction): (r: TrackerState)
    requires s.Valid()
    ensures r.Valid() && r.index == s.index
  {
    var link := LinkRegister(inst);
    if inst.IsCall() && link != ZERO then s.(gprs := s.gprs[link := UnknownValue]) else s
  }

  /** The state of a tracker that forgets the link register at every call. */
  function CarefulAt(insts: seq<Instruction>, k: nat): (s: TrackerState)
    requires AllOperands(insts) && k <= |insts|
    ensures s.Valid() && s.index == k
  {
    if k == 0 then InitialState() else StepState(Forgetting(CarefulAt(insts, k - 1), insts[k - 1]), insts[k - 1])
  }

  lemma ForgettingIsSound(s: TrackerState, inst: Instruction, trace: seq<Machine>)
    requires Sound(s, trace)
    ensures Sound(Forgetting(s, inst), trace) && LinkSafe(Forgetting(s, inst), inst)
  {
    var f, last := Forgetting(s, inst), trace[s.index];
    forall r: Register ensures Denotes(f.gprs[r], last.gpr[r], trace) {
      assert Denotes(s.gprs[r], last.gpr[r], trace);
    }
    hide Sum, LinkRegister, IsCallOp;
  }

  /** That tracker is right on every run of every list. */
  lemma {:induction false} CarefulIsSound(insts: seq<Instruction>, trace: seq<Machine>, k: nat)
    requires AllOperands(insts) && IsRun(insts, trace) && k <= |insts|
    ensures Sound(CarefulAt(insts, k), trace[..k + 1])
  {
    hide StepState, InitialState, Sound, LinkSafe, ExecStep, Forgetting, HasOperands;
    if k == 0 {
      InitialSound(trace[0]);
      assert trace[..1] == [trace[0]];
    } else {
      CarefulIsSound(insts, trace, k - 1);
      var s := CarefulAt(insts, k - 1);
      ForgettingIsSound(s, insts[k - 1], trace[..k]);
      assert HasOperands(insts[k - 1]) && trace[..k][k - 1] == trace[k - 1];
      assert ExecStep(insts[k - 1], trace[k - 1], trace[k - 1 + 1]);
      StepSound(Forgetting(s, insts[k - 1]), insts[k - 1], trace[..k], trace[k]);
      assert trace[..k + 1] == trace[..k] + [trace[k]];
    }
  }

  /** The operands from which a computed result is made. */
  predicate ComputedFrom(inst: Instruction, t: set<Register>) {
    && !inst.opcode.Lui?
    && ((inst.rs.Some? && inst.rs.value in t) || (IsAddRegisters(inst.opcode) && inst.rt.Some? && inst.rt.value in t))
  }

  /** How a set of tainted registers spreads: a call taints its link register while something is tracked in it,
      computing with a tainted operand taints the result, and any other write cleans. */
  function TaintAfter(t: set<Register>, s: TrackerState, inst: Instruction): set<Register>
    requires s.Valid() && HasOperands(inst)
  {
    if inst.IsCall() then
      var link := LinkRegister(inst);
      var more := if link != ZERO && !s.gprs[link].UnknownValue? then t + {link} else t;
      set r | r in more && !IsCallerSaved(r)
    else if IsTransfer(inst.opcode) then
      var target := TransferTarget(inst);
      if target.None? || target.value == ZERO then t
      else if ComputedFrom(inst, t) then t + {target.value}
      else t - {target.value}
    else if inst.opcode.Sw? || inst.opcode.Sd? then t
    else set r | r in t && r !in GetInstructionUseDef(inst).gprDefs
  }

  /** The registers whose tracked value may come from a stale link. */
  function Tainted(insts: seq<Instruction>, k: nat): set<Register>
    requires AllOperands(insts) && k <= |insts|
  {
    if k == 0 then {} else TaintAfter(Tainted(insts, k - 1), StateAt(insts, k - 1), insts[k - 1])
  }

  lemma UntaintedStep(t: set<Register>, s: TrackerState, c: TrackerState, inst: Instruction, r: Register)
    requires s.Valid() && c.Valid() && s.index == c.index && HasOperands(inst)
    requires forall q: Register :: q !in t ==> s.gprs[q] == c.gprs[q]
    requires r !in TaintAfter(t, s, inst)
    ensures StepState(s, inst).gprs[r] == StepState(Forgetting(c, inst), inst).gprs[r]
  {
    hide FprsAfter, DefsAfter, RecordUses, FrameAfter, GprsAfter, IsCallOp, GetInstructionUseDef, IsCallerSaved;
    if r != ZERO {
      var f := Forgetting(c, inst);
      GprsAfterAt(s, inst, r);
      GprsAfterAt(f, inst, r);
      if IsTransfer(inst.opcode) {
        TransferResult(inst);
        if TransferTarget(inst) == Some(r) {
          SameTransfer(inst, s.gprs, c.gprs, t, s.index);
        }
      }
    } else {
      ZeroStays(s, inst);
      ZeroStays(Forgetting(c, inst), inst);
    }
  }

  lemma ZeroStays(s: TrackerState, inst: Instruction)
    requires s.Valid() && HasOperands(inst)
    ensures StepState(s, inst).gprs[ZERO] == Constant(0)
  {
  }

  lemma SameTransfer(inst: Instruction, a: seq<TrackedValue>, b: seq<TrackedValue>, t: set<Register>, idx: nat)
    requires IsTransfer(inst.opcode) && HasOperands(inst) && |a| == |b| == 32
    requires !ComputedFrom(inst, t) && forall q: Register :: q !in t ==> a[q] == b[q]
    ensures TransferValue(inst, a, idx) == TransferValue(inst, b, idx)
  {
    hide AddRegistersValue, AddImmediateValue, LogicImmediateValue;
  }

  lemma {:induction false} UntaintedAgrees(insts: seq<Instruction>, k: nat, r: Register)
    requires AllOperands(insts) && k <= |insts| && r !in Tainted(insts, k)
    ensures StateAt(insts, k).gprs[r] == CarefulAt(insts, k).gprs[r]
    decreases k
  {
    hide StepState, InitialState, StateAt, Forgetting, TaintAfter, HasOperands;
    if k == 0 {
      StateAtZero(insts);
    } else {
      var t, s, c := Tainted(insts, k - 1), StateAt(insts, k - 1), CarefulAt(insts, k - 1);
      forall q: Register | q !in t ensures s.gprs[q] == c.gprs[q] {
        UntaintedAgrees(insts, k - 1, q);
      }
      assert HasOperands(insts[k - 1]);
      StateAtNext(insts, k - 1);
      UntaintedStep(t, s, c, insts[k - 1], r);
    }
  }

  /** The tracked value of a register says what the register holds at the end of the trace. */
  ghost predicate RightAtEnd(v: TrackedValue, trace: seq<Machine>, r: Register) {
    AllValid(trace) && Denotes(v, trace[|trace| - 1].gpr[r], trace)
  }

  lemma SoundIsRight(s: TrackerState, trace: seq<Machine>, r: Register)
    requires Sound(s, trace)
    ensures RightAtEnd(s.gprs[r], trace, r)
  {
    hide Denotes;
  }

  /** On every run of every list, each register that no stale link has tainted holds what its tracked value
      denotes. */
  lemma UntaintedIsRight(insts: seq<Instruction>, trace: seq<Machine>, k: nat, r: Register)
    requires AllOperands(insts) && IsRun(insts, trace) && k <= |insts| && r !in Tainted(insts, k)
    ensures RightAtEnd(StateAt(insts, k).gprs[r], trace[..k + 1], r)
  {
    hide StateAt, CarefulAt, Tainted, Sound, RightAtEnd, HasOperands;
    CarefulIsSound(insts, trace, k);
    UntaintedAgrees(insts, k, r);
    SoundIsRight(CarefulAt(insts, k), trace[..k + 1], r);
  }

  lemma LuiTracksRa(s: TrackerState, lui: Instruction)
    requires s.Valid() && lui.opcode.Lui? && lui.rt.Some? && lui.rt.value == RA
    ensures GprsAfter(s.gprs, lui, s.index)[RA].SymbolHi?
  {
    hide GetInstructionUseDef;
    TransferResult(lui);
    hide GprResult, IsCallOp;
  }

  lemma LuiThenJal(lui: Instruction, jal: Instruction)
    requires lui.opcode.Lui? && lui.rt.Some? && lui.rt.value == RA && jal.opcode.Jal?
    requires HasOperands(lui) && HasOperands(jal)
    ensures !LinkSafe(StateAt([lui, jal], 1), jal)
  {
    hide StateAt, GetInstructionUseDef, InitialState, GprsAfter, FprsAfter, DefsAfter, RecordUses, FrameAfter, HasOperands;
    var insts := [lui, jal];
    StateAtZero(insts);
    StateAtNext(insts, 0);
    LuiTracksRa(StateAt(insts, 0), lui);
  }

  /** The condition can fail: a lui into $ra is still tracked there after the following jal. */
  lemma LinkRegisterKeepsStaleValue()
    ensures var insts := [DecodeInstruction(0x3C1F8000, 0x80000000), DecodeInstruction(0x0C000000, 0x80000004)];
            AllOperands(insts) && !AlwaysSound(insts)
  {
    hide DecodeInstruction, StateAt, LinkSafe, HasOperands;
    var lui, jal := DecodeInstruction(0x3C1F8000, 0x80000000), DecodeInstruction(0x0C000000, 0x80000004);
    DecodedLuiRa();
    DecodedHasOperands(0x3C1F8000, 0x80000000);
    DecodedHasOperands(0x0C000000, 0x80000004);
    LuiThenJal(lui, jal);
    assert !AllLinksSafe([lui, jal]) by {
      assert [lui, jal][1] == jal;
    }
    SoundExactlyWhenLinksSafe([lui, jal]);
  }

  lemma DecodedLuiRa()
    ensures var lui := DecodeInstruction(0x3C1F8000, 0x80000000);
            lui.opcode.Lui? && lui.rt.Some? && lui.rt.value == RA
    ensures var jal := DecodeInstruction(0x0C000000, 0x80000004); jal.opcode.Jal?
  {
  }

  // ----- Reaching definitions and uses -----

  predicate Defines(inst: Instruction, r: Register) { r in GetInstructionUseDef(inst).gprDefs }

  predicate Kills(inst: Instruction, r: Register) { inst.IsCall() && IsCallerSaved(r) }

  lemma {:induction false} RecordDefsAt(
    defs: seq<Option<Definition>>, regs: seq<Register>, vram: bv32, idx: nat, r: Register)
    requires |defs| == 32
    ensures RecordDefs(defs, regs, vram, idx)[r] ==
            if r in regs then Some(Definition(vram, idx, r, true)) else defs[r]
  {
    if regs != [] {
      RecordDefsAt(defs, regs[..|regs| - 1], vram, idx, r);
      assert regs == regs[..|regs| - 1] + [regs[|regs| - 1]];
    }
  }

  lemma DefsAfterAt(defs: seq<Option<Definition>>, inst: Instruction, idx: nat, r: Register)
    requires |defs| == 32
    ensures DefsAfter(defs, inst, idx)[r] ==
            if Defines(inst, r) then Some(Definition(inst.vram, idx, r, true))
            else if Kills(inst, r) then None else defs[r]
  {
    var cleared := if inst.IsCall() then ClearCallerSaved(defs, None) else defs;
    RecordDefsAt(cleared, GetInstructionUseDef(inst).gprDefs, inst.vram, idx, r);
    hide RecordDefs, GetInstructionUseDef, IsCallOp;
  }

  /** i defines r, and nothing from i to k redefines it or clobbers it in a call. */
  ghost predicate Reaches(insts: seq<Instruction>, i: nat, k: nat, r: Register) {
    && i < k <= |insts| && Defines(insts[i], r)
    && forall j :: i < j < k ==> !Defines(insts[j], r) && !Kills(insts[j], r)
  }

  /** The reaching definition of r before instruction k is the instruction whose write reaches k, and
      there is none exactly when no write does. */
  lemma {:induction false} ReachingDefinitionExact(insts: seq<Instruction>, k: nat, r: Register)
    requires AllOperands(insts) && k <= |insts|
    ensures var d := StateAt(insts, k).defs[r];
            && (d.Some? ==> Reaches(insts, d.value.instructionIndex, k, r) && d.value.reg == r
                            && d.value.isLocal && d.value.vram == insts[d.value.instructionIndex].vram)
            && (d.None? ==> forall i: nat :: !Reaches(insts, i, k, r))
  {
    hide StateAt, Defines, Kills, GprsAfter, FprsAfter, RecordUses, FrameAfter, DefsAfter, GetInstructionUseDef;
    if k == 0 {
      StateAtZero(insts);
    } else {
      ReachingDefinitionExact(insts, k - 1, r);
      StateAtNext(insts, k - 1);
      var before := StateAt(insts, k - 1);
      DefsAfterAt(before.defs, insts[k - 1], k - 1, r);
      if !Defines(insts[k - 1], r) && !Kills(insts[k - 1], r) {
        forall i: nat | Reaches(insts, i, k, r) ensures Reaches(insts, i, k - 1, r) {
        }
      }
    }
  }

  /** Reading regs before instruction idx uses the definition at k. */
  ghost predicate UsesDefinition(defs: seq<Option<Definition>>, regs: seq<Register>, k: nat)
    requires |defs| == 32
  {
    exists r :: r in regs && defs[r].Some? && defs[r].value.isLocal && defs[r].value.instructionIndex == k
  }

  function UsesOf(uses: map<nat, seq<nat>>, k: nat): seq<nat> { if k in uses then uses[k] else [] }

  lemma {:induction false} RecordUsesAt(
    uses: map<nat, seq<nat>>, defs: seq<Option<Definition>>, regs: seq<Register>, idx: nat, k: nat, j: nat)
    requires |defs| == 32
    ensures j in UsesOf(RecordUses(uses, defs, regs, idx), k) <==>
              j in UsesOf(uses, k) || (j == idx && UsesDefinition(defs, regs, k))
  {
    if regs != [] {
      var front, last := regs[..|regs| - 1], regs[|regs| - 1];
      RecordUsesAt(uses, defs, front, idx, k, j);
      assert regs == front + [last];
    }
  }

  /** The uses listed for a definition are exactly the instructions that read a register it reaches. */
  lemma {:induction false} UsesExact(insts: seq<Instruction>, n: nat, k: nat, j: nat)
    requires AllOperands(insts) && n <= |insts|
    ensures j in UsesOf(StateAt(insts, n).uses, k) <==>
              j < n && UsesDefinition(StateAt(insts, j).defs, GetInstructionUseDef(insts[j]).gprUses, k)
  {
    hide StateAt, GprsAfter, FprsAfter, RecordUses, FrameAfter, DefsAfter, GetInstructionUseDef, UsesDefinition;
    if n == 0 {
      StateAtZero(insts);
    } else {
      UsesExact(insts, n - 1, k, j);
      StateAtNext(insts, n - 1);
      var before := StateAt(insts, n - 1);
      RecordUsesAt(before.uses, before.defs, GetInstructionUseDef(insts[n - 1]).gprUses, n - 1, k, j);
    }
  }
}