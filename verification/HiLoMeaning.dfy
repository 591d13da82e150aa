/** What the pairs of the relocation tracker mean on the register machine: the target recorded for a
    consumer is the address that the consumer computes (core/relocations.cc). */
module HiLoMeaning {
  import opened Blocks
  import opened HiLoTracking
  import opened Mips
  import opened Wrappers

  import L = Leaders
  import R = RegisterTracking
  import T = TrackerSoundness
  import U = UseDefs

  /** The base register plus the signed offset, or for ori the two halves joined. */
  function Accessed(m: T.Machine, x: Instruction, r: Register): bv32
    requires m.Valid()
  {
    AddressFrom(m.gpr[r], x)
  }

  function AddressFrom(base: bv32, x: Instruction): bv32 {
    if x.opcode.Ori? then R.LogicImmediate(x.opcode, base, x.immediate) else R.Displaced(base, x.immediate)
  }

  lemma SameUpper(hi: bv16)
    ensures L.UpperHalf(hi) == R.LuiBits(hi)
  {
  }

  lemma SameOr(op: Opcode, hi: bv16, lo: bv16)
    requires op.Ori?
    ensures OrHalves(hi, lo) == R.LogicImmediate(op, L.UpperHalf(hi), lo)
  {
    hide L.UpperHalf;
  }

  lemma SameSum(hi: bv16, lo: bv16)
    ensures L.HiLo(hi, lo) == R.Displaced(L.UpperHalf(hi), lo)
  {
    hide L.UpperHalf, SignExtend;
  }

  lemma PairedIsAccessed(hi: bv16, x: Instruction)
    ensures PairedAddress(hi, x) == AddressFrom(R.LuiBits(hi), x)
  {
    hide L.UpperHalf, R.LuiBits, OrHalves, L.HiLo, R.LogicImmediate, R.Displaced;
    SameUpper(hi);
    if x.opcode.Ori? {
      SameOr(x.opcode, hi, x.immediate);
    } else {
      SameSum(hi, x.immediate);
    }
  }

  // ----- What the tracker takes for an overwrite -----

  /** Every result in rt is one the tracker knows of. */
  lemma ResultsInRt(op: Opcode)
    requires U.GprResultSlot(op).InRt?
    ensures op.Lui? || WritesToGprRt(op)
  {
  }

  lemma UpperIsInRt(op: Opcode)
    requires op.Lui?
    ensures U.GprResultSlot(op).InRt? && !IsCallOp(op)
  {
  }

  /** A call may leave anything in this register. */
  predicate Clobbers(x: Instruction, r: Register) {
    x.IsCall() && (R.IsCallerSaved(r) || U.LinkRegister(x) == r)
  }

  lemma KeptUnlessOverwritten(x: Instruction, m: T.Machine, m': T.Machine, r: Register)
    requires U.HasOperands(x) && T.ExecStep(x, m, m') && r != ZERO
    requires !Overwrites(x, r) && !Clobbers(x, r)
    ensures m'.gpr[r] == m.gpr[r]
  {
    hide U.HasOperands, R.IsCallerSaved, U.LinkRegister, T.ExecFprs, T.Result, U.GprResultSlot, WritesToGprRt, IsCallOp;
    hide R.IsTransfer;
    if !x.IsCall() {
      if U.GprResultSlot(x.opcode).InRt? {
        ResultsInRt(x.opcode);
      }
      if x.opcode.Lui? {
        UpperIsInRt(x.opcode);
      }
      assert U.GprResult(x) != Some(r);
    }
  }

  lemma LuiPutsUpperHalf(x: Instruction, m: T.Machine, m': T.Machine, r: Register)
    requires U.HasOperands(x) && T.ExecStep(x, m, m') && LoadsUpper(x, r)
    ensures m'.gpr[r] == R.LuiBits(x.immediate)
  {
    UpperIsInRt(x.opcode);
    assert R.IsTransfer(x.opcode);
    hide T.ExecFprs, R.LuiBits, R.IsTransfer, IsCallOp, U.GprResultSlot;
  }

  // ----- Between the lui and the consumer -----

  /** No call between p and k clobbers the register. */
  predicate KeptAcrossCalls(code: seq<Instruction>, p: nat, k: nat, r: Register)
    requires k <= |code|
  {
    forall j :: p < j < k ==> !Clobbers(code[j], r)
  }

  lemma {:induction false} KeptAlong(code: seq<Instruction>, trace: seq<T.Machine>, i: nat, k: nat, r: Register)
    requires T.AllOperands(code) && T.IsRun(code, trace) && i <= k <= |code| && r != ZERO
    requires forall j :: i <= j < k ==> !Overwrites(code[j], r) && !Clobbers(code[j], r)
    ensures trace[i].Valid() && trace[k].Valid() && trace[k].gpr[r] == trace[i].gpr[r]
    decreases k
  {
    hide T.ExecStep, U.HasOperands, Overwrites, Clobbers;
    T.RunIsValid(code, trace, i);
    T.RunIsValid(code, trace, k);
    if i < k {
      KeptAlong(code, trace, i, k - 1, r);
      assert T.ExecStep(code[k - 1], trace[k - 1], trace[k]);
      KeptUnlessOverwritten(code[k - 1], trace[k - 1], trace[k], r);
    }
  }

  lemma HoldsUpperHalf(code: seq<Instruction>, trace: seq<T.Machine>, p: nat, k: nat, r: Register)
    requires T.AllOperands(code) && T.IsRun(code, trace) && k <= |code|
    requires LiveLui(code, k, r, p) && KeptAcrossCalls(code, p, k, r)
    ensures trace[k].Valid() && trace[k].gpr[r] == R.LuiBits(code[p].immediate)
  {
    hide T.ExecStep, U.HasOperands, Overwrites, Clobbers, EndsFlow, R.LuiBits;
    assert T.ExecStep(code[p], trace[p], trace[p + 1]);
    T.RunIsValid(code, trace, p + 1);
    LuiPutsUpperHalf(code[p], trace[p], trace[p + 1], r);
    KeptAlong(code, trace, p + 1, k, r);
  }

  // ----- A run that shows a clobbering call -----

  function Flipped(x: bv32): bv32 { x ^ 0x10000 }

  /** Another upper half gives another address. */
  lemma FlippedLeadsElsewhere(base: bv32, x: Instruction)
    ensures AddressFrom(Flipped(base), x) != AddressFrom(base, x)
  {
    if x.opcode.Ori? {
      FlippedOr(base, x.immediate);
    } else {
      FlippedSum(base, SignExtend(x.immediate));
    }
    hide SignExtend;
  }

  lemma FlippedOr(base: bv32, imm: bv16)
    ensures Flipped(base) | ZeroExtend(imm) != base | ZeroExtend(imm)
  {
    assert (imm as bv32) & 0x10000 == 0;
  }

  lemma FlippedSum(base: bv32, offset: bv32)
    ensures R.Sum(Flipped(base), offset) != R.Sum(base, offset)
  {
  }

  lemma ClobberingCall(x: Instruction, m: T.Machine, r: Register, v: bv32) returns (m': T.Machine)
    requires U.HasOperands(x) && m.Valid() && Clobbers(x, r) && r != ZERO
    ensures T.ExecStep(x, m, m') && m'.Valid() && m'.gpr[r] == v
  {
    hide U.HasOperands, R.IsCallerSaved, U.LinkRegister, IsCallOp;
    m' := m.(gpr := m.gpr[r := v]);
  }

  lemma RunsJoin(code: seq<Instruction>, c: nat, front: seq<T.Machine>, back: seq<T.Machine>)
    requires T.AllOperands(code) && c <= |code|
    requires T.IsRun(code[..c], front) && T.IsRun(code[c..], back) && front[c] == back[0]
    ensures T.IsRun(code, front + back[1..])
    ensures forall i :: c <= i <= |code| ==> (front + back[1..])[i] == back[i - c]
  {
    hide T.ExecStep, U.HasOperands;
    var trace := front + back[1..];
    forall i | 0 <= i < |code| ensures T.ExecStep(code[i], trace[i], trace[i + 1]) {
      if i < c {
        assert T.ExecStep(code[..c][i], front[i], front[i + 1]);
      } else {
        assert T.ExecStep(code[c..][i - c], back[i - c], back[i - c + 1]);
      }
    }
  }

  /** A run in which the call at c leaves v in the register. */
  lemma RunThroughCall(code: seq<Instruction>, c: nat, r: Register, v: bv32) returns (trace: seq<T.Machine>)
    requires T.AllOperands(code) && c < |code| && Clobbers(code[c], r) && r != ZERO
    ensures T.IsRun(code, trace) && trace[c + 1].Valid() && trace[c + 1].gpr[r] == v
  {
    hide T.ExecStep, U.HasOperands, Clobbers;
    var front := T.RunExists(code[..c], T.Machine(seq(32, i => 0), seq(32, i => 0)));
    T.RunIsValid(code[..c], front, c);
    var m' := ClobberingCall(code[c], front[c], r, v);
    T.RunExtended(code, c, front, m');
    var back := T.RunExists(code[c + 1..], m');
    RunsJoin(code, c + 1, front + [m'], back);
    trace := (front + [m']) + back[1..];
  }

  lemma LastClobber(code: seq<Instruction>, p: nat, k: nat, r: Register) returns (c: nat)
    requires k <= |code| && !KeptAcrossCalls(code, p, k, r)
    ensures p < c < k && Clobbers(code[c], r) && KeptAcrossCalls(code, c, k, r)
    decreases k
  {
    hide Clobbers;
    if Clobbers(code[k - 1], r) {
      c := k - 1;
    } else {
      c := LastClobber(code, p, k - 1, r);
    }
  }

  lemma LiveFacts(code: seq<Instruction>, k: nat, r: Register, p: nat)
    requires k <= |code| && LiveLui(code, k, r, p)
    ensures r != ZERO && p < k && forall j :: p < j < k ==> !Overwrites(code[j], r)
  {
    hide Overwrites, EndsFlow;
  }

  /** A clobbering call can make the consumer compute another address than the upper half says. */
  lemma ClobberedLeadsElsewhere(code: seq<Instruction>, p: nat, k: nat, r: Register, upper: bv32)
    returns (trace: seq<T.Machine>)
    requires T.AllOperands(code) && k < |code| && LiveLui(code, k, r, p) && !KeptAcrossCalls(code, p, k, r)
    ensures T.IsRun(code, trace) && trace[k].Valid() && Accessed(trace[k], code[k], r) != AddressFrom(upper, code[k])
  {
    hide T.IsRun, U.HasOperands, LiveLui, Overwrites, Clobbers, AddressFrom;
    LiveFacts(code, k, r, p);
    var c := LastClobber(code, p, k, r);
    trace := RunThroughCall(code, c, r, Flipped(upper));
    KeptAlong(code, trace, c + 1, k, r);
    FlippedLeadsElsewhere(upper, code[k]);
  }

  ghost predicate ComputesTarget(code: seq<Instruction>, trace: seq<T.Machine>, k: nat, r: Register, target: bv32)
    requires k < |code| && k < |trace|
  {
    trace[k].Valid() && Accessed(trace[k], code[k], r) == target
  }

  /** The target recorded for a consumer is, on every run, the address that the consumer computes exactly when
      no call between the lui and the consumer clobbers the register. */
  lemma RecordedTargetIsComputed(code: seq<Instruction>, p: nat, k: nat, r: Register)
    requires T.AllOperands(code) && k < |code| && LiveLui(code, k, r, p) && Consumes(code[k], r)
    ensures PairAt(code, k).Some?
    ensures (forall trace :: T.IsRun(code, trace) ==> ComputesTarget(code, trace, k, r, PairAt(code, k).value.target))
            <==> KeptAcrossCalls(code, p, k, r)
  {
    hide U.HasOperands, LiveLui, KeptAcrossCalls, PairAt, R.LuiBits, AddressFrom, PairedAddress, Consumes, T.ExecStep;
    LiveFacts(code, k, r, p);
    PairOfBase(code, k, r, p);
    PairedIsAccessed(code[p].immediate, code[k]);
    if KeptAcrossCalls(code, p, k, r) {
      forall trace | T.IsRun(code, trace) ensures ComputesTarget(code, trace, k, r, PairAt(code, k).value.target) {
        HoldsUpperHalf(code, trace, p, k, r);
      }
    } else {
      var trace := ClobberedLeadsElsewhere(code, p, k, r, R.LuiBits(code[p].immediate));
    }
  }
}
