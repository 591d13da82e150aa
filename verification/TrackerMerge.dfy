/** Merging two trackers: the result is the meet of what they know, it stays right wherever either of
    them was, and it can only lose knowledge ninety-four times. */
module TrackerMerge {
  import opened Mips
  import opened Sets
  import opened UseDefs
  import opened RegisterTracking
  import opened TrackerSoundness
  import opened Wrappers

  // ----- Meet -----

  /** Register by register, a knows nothing that b does not know as well. */
  ghost predicate KnowsAtMost(a: TrackerState, b: TrackerState)
    requires a.Valid() && b.Valid()
  {
    && (forall r: Register :: r != ZERO ==> a.gprs[r].UnknownValue? || SameValue(a.gprs[r], b.gprs[r]))
    && (forall r: Register :: r != ZERO ==> a.defs[r].None? || SameDefinition(a.defs[r], b.defs[r]))
    && (forall f: FpRegister :: a.fprs[f].None? || a.fprs[f] == b.fprs[f])
  }

  lemma SameValueEquivalence(a: TrackedValue, b: TrackedValue, c: TrackedValue)
    ensures SameValue(a, a)
    ensures SameValue(a, b) <==> SameValue(b, a)
    ensures SameValue(a, b) && SameValue(b, c) ==> SameValue(a, c)
  {
  }

  lemma MergeBelow(s: TrackerState, o: TrackerState)
    requires s.Valid() && o.Valid()
    ensures KnowsAtMost(MergeState(s, o), s) && KnowsAtMost(MergeState(s, o), o)
  {
    forall r: Register ensures SameValue(s.gprs[r], s.gprs[r]) {
      SameValueEquivalence(s.gprs[r], s.gprs[r], s.gprs[r]);
    }
    hide SameValue;
  }

  lemma MergeGreatest(t: TrackerState, s: TrackerState, o: TrackerState)
    requires t.Valid() && s.Valid() && o.Valid()
    requires KnowsAtMost(t, s) && KnowsAtMost(t, o)
    ensures KnowsAtMost(t, MergeState(s, o))
  {
    var m := MergeState(s, o);
    forall r: Register | r != ZERO
      ensures t.gprs[r].UnknownValue? || SameValue(t.gprs[r], m.gprs[r])
    {
      SameValueEquivalence(t.gprs[r], s.gprs[r], o.gprs[r]);
      SameValueEquivalence(s.gprs[r], t.gprs[r], o.gprs[r]);
    }
    hide SameValue;
  }

  /** The merge is the greatest state that knows at most what each input knows. */
  lemma MergeIsMeet(t: TrackerState, s: TrackerState, o: TrackerState)
    requires t.Valid() && s.Valid() && o.Valid()
    ensures KnowsAtMost(t, MergeState(s, o)) <==> KnowsAtMost(t, s) && KnowsAtMost(t, o)
  {
    MergeBelow(s, o);
    if KnowsAtMost(t, s) && KnowsAtMost(t, o) {
      MergeGreatest(t, s, o);
    }
    if KnowsAtMost(t, MergeState(s, o)) {
      KnowsAtMostTransitive(t, MergeState(s, o), s);
      KnowsAtMostTransitive(t, MergeState(s, o), o);
    }
    hide KnowsAtMost, MergeState;
  }

  lemma KnowsAtMostTransitive(a: TrackerState, b: TrackerState, c: TrackerState)
    requires a.Valid() && b.Valid() && c.Valid()
    requires KnowsAtMost(a, b) && KnowsAtMost(b, c)
    ensures KnowsAtMost(a, c)
  {
    forall r: Register | r != ZERO ensures a.gprs[r].UnknownValue? || SameValue(a.gprs[r], c.gprs[r]) {
      SameValueEquivalence(a.gprs[r], b.gprs[r], c.gprs[r]);
      if b.gprs[r].UnknownValue? && SameValue(a.gprs[r], b.gprs[r]) {
        assert a.gprs[r].UnknownValue?;
      }
    }
  }

  // ----- Soundness of the merged state -----

  /** A state that is right stays right after merging anything into it. */
  lemma MergeSoundForThis(s: TrackerState, o: TrackerState, trace: seq<Machine>)
    requires o.Valid() && Sound(s, trace)
    ensures Sound(MergeState(s, o), trace)
  {
    var m := MergeState(s, o);
    forall r: Register ensures Denotes(m.gprs[r], trace[s.index].gpr[r], trace) {
      assert Denotes(s.gprs[r], trace[s.index].gpr[r], trace);
    }
    hide SameValue, Sum;
  }

  /** Merging keeps the first value's record of where an index register was read. */
  predicate SameTrace(a: TrackedValue, b: TrackedValue) {
    SameValue(a, b) && a.SymbolHiIndex? ==> a.midInst == b.midInst
  }

  /** Register for register, the merged values are right on every trace where the other tracker was,
      provided indexed values were computed at the same instruction. */
  lemma MergeSoundForOther(s: TrackerState, o: TrackerState, trace: seq<Machine>)
    requires s.Valid() && o.Valid() && AllValid(trace)
    requires GprsSound(o.gprs, trace) && FprsSound(o.fprs, trace[|trace| - 1])
    requires forall r: Register :: SameTrace(s.gprs[r], o.gprs[r])
    ensures GprsSound(MergeState(s, o).gprs, trace)
    ensures FprsSound(MergeState(s, o).fprs, trace[|trace| - 1])
  {
    var m, last := MergeState(s, o), trace[|trace| - 1];
    forall r: Register ensures Denotes(m.gprs[r], last.gpr[r], trace) {
      assert Denotes(o.gprs[r], last.gpr[r], trace) && SameTrace(s.gprs[r], o.gprs[r]);
    }
    hide Sum;
  }

  /** For values the tracker builds, that proviso is exactly what the other side needs. */
  lemma MergedValueSoundExactly(a: TrackedValue, b: TrackedValue)
    requires a.SymbolHiIndex? ==> a.indexReg != ZERO
    ensures SameTrace(a, b) <==>
              forall x, trace :: AllValid(trace) && Denotes(b, x, trace) ==> Denotes(MergedValue(a, b), x, trace)
  {
    if !SameTrace(a, b) {
      MergedIndexWrong(a, b);
    }
    hide Sum;
  }

  lemma MergedIndexWrong(a: TrackedValue, b: TrackedValue)
    requires SameValue(a, b) && a.SymbolHiIndex? && a.midInst != b.midInst && a.indexReg != ZERO
    ensures exists x, trace :: AllValid(trace) && Denotes(b, x, trace) && !Denotes(MergedValue(a, b), x, trace)
  {
    var blank := Machine(seq(32, r => 0), seq(32, f => 0));
    var marked := blank.(gpr := blank.gpr[a.indexReg := 1]);
    var trace := seq(b.midInst + 1, i => if i == b.midInst then marked else blank);
    var x := Sum(b.indexedHi, 1);
    SumInjective(a.indexedHi);
    assert trace[b.midInst] == marked;
    assert Denotes(b, x, trace);
    hide Sum;
    assert !Denotes(a, x, trace);
  }

  lemma SumInjective(h: bv32)
    ensures Sum(h, 0) != Sum(h, 1)
  {
  }

  /** One past every instruction at which some value reads an index register. */
  function MidBound(gprs: seq<TrackedValue>): (n: nat)
    ensures forall i :: 0 <= i < |gprs| && gprs[i].SymbolHiIndex? ==> gprs[i].midInst < n
  {
    if gprs == [] then 0
    else
      var front, last := MidBound(gprs[..|gprs| - 1]), gprs[|gprs| - 1];
      if last.SymbolHiIndex? && last.midInst >= front then last.midInst + 1 else front
  }

  /** The contents that a tracked value denotes after this trace. */
  function ValueFor(v: TrackedValue, trace: seq<Machine>): bv32
    requires AllValid(trace) && (v.SymbolHiIndex? ==> v.midInst < |trace|)
  {
    match v
    case UnknownValue => 0
    case Constant(c) => c
    case StackOffset(o) => Sum(trace[0].gpr[SP], o)
    case SymbolHi(h, _) => h
    case SymbolAddress(a) => a
    case SymbolHiIndex(h, r, _, mid) => Sum(h, trace[mid].gpr[r])
  }

  /** A last machine on which everything that o tracks is right. */
  lemma FittingMachine(o: TrackerState, trace: seq<Machine>) returns (last: Machine)
    requires o.Valid() && AllValid(trace) && MidBound(o.gprs) <= |trace|
    ensures last.Valid() && AllValid(trace + [last])
    ensures GprsSound(o.gprs, trace + [last]) && FprsSound(o.fprs, last)
    ensures forall r: Register :: (o.gprs[r].SymbolHiIndex? ==> o.gprs[r].midInst < |trace|) && last.gpr[r] == ValueFor(o.gprs[r], trace)
  {
    hide Sum;
    last := Machine(
      seq(32, r requires 0 <= r < 32 => ValueFor(o.gprs[r], trace)),
      seq(32, f requires 0 <= f < 32 => if o.fprs[f].Some? then o.fprs[f].value else 0));
    var longer := trace + [last];
    assert longer[0] == trace[0];
    forall r: Register ensures Denotes(o.gprs[r], last.gpr[r], longer) {
      assert o.gprs[r].SymbolHiIndex? ==> longer[o.gprs[r].midInst] == trace[o.gprs[r].midInst];
    }
  }

  /** A trace on which o is right and its merge into s is not. */
  lemma WrongForOther(s: TrackerState, o: TrackerState, r: Register) returns (trace: seq<Machine>)
    requires s.Valid() && o.Valid() && r != ZERO && !SameTrace(s.gprs[r], o.gprs[r]) && s.gprs[r].indexReg != ZERO
    ensures AllValid(trace) && GprsSound(o.gprs, trace) && FprsSound(o.fprs, trace[|trace| - 1])
    ensures !GprsSound(MergeState(s, o).gprs, trace)
  {
    hide Sum, MidBound;
    var a, b := s.gprs[r], o.gprs[r];
    var n := MidBound(o.gprs) + a.midInst + 1;
    var blank := Machine(seq(32, r => 0), seq(32, f => 0));
    var marked := blank.(gpr := blank.gpr[a.indexReg := 1]);
    var front := seq(n, i => if i == b.midInst then marked else blank);
    assert b.midInst < n && front[b.midInst] == marked && front[a.midInst] == blank;
    var last := FittingMachine(o, front);
    trace := front + [last];
    assert trace[a.midInst] == blank && trace[n] == last;
    SumInjective(a.indexedHi);
    assert MergeState(s, o).gprs[r] == a;
    assert !Denotes(a, last.gpr[r], trace);
  }

  /** All tracked values and bit patterns are right at the end of the trace. */
  ghost predicate RightOn(s: TrackerState, trace: seq<Machine>)
    requires s.Valid()
  {
    AllValid(trace) && GprsSound(s.gprs, trace) && FprsSound(s.fprs, trace[|trace| - 1])
  }

  /** The merged state is right on every trace where the other tracker was exactly when all indexed values that
      the two share were computed at the same instruction. */
  lemma MergeSoundForOtherExactly(s: TrackerState, o: TrackerState)
    requires s.Valid() && o.Valid()
    requires forall r: Register :: s.gprs[r].SymbolHiIndex? ==> s.gprs[r].indexReg != ZERO
    ensures (forall trace :: RightOn(o, trace) ==> RightOn(MergeState(s, o), trace)) <==>
              forall r: Register :: SameTrace(s.gprs[r], o.gprs[r])
  {
    hide GprsSound, FprsSound, SameTrace, MergeState, AllValid;
    if forall r: Register :: SameTrace(s.gprs[r], o.gprs[r]) {
      forall trace | RightOn(o, trace) ensures RightOn(MergeState(s, o), trace) {
        MergeSoundForOther(s, o, trace);
      }
    } else {
      var r: Register :| !SameTrace(s.gprs[r], o.gprs[r]);
      DifferentTraces(s.gprs[r], o.gprs[r]);
      var trace := WrongForOther(s, o, r);
      assert RightOn(o, trace) && !RightOn(MergeState(s, o), trace);
    }
  }

  // ----- Two trackers that share an indexed value -----

  /** lui $t0; addu $t1, $t0, $t2, with a load of the index $t2 in between or not. */
  lemma AdduIndexes(s: TrackerState, addu: Instruction)
    requires s.Valid() && s.gprs[T0].SymbolHi? && s.gprs[T0 + 2].UnknownValue?
    requires addu.opcode.Addu? && addu.rs == Some(T0) && addu.rt == Some(T0 + 2) && addu.rd == Some(T0 + 1)
    ensures HasOperands(addu)
    ensures StepState(s, addu).gprs[T0 + 1] ==
              SymbolHiIndex(s.gprs[T0].hi, T0 + 2, s.gprs[T0].hiInst, s.index)
  {
    hide FprsAfter, DefsAfter, RecordUses, FrameAfter, GprsAfter, GetInstructionUseDef;
    TransferResult(addu);
    GprsAfterAt(s, addu, T0 + 1);
    hide IsCallOp;
  }

  lemma LuiLoads(lui: Instruction)
    requires lui.opcode.Lui? && lui.rt == Some(T0)
    ensures HasOperands(lui)
    ensures var s := StateAt([lui], 1);
      s.gprs[T0] == SymbolHi(LuiBits(lui.immediate), 0) && s.gprs[T0 + 2].UnknownValue?
  {
    hide FprsAfter, DefsAfter, RecordUses, FrameAfter, GprsAfter, GetInstructionUseDef, LuiBits, StateAt;
    StateAtZero([lui]);
    StateAtNext([lui], 0);
    TransferResult(lui);
    GprsAfterAt(InitialState(), lui, T0);
    GprsAfterAt(InitialState(), lui, T0 + 2);
    hide IsCallOp;
  }

  lemma LwLoadsIndex(s: TrackerState, lw: Instruction)
    requires s.Valid() && lw.opcode.Lw? && lw.rt == Some(T0 + 2)
    ensures HasOperands(lw)
    ensures StepState(s, lw).gprs[T0] == s.gprs[T0] && StepState(s, lw).gprs[T0 + 2].UnknownValue?
  {
    GprDefsExact(lw);
    hide FprsAfter, DefsAfter, RecordUses, FrameAfter, GprsAfter, GetInstructionUseDef;
    GprsAfterAt(s, lw, T0);
    GprsAfterAt(s, lw, T0 + 2);
  }

  lemma SameStates(insts: seq<Instruction>, more: seq<Instruction>, k: nat)
    requires AllOperands(insts) && AllOperands(more) && k <= |insts| && k <= |more| && insts[..k] == more[..k]
    ensures StateAt(insts, k) == StateAt(more, k)
  {
    hide AnalyzeState;
  }

  /** Analysing two lists can give trackers that agree on an indexed value computed at different
      instructions: the merge keeps the place of the first. */
  lemma AnalyzedTrackersCanDiffer(lui: Instruction, lw: Instruction, addu: Instruction)
    requires lui.opcode.Lui? && lui.rt == Some(T0) && lw.opcode.Lw? && lw.rt == Some(T0 + 2)
    requires addu.opcode.Addu? && addu.rs == Some(T0) && addu.rt == Some(T0 + 2) && addu.rd == Some(T0 + 1)
    ensures AllOperands([lui, addu]) && AllOperands([lui, lw, addu])
    ensures var a, b := StateAt([lui, addu], 2).gprs[T0 + 1], StateAt([lui, lw, addu], 3).gprs[T0 + 1];
      SameValue(a, b) && !SameTrace(a, b)
  {
    hide StateAt, StepState, LuiBits;
    LuiLoads(lui);
    assert HasOperands(lui) && HasOperands(lw) && HasOperands(addu);
    var direct, loaded := [lui, addu], [lui, lw, addu];
    SameStates([lui], direct, 1);
    SameStates([lui], loaded, 1);
    StateAtNext(direct, 1);
    AdduIndexes(StateAt(direct, 1), addu);
    StateAtNext(loaded, 1);
    LwLoadsIndex(StateAt(loaded, 1), lw);
    StateAtNext(loaded, 2);
    AdduIndexes(StateAt(loaded, 2), addu);
  }

  lemma DecodedExample()
    ensures var lui, lw, addu := DecodeInstruction(0x3C088000, 0), DecodeInstruction(0x8C0A0000, 4),
                                 DecodeInstruction(0x010A4821, 8);
      && lui.opcode.Lui? && lui.rt == Some(T0) && lw.opcode.Lw? && lw.rt == Some(T0 + 2)
      && addu.opcode.Addu? && addu.rs == Some(T0) && addu.rt == Some(T0 + 2) && addu.rd == Some(T0 + 1)
  {
  }

  /** For instance on these words. */
  lemma DecodedTrackersDiffer()
    ensures var lui, lw, addu := DecodeInstruction(0x3C088000, 0), DecodeInstruction(0x8C0A0000, 4),
                                 DecodeInstruction(0x010A4821, 8);
      && AllOperands([lui, addu]) && AllOperands([lui, lw, addu])
      && var a, b := StateAt([lui, addu], 2).gprs[T0 + 1], StateAt([lui, lw, addu], 3).gprs[T0 + 1];
         SameValue(a, b) && !SameTrace(a, b)
  {
    DecodedExample();
    hide DecodeInstruction, StateAt, AllOperands;
    AnalyzedTrackersCanDiffer(
      DecodeInstruction(0x3C088000, 0), DecodeInstruction(0x8C0A0000, 4), DecodeInstruction(0x010A4821, 8));
  }

  lemma DifferentTraces(a: TrackedValue, b: TrackedValue)
    requires !SameTrace(a, b)
    ensures a.SymbolHiIndex? && b.SymbolHiIndex?
  {
  }

  // ----- How often a merge can lose something -----

  ghost function KnownGprs(s: TrackerState): set<Register>
    requires s.Valid()
  {
    set r: Register | 0 <= r < 32 && r != ZERO && !s.gprs[r].UnknownValue?
  }

  ghost function KnownDefs(s: TrackerState): set<Register>
    requires s.Valid()
  {
    set r: Register | 0 <= r < 32 && r != ZERO && s.defs[r].Some?
  }

  ghost function KnownFprs(s: TrackerState): set<FpRegister>
    requires s.Valid()
  {
    set f: FpRegister | 0 <= f < 32 && s.fprs[f].Some?
  }

  ghost function Knowledge(s: TrackerState): nat
    requires s.Valid()
  {
    |KnownGprs(s)| + |KnownDefs(s)| + |KnownFprs(s)|
  }

  lemma KnowledgeBound(s: TrackerState)
    requires s.Valid()
    ensures Knowledge(s) <= 94
  {
    RegistersFromAre(0);
    RegistersFromAre(1);
    SubsetSize(KnownGprs(s), RegistersFrom(1));
    SubsetSize(KnownDefs(s), RegistersFrom(1));
    SubsetSize(KnownFprs(s), RegistersFrom(0));
    hide RegistersFrom;
  }

  lemma MergeShrinks(s: TrackerState, o: TrackerState)
    requires s.Valid() && o.Valid()
    ensures var m := MergeState(s, o);
            KnownGprs(m) <= KnownGprs(s) && KnownDefs(m) <= KnownDefs(s) && KnownFprs(m) <= KnownFprs(s)
  {
  }

  lemma LosingShrinks(s: TrackerState, o: TrackerState)
    requires s.Valid() && o.Valid() && Loses(s, o)
    ensures var m := MergeState(s, o);
            KnownGprs(m) != KnownGprs(s) || KnownDefs(m) != KnownDefs(s) || KnownFprs(m) != KnownFprs(s)
  {
    var m := MergeState(s, o);
    if r: Register :| LosesGpr(s, o, r) {
      assert m.gprs[r] == MergedValue(s.gprs[r], o.gprs[r]);
      assert m.defs[r] == MergedDefinition(s.defs[r], o.defs[r]);
      assert (r in KnownGprs(s) && r !in KnownGprs(m)) || (r in KnownDefs(s) && r !in KnownDefs(m));
    } else {
      var f: FpRegister :| LosesFpr(s, o, f);
      assert m.fprs[f] == MergedBits(s.fprs[f], o.fprs[f]);
      assert f in KnownFprs(s) && f !in KnownFprs(m);
    }
  }

  /** A merge that reports a change has lost knowledge, and one that does not has changed nothing. */
  lemma MergeReportsLoss(s: TrackerState, o: TrackerState)
    requires s.Valid() && o.Valid()
    ensures if Loses(s, o) then Knowledge(MergeState(s, o)) < Knowledge(s) else MergeState(s, o) == s
  {
    var m := MergeState(s, o);
    if Loses(s, o) {
      MergeShrinks(s, o);
      LosingShrinks(s, o);
      SubsetSize(KnownGprs(m), KnownGprs(s));
      SubsetSize(KnownDefs(m), KnownDefs(s));
      SubsetSize(KnownFprs(m), KnownFprs(s));
    } else {
      forall r: Register ensures m.gprs[r] == s.gprs[r] && m.defs[r] == s.defs[r] {
        assert !LosesGpr(s, o, r);
      }
      forall f: FpRegister ensures m.fprs[f] == s.fprs[f] {
        assert !LosesFpr(s, o, f);
      }
      assert m.gprs == s.gprs && m.defs == s.defs && m.fprs == s.fprs;
    }
    hide SameValue, SameDefinition;
  }

  /** states[i + 1] is states[i] after a merge that reported a change. */
  ghost predicate IsLosingChain(states: seq<TrackerState>, others: seq<TrackerState>) {
    && |states| == |others| + 1
    && (forall i :: 0 <= i < |states| ==> states[i].Valid())
    && (forall i :: 0 <= i < |others| ==> others[i].Valid())
    && forall i :: 0 <= i < |others| ==>
         Loses(states[i], others[i]) && states[i + 1] == MergeState(states[i], others[i])
  }

  lemma {:induction false} ChainKnowledge(states: seq<TrackerState>, others: seq<TrackerState>)
    requires IsLosingChain(states, others)
    ensures |others| + Knowledge(states[|others|]) <= Knowledge(states[0])
    decreases |others|
  {
    hide Knowledge, Loses, MergeState;
    if others != [] {
      var n := |others| - 1;
      ChainKnowledge(states[..n + 1], others[..n]);
      MergeReportsLoss(states[n], others[n]);
    }
  }

  /** Merging into one tracker reports a change at most ninety-four times. */
  lemma LosingChainBound(states: seq<TrackerState>, others: seq<TrackerState>)
    requires IsLosingChain(states, others)
    ensures |others| <= 94
  {
    hide Knowledge, Loses, MergeState;
    ChainKnowledge(states, others);
    KnowledgeBound(states[0]);
  }
}
