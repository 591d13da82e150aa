/** Pairing lui with the instructions that complete an address (core/relocations.cc). */
module HiLoTracking {
  import opened Blocks
  import opened Leaders
  import opened Mips
  import opened RelocationApplier
  import opened Symbols
  import opened Wrappers

  // ----- Instruction classes -----

  predicate WritesToGprRt(op: Opcode) {
    match op
    case Addi | Addiu | Daddi | Daddiu | Slti | Sltiu | Andi | Ori | Xori | Lb | Lbu | Lh | Lhu | Lw | Lwu | Lwl | Lwr
       | Ld | Ldl | Ldr | Lld | Scd | Mfc0 | Mfc1 | Dmfc1 | Cfc1 => true
    case _ => false
  }

  predicate IsLuiConsumerOp(op: Opcode) {
    match op
    case Addiu | Addi | Daddiu | Daddi | Ori | Lb | Lbu | Lh | Lhu | Lw | Lwu | Lwl | Lwr | Ld | Ldl | Ldr | Lld | Sb | Sh
       | Sw | Swl | Swr | Sd | Sdl | Sdr | Scd | Lwc1 | Ldc1 | Swc1 | Sdc1 => true
    case _ => false
  }

  predicate LoadsUpper(x: Instruction, r: Register) { x.opcode.Lui? && x.rt == Some(r) && r != ZERO }

  /** The instruction gives the register another value. */
  predicate Overwrites(x: Instruction, r: Register) {
    r != ZERO &&
    if x.opcode.Lui? then x.rt == Some(r)
    else x.rd == Some(r) || (x.rt == Some(r) && WritesToGprRt(x.opcode))
  }

  /** After this instruction the table is emptied. */
  predicate EndsFlow(x: Instruction) { x.IsReturn() || x.opcode.J? }

  predicate Consumes(x: Instruction, r: Register) { x.rs == Some(r) && IsLuiConsumerOp(x.opcode) }

  // ----- The table of active lui -----

  datatype ActiveLui = ActiveLui(pc: bv32, hiImm: bv16)

  /** The registers that hold a known upper half. */
  type Table = map<Register, ActiveLui>

  datatype TrackState = TrackState(active: Table, clearNext: bool)

  /** The table that the next instruction sees. */
  function Seen(st: TrackState): Table { if st.clearNext then map[] else st.active }

  function Get(t: Table, r: Register): Option<ActiveLui> { if r in t then Some(t[r]) else None }

  function WithoutOption(t: Table, r: Option<Register>): Table {
    if r.Some? && r.value != ZERO then t - {r.value} else t
  }

  function Updated(t: Table, x: Instruction): Table {
    if x.opcode.Lui? then
      if x.rt.Some? && x.rt.value != ZERO then t[x.rt.value := ActiveLui(x.vram, x.immediate)] else t
    else
      var t1 := WithoutOption(t, x.rd);
      if WritesToGprRt(x.opcode) then WithoutOption(t1, x.rt) else t1
  }

  function Next(st: TrackState, x: Instruction): TrackState {
    TrackState(Updated(Seen(st), x), EndsFlow(x))
  }

  function StateAfter(code: seq<Instruction>, k: nat): TrackState
    requires k <= |code|
  {
    if k == 0 then TrackState(map[], false) else Next(StateAfter(code, k - 1), code[k - 1])
  }

  /** The lui at p still determines register r when instruction k is looked at: nothing between them
      overwrites r, and no return or jump stands before k, not even right before it. */
  ghost predicate LiveLui(code: seq<Instruction>, k: nat, r: Register, p: nat)
    requires k <= |code|
  {
    && p < k && LoadsUpper(code[p], r)
    && (forall j :: p < j < k ==> !Overwrites(code[j], r))
    && forall j :: p <= j < k ==> !EndsFlow(code[j])
  }

  lemma UpdatedAt(t: Table, x: Instruction, r: Register)
    ensures Get(Updated(t, x), r) ==
      if LoadsUpper(x, r) then Some(ActiveLui(x.vram, x.immediate))
      else if Overwrites(x, r) then None
      else Get(t, r)
  {
    hide WritesToGprRt;
  }

  lemma LiveNext(code: seq<Instruction>, k: nat, r: Register, p: nat)
    requires k < |code|
    ensures LiveLui(code, k + 1, r, p) <==>
      !EndsFlow(code[k]) && (if p == k then LoadsUpper(code[k], r) else LiveLui(code, k, r, p) && !Overwrites(code[k], r))
  {
    hide Overwrites, LoadsUpper, EndsFlow;
    if LiveLui(code, k + 1, r, p) && p != k {
      assert !Overwrites(code[k], r);
    }
  }

  lemma LoadingOverwrites(x: Instruction, r: Register)
    ensures LoadsUpper(x, r) ==> Overwrites(x, r)
  {
    hide WritesToGprRt;
  }

  /** What instruction k sees for register r is exactly the lui that is still live there. */
  lemma {:induction false} SeenIsLive(code: seq<Instruction>, k: nat, r: Register, p: nat)
    requires k <= |code|
    ensures LiveLui(code, k, r, p) ==>
      Get(Seen(StateAfter(code, k)), r) == Some(ActiveLui(code[p].vram, code[p].immediate))
    ensures (forall q: nat :: !LiveLui(code, k, r, q)) ==> Get(Seen(StateAfter(code, k)), r).None?
  {
    if k > 0 {
      hide LiveLui, LoadsUpper, Overwrites, EndsFlow, Updated;
      var x := code[k - 1];
      UpdatedAt(Seen(StateAfter(code, k - 1)), x, r);
      LoadingOverwrites(x, r);
      SeenIsLive(code, k - 1, r, p);
      forall q: nat ensures LiveLui(code, k, r, q) <==>
        !EndsFlow(x) && (if q == k - 1 then LoadsUpper(x, r) else LiveLui(code, k - 1, r, q) && !Overwrites(x, r))
      {
        LiveNext(code, k - 1, r, q);
      }
      if (forall q: nat :: !LiveLui(code, k, r, q)) && !EndsFlow(x) && !Overwrites(x, r) {
        var last := k - 1;
        forall q: nat ensures !LiveLui(code, last, r, q) {
          NotLiveAtItself(code, last, r);
          assert !LiveLui(code, k, r, q);
        }
      } else if !EndsFlow(x) && LoadsUpper(x, r) {
        assert LiveLui(code, k, r, k - 1);
      }
    } else {
      assert forall q: nat :: !LiveLui(code, 0, r, q);
    }
  }

  lemma NotLiveAtItself(code: seq<Instruction>, k: nat, r: Register)
    requires k <= |code|
    ensures !LiveLui(code, k, r, k)
  {
  }

  // ----- The pairs -----

  /** The address that a consumer completes. */
  function PairedAddress(hi: bv16, x: Instruction): bv32 {
    if x.opcode.Ori? then OrHalves(hi, x.immediate) else HiLo(hi, x.immediate)
  }

  function OrHalves(hi: bv16, lo: bv16): bv32 { UpperHalf(hi) | (lo as bv32) }

  datatype Pair = Pair(lui: ActiveLui, target: bv32)

  /** The pair that instruction k completes. */
  function PairAt(code: seq<Instruction>, k: nat): Option<Pair>
    requires k < |code|
  {
    var x, seen := code[k], Seen(StateAfter(code, k));
    if x.rs.Some? && IsLuiConsumerOp(x.opcode) && x.rs.value in seen then
      Some(Pair(seen[x.rs.value], PairedAddress(seen[x.rs.value].hiImm, x)))
    else None
  }

  lemma PairOfBase(code: seq<Instruction>, k: nat, r: Register, p: nat)
    requires k < |code| && Consumes(code[k], r)
    ensures LiveLui(code, k, r, p) ==>
      PairAt(code, k) ==
        Some(Pair(ActiveLui(code[p].vram, code[p].immediate), PairedAddress(code[p].immediate, code[k])))
    ensures (forall q: nat :: !LiveLui(code, k, r, q)) ==> PairAt(code, k).None?
  {
    hide PairedAddress, LiveLui, IsLuiConsumerOp;
    SeenIsLive(code, k, r, p);
  }

  /** An instruction completes a pair exactly when it is a consumer and a lui of its base register is live,
      and then it completes that one. */
  lemma PairsAreLive(code: seq<Instruction>, k: nat)
    requires k < |code|
    ensures PairAt(code, k).Some? <==> exists r: Register, p: nat :: Consumes(code[k], r) && LiveLui(code, k, r, p)
    ensures forall r: Register, p: nat :: Consumes(code[k], r) && LiveLui(code, k, r, p) ==>
      PairAt(code, k) ==
        Some(Pair(ActiveLui(code[p].vram, code[p].immediate), PairedAddress(code[p].immediate, code[k])))
  {
    hide PairedAddress, IsLuiConsumerOp, StateAfter, Seen, LoadsUpper, Overwrites, EndsFlow;
    forall r: Register, p: nat | Consumes(code[k], r) && LiveLui(code, k, r, p)
      ensures PairAt(code, k) ==
        Some(Pair(ActiveLui(code[p].vram, code[p].immediate), PairedAddress(code[p].immediate, code[k])))
    {
      PairOfBase(code, k, r, p);
    }
    if PairAt(code, k).Some? {
      var r := code[k].rs.value;
      assert Consumes(code[k], r);
      PairOfBase(code, k, r, 0);
    }
  }

  /** The tracker finds in patched code the address that the relocations put there: the symbol plus the
      low addend, for a lui and a later consumer other than ori with nothing in between. */
  lemma RecoversPatchedAddress(
    words: seq<bv32>, relocations: seq<ElfRelocation>, lookup: SymbolLookup, i: nat, j: nat,
    code: seq<Instruction>, p: nat, k: nat, r: Register, vp: bv32, vk: bv32)
    requires DistinctTargets(words, relocations, lookup)
    requires i < |relocations| && relocations[i].kind.RHi16? && Applies(words, relocations[i], lookup)
    requires FirstLo(relocations, relocations[i].symbolName, i + 1) == Some(j)
    requires relocations[j].WordIndex() < |words|
    requires k < |code| && LiveLui(code, k, r, p) && Consumes(code[k], r) && !code[k].opcode.Ori?
    requires var patched := Applied(words, relocations, lookup, |relocations|);
      && code[p] == DecodeInstruction(patched[relocations[i].WordIndex()], vp)
      && code[k] == DecodeInstruction(patched[relocations[j].WordIndex()], vk)
    ensures PairAt(code, k).Some? && PairAt(code, k).value.lui.pc == vp
    ensures PairAt(code, k).value.target ==
            Sum(lookup(relocations[i].symbolName).value, SignExtend(Low(words[relocations[j].WordIndex()])))
  {
    hide Applied, DistinctTargets, DecodeInstruction, Low, SignExtend, Sum, HiLo, FirstLo, PairAt, LiveLui, Consumes, Upper,
      JumpField;
    var patched := Applied(words, relocations, lookup, |relocations|);
    HiLoPair(words, relocations, lookup, i, j);
    DecodedFields(patched[relocations[i].WordIndex()], vp);
    DecodedFields(patched[relocations[j].WordIndex()], vk);
    PairOfBase(code, k, r, p);
  }

  /** The lui at p is in force when instruction k is reached, delay slots included: nothing overwrites its
      register, and no return or jump comes before the instruction right before k. */
  ghost predicate InForce(code: seq<Instruction>, k: nat, r: Register, p: nat)
    requires k <= |code|
  {
    && p < k && LoadsUpper(code[p], r)
    && (forall j :: p < j < k ==> !Overwrites(code[j], r))
    && forall j :: p <= j < k - 1 ==> !EndsFlow(code[j])
  }

  /** A consumer whose lui is in force is paired exactly when no return or jump stands right before it: in a
      delay slot it is not. */
  lemma DelaySlotExactly(code: seq<Instruction>, k: nat, r: Register, p: nat)
    requires 0 < k < |code| && Consumes(code[k], r) && InForce(code, k, r, p)
    ensures PairAt(code, k).Some? <==> !EndsFlow(code[k - 1])
  {
    PairOfBase(code, k, r, p);
    hide PairAt, Consumes, LoadsUpper, Overwrites, EndsFlow;
    if EndsFlow(code[k - 1]) {
      forall q: nat ensures !LiveLui(code, k, r, q) {
        LiveEnds(code, k, r, q);
      }
    } else {
      assert LiveLui(code, k, r, p);
    }
  }

  lemma LiveEnds(code: seq<Instruction>, k: nat, r: Register, q: nat)
    requires 0 < k <= |code| && EndsFlow(code[k - 1])
    ensures !LiveLui(code, k, r, q)
  {
    hide LoadsUpper, Overwrites, EndsFlow;
  }

  /** A consumer in the delay slot of a jump is not paired, although the lui is still in force there. */
  lemma DelaySlotIsNotPaired(hi: Instruction, jump: Instruction, lo: Instruction, r: Register)
    requires LoadsUpper(hi, r) && jump.opcode.J? && Consumes(lo, r)
    ensures PairAt([hi, jump, lo], 2).None?
    ensures PairAt([hi, lo, jump], 1).Some?
    ensures !Overwrites(jump, r) ==> InForce([hi, jump, lo], 2, r, 0)
  {
    assert !EndsFlow(hi) && EndsFlow(jump);
    hide Overwrites, EndsFlow, LoadsUpper, Consumes, PairAt, LiveLui;
    forall q: nat ensures !LiveLui([hi, jump, lo], 2, r, q) {
      LiveEnds([hi, jump, lo], 2, r, q);
    }
    PairOfBase([hi, jump, lo], 2, r, 0);
    DelaySlotExactly([hi, lo, jump], 1, r, 0);
  }

  // ----- Names of targets -----

  const TWO_32 := 0x1_0000_0000

  function Signed32(x: int): int { if x % TWO_32 >= 0x8000_0000 then x % TWO_32 - TWO_32 else x % TWO_32 }

  /** The target lies in the sized symbol; the end of its range wraps. */
  predicate Contains(e: Entry, target: int) {
    e.size > 0 && target >= e.address && target < (e.address + e.size) % TWO_32
  }

  datatype NamedTarget = NamedTarget(name: string, addend: int)

  datatype RelocKind = Hi16 | Lo16

  datatype InstructionRelocation =
    InstructionRelocation(pc: bv32, kind: RelocKind, target: bv32, symbolName: string, addend: int)

  // ----- The record of relocations -----

  /** What was recorded last for an address. */
  function LastFor(log: seq<InstructionRelocation>, pc: bv32): Option<InstructionRelocation> {
    if log == [] then None
    else if log[|log| - 1].pc == pc then Some(log[|log| - 1])
    else LastFor(log[..|log| - 1], pc)
  }

  /** relocations holds one entry per address, the last recorded, and index finds it. */
  ghost predicate Records(
    log: seq<InstructionRelocation>, relocations: seq<InstructionRelocation>, index: map<int, nat>)
  {
    && (forall a :: a in index ==> index[a] < |relocations| && Address(relocations[index[a]].pc) == a)
    && forall pc: bv32 :: LastFor(log, pc) ==
         if Address(pc) in index then Some(relocations[index[Address(pc)]]) else None
  }

  lemma RecordNext(
    log: seq<InstructionRelocation>, relocations: seq<InstructionRelocation>, index: map<int, nat>,
    r: InstructionRelocation)
    requires Records(log, relocations, index)
    ensures Address(r.pc) in index ==> Records(log + [r], relocations[index[Address(r.pc)] := r], index)
    ensures Address(r.pc) !in index ==> Records(log + [r], relocations + [r], index[Address(r.pc) := |relocations|])
  {
    hide Address;
    var key := Address(r.pc);
    var rs := if key in index then relocations[index[key] := r] else relocations + [r];
    var ix := if key in index then index else index[key := |relocations|];
    forall pc: bv32
      ensures LastFor(log + [r], pc) == if Address(pc) in ix then Some(rs[ix[Address(pc)]]) else None
    {
      assert (log + [r])[..|log|] == log;
      if Address(pc) == key {
        AddressInjective(pc, r.pc);
      } else if Address(pc) in index {
        assert Address(relocations[index[Address(pc)]].pc) == Address(pc);
      }
    }
  }

  /** What the analysis consults: the symbols, if any, and whether unregistered pointers count. */
  datatype Setting = Setting(symbols: Option<SymbolTable>, allowUnregisteredPointers: bool)
  {
    ghost predicate Valid() { symbols.Some? ==> symbols.value.Valid() }

    predicate IsValidTarget(target: bv32)
      requires Valid()
    {
      (symbols.Some? && symbols.value.HasAddress(Address(target))) ||
      (allowUnregisteredPointers && 0x80000000 <= Address(target) <= 0xBFFFFFFF)
    }

    /** The name of the target, and what to add to its address: an exact symbol, else the first sized
        symbol around the target in address order, else a synthesized name. */
    function ResolveSymbol(target: Vram): NamedTarget
      requires Valid()
    {
      if symbols.None? then NamedTarget(SynthesizedName(target, Data), 0)
      else
        var index := symbols.value;
        var e := index.FindByAddress(target);
        if e.Some? then NamedTarget(e.value.name, 0)
        else
          var k := Surrounding(index, target);
          if k.Some? then
            NamedTarget(index.registry[k.value].name, Signed32(target - index.registry[k.value].address))
          else NamedTarget(index.LookupOrSynthesizeName(target, Data), 0)
    }

    /** The two relocations of a pair that instruction x completes. */
    function PairRelocations(x: Instruction, pair: Pair): seq<InstructionRelocation>
      requires Valid()
    {
      var n := ResolveSymbol(Address(pair.target));
      [InstructionRelocation(pair.lui.pc, Hi16, pair.target, n.name, n.addend),
       InstructionRelocation(x.vram, Lo16, pair.target, n.name, n.addend)]
    }

    /** What instruction k gives to record. */
    function NewEvents(code: seq<Instruction>, k: nat): seq<InstructionRelocation>
      requires Valid() && k < |code|
    {
      var pair := PairAt(code, k);
      if pair.Some? && IsValidTarget(pair.value.target) then PairRelocations(code[k], pair.value) else []
    }

    /** What the first n instructions give to record. */
    function Events(code: seq<Instruction>, n: nat): seq<InstructionRelocation>
      requires Valid() && n <= |code|
    {
      if n == 0 then [] else Events(code, n - 1) + NewEvents(code, n - 1)
    }
  }

  class RelocationTracker {
    const setting: Setting
    var relocations: seq<InstructionRelocation>
    var pcToIndex: map<int, nat>
    /** Everything recorded since the last Clear, in order. */
    ghost var log: seq<InstructionRelocation>

    ghost predicate Valid()
      reads this
    {
      Records(log, relocations, pcToIndex)
    }

    constructor (setting: Setting)
      ensures Valid() && log == [] && this.setting == setting
    {
      this.setting := setting;
      relocations, pcToIndex, log := [], map[], [];
    }

    method Clear()
      modifies this`relocations, this`pcToIndex, this`log
      ensures Valid() && log == []
    {
      relocations, pcToIndex, log := [], map[], [];
    }

    function FindRelocation(pc: bv32): (r: Option<InstructionRelocation>)
      requires Valid()
      reads this
      ensures r == LastFor(log, pc)
    {
      if Address(pc) in pcToIndex then Some(relocations[pcToIndex[Address(pc)]]) else None
    }

    method AddReloc(r: InstructionRelocation)
      requires Valid()
      modifies this`relocations, this`pcToIndex, this`log
      ensures Valid() && log == old(log) + [r]
    {
      RecordNext(log, relocations, pcToIndex, r);
      hide Records, Address;
      var key := Address(r.pc);
      if key in pcToIndex {
        IndexInRange(log, relocations, pcToIndex, key);
        relocations := relocations[pcToIndex[key] := r];
      } else {
        pcToIndex := pcToIndex[key := |relocations|];
        relocations := relocations + [r];
      }
      log := log + [r];
    }

    /** Records both ends of every completed pair whose target is valid. */
    method Analyze(code: seq<Instruction>)
      requires Valid() && setting.Valid()
      modifies this`relocations, this`pcToIndex, this`log
      ensures Valid() && log == old(log) + setting.Events(code, |code|)
    {
      hide Records, PairAt, Setting.NewEvents, Updated;
      var activeLuis: Table := map[];
      var clearOnNextInstruction := false;
      for k := 0 to |code|
        invariant Valid()
        invariant TrackState(activeLuis, clearOnNextInstruction) == StateAfter(code, k)
        invariant log == old(log) + setting.Events(code, k)
      {
        var x := code[k];
        if clearOnNextInstruction {
          activeLuis := map[];
          clearOnNextInstruction := false;
        }
        ghost var before := setting.Events(code, k);
        RecordPair(code, k, x, activeLuis);
        assert old(log) + before + setting.NewEvents(code, k) == old(log) + (before + setting.NewEvents(code, k));
        activeLuis := Updated(activeLuis, x);
        if x.IsReturn() || x.opcode.J? {
          clearOnNextInstruction := true;
        }
      }
    }

    method RecordPair(ghost code: seq<Instruction>, ghost k: nat, x: Instruction, activeLuis: Table)
      requires Valid() && setting.Valid()
      requires k < |code| && x == code[k] && activeLuis == Seen(StateAfter(code, k))
      modifies this`relocations, this`pcToIndex, this`log
      ensures Valid() && log == old(log) + setting.NewEvents(code, k)
    {
      hide Records, PairedAddress, IsLuiConsumerOp, Setting.IsValidTarget, Setting.ResolveSymbol;
      if x.rs.Some? && IsLuiConsumerOp(x.opcode) {
        if x.rs.value in activeLuis {
          var lui := activeLuis[x.rs.value];
          var target := PairedAddress(lui.hiImm, x);
          if setting.IsValidTarget(target) {
            var n := setting.ResolveSymbol(Address(target));
            AddReloc(InstructionRelocation(lui.pc, Hi16, target, n.name, n.addend));
            AddReloc(InstructionRelocation(x.vram, Lo16, target, n.name, n.addend));
          }
        }
      }
    }
  }

  // ----- What is found afterwards -----

  ghost predicate DistinctAddresses(code: seq<Instruction>) {
    forall i, j :: 0 <= i < j < |code| ==> code[i].vram != code[j].vram
  }

  /** Every entry of the table comes from a lui of the code. */
  lemma {:induction false} SeenComesFromLui(code: seq<Instruction>, k: nat, r: Register)
    requires k <= |code| && r in StateAfter(code, k).active
    ensures exists p :: 0 <= p < k && code[p].opcode.Lui? && StateAfter(code, k).active[r].pc == code[p].vram
  {
    hide WritesToGprRt, EndsFlow, Overwrites, Updated;
    var x, seen := code[k - 1], Seen(StateAfter(code, k - 1));
    UpdatedAt(seen, x, r);
    if LoadsUpper(x, r) {
      assert Get(StateAfter(code, k).active, r) == Some(ActiveLui(x.vram, x.immediate));
    } else {
      assert Get(seen, r) == Get(StateAfter(code, k).active, r);
      SeenComesFromLui(code, k - 1, r);
    }
  }

  lemma LastForTwo(log: seq<InstructionRelocation>, a: InstructionRelocation, b: InstructionRelocation, pc: bv32)
    ensures LastFor(log + [a, b], pc) == if b.pc == pc then Some(b) else if a.pc == pc then Some(a) else LastFor(log, pc)
  {
    var all := log + [a, b];
    assert all[..|all| - 1] == log + [a] && (log + [a])[..|log|] == log;
  }

  /** What is recorded for a consumer is not touched by what follows. */
  lemma {:induction false} LaterEventsElsewhere(t: Setting, code: seq<Instruction>, k: nat, n: nat)
    requires t.Valid() && DistinctAddresses(code) && k < n <= |code| && !code[k].opcode.Lui?
    ensures LastFor(t.Events(code, n), code[k].vram) == LastFor(t.Events(code, k + 1), code[k].vram)
  {
    hide PairAt, Setting.IsValidTarget, Setting.ResolveSymbol, LastFor, Setting.PairRelocations;
    if k + 1 < n {
      LaterEventsElsewhere(t, code, k, n - 1);
      NewEventsElsewhere(t, code, k, n - 1, t.Events(code, n - 1));
    }
  }

  lemma NewEventsElsewhere(t: Setting, code: seq<Instruction>, k: nat, n: nat, log: seq<InstructionRelocation>)
    requires t.Valid() && DistinctAddresses(code) && k < n < |code| && !code[k].opcode.Lui?
    ensures LastFor(log + t.NewEvents(code, n), code[k].vram) == LastFor(log, code[k].vram)
  {
    hide PairAt, Setting.IsValidTarget, Setting.ResolveSymbol;
    var pair := PairAt(code, n);
    if pair.Some? && t.IsValidTarget(pair.value.target) {
      PairComesFromLui(code, n);
      var p :| 0 <= p < n && code[p].opcode.Lui? && pair.value.lui.pc == code[p].vram;
      DifferentVrams(code, p, k);
      DifferentVrams(code, n, k);
      var events := t.PairRelocations(code[n], pair.value);
      LastForTwo(log, events[0], events[1], code[k].vram);
      assert events == [events[0], events[1]];
    } else {
      assert log + [] == log;
    }
  }

  lemma DifferentVrams(code: seq<Instruction>, i: nat, j: nat)
    requires DistinctAddresses(code) && i < |code| && j < |code| && i != j
    ensures code[i].vram != code[j].vram
  {
  }

  lemma PairComesFromLui(code: seq<Instruction>, k: nat)
    requires k < |code| && PairAt(code, k).Some?
    ensures exists p :: 0 <= p < k && code[p].opcode.Lui? && PairAt(code, k).value.lui.pc == code[p].vram
  {
    hide IsLuiConsumerOp, PairedAddress;
    SeenComesFromLui(code, k, code[k].rs.value);
  }

  /** After analysing code with distinct addresses, looking up a consumer finds the low half of exactly
      the pair it completes, if that has a valid target. */
  lemma ConsumerIsFound(t: Setting, code: seq<Instruction>, k: nat)
    requires t.Valid() && DistinctAddresses(code) && k < |code| && PairAt(code, k).Some?
    requires t.IsValidTarget(PairAt(code, k).value.target)
    ensures var pair := PairAt(code, k).value;
      LastFor(t.Events(code, |code|), code[k].vram) == Some(t.PairRelocations(code[k], pair)[1])
  {
    hide Setting.IsValidTarget, Setting.ResolveSymbol, LastFor, DistinctAddresses;
    ConsumersAreNoLui(code, k);
    hide PairAt;
    LaterEventsElsewhere(t, code, k, |code|);
    var events := t.PairRelocations(code[k], PairAt(code, k).value);
    LastForTwo(t.Events(code, k), events[0], events[1], code[k].vram);
    assert events == [events[0], events[1]];
  }

  lemma ConsumersAreNoLui(code: seq<Instruction>, k: nat)
    requires k < |code| && PairAt(code, k).Some?
    ensures !code[k].opcode.Lui?
  {
    hide PairedAddress;
  }

  /** The name and addend stand for the target. */
  ghost predicate StandsFor(t: Setting, n: NamedTarget, target: Vram)
    requires t.Valid()
  {
    var base := ResolveSymbolOrSynthesizedAddress(n.name, t.symbols);
    base.Some? && (base.value + n.addend) % TWO_32 == target
  }

  lemma EntryStandsFor(t: Setting, e: Entry, target: Vram)
    requires t.Valid() && t.symbols.Some? && e in t.symbols.value.registry
    ensures StandsFor(t, NamedTarget(e.name, Signed32(target - e.address)), target)
    ensures e.address == target ==> StandsFor(t, NamedTarget(e.name, 0), target)
  {
    hide SpelledAddress, SymbolTable.Valid;
    FoundIsTheEntry(t.symbols.value, e);
  }

  /** No entry has the name. */
  ghost predicate NameIsFree(table: SymbolTable, name: string) {
    forall e :: e in table.registry ==> e.name != name
  }

  lemma FreeNamesAreNotFound(table: SymbolTable, name: string)
    requires table.Valid()
    ensures NameIsFree(table, name) <==> table.FindByName(name).None?
  {
    hide SymbolTable.Valid;
  }

  lemma SynthesizedStandsFor(t: Setting, target: Vram)
    requires t.Valid() && t.symbols.Some? && t.symbols.value.FindByAddress(target).None?
    ensures StandsFor(t, NamedTarget(SynthesizedName(target, Data), 0), target) <==>
            NameIsFree(t.symbols.value, SynthesizedName(target, Data))
  {
    hide SpelledAddress, SynthesizedName, SymbolTable.Valid, SymbolTable.FindByName, SymbolTable.FindByAddress, NameIsFree;
    SynthesizedSpells(target, Data);
    FreeNamesAreNotFound(t.symbols.value, SynthesizedName(target, Data));
  }

  /** The analysis can name the target by a registered symbol, or by a name no entry has taken. */
  ghost predicate Nameable(t: Setting, target: Vram)
    requires t.Valid()
  {
    t.symbols.Some? ==>
      || t.symbols.value.FindByAddress(target).Some?
      || Surrounding(t.symbols.value, target).Some?
      || NameIsFree(t.symbols.value, SynthesizedName(target, Data))
  }

  /** Resolving the recorded name and adding the addend gives the target back exactly when the target is
      nameable. */
  lemma NamedTargetIsTarget(t: Setting, target: Vram)
    requires t.Valid()
    ensures StandsFor(t, t.ResolveSymbol(target), target) <==> Nameable(t, target)
  {
    if t.symbols.None? {
      hide SynthesizedName, SpelledAddress;
      NamingWithoutRegistry(target, Data);
    } else if t.symbols.value.FindByAddress(target).Some? {
      hide StandsFor, SynthesizedName, Contains, Signed32, NameIsFree, SymbolTable.Valid;
      EntryStandsFor(t, t.symbols.value.FindByAddress(target).value, target);
    } else {
      UnregisteredTarget(t, target);
      hide StandsFor, Nameable;
    }
  }

  /** The first sized symbol around a target. */
  function Surrounding(table: SymbolTable, target: Vram): (r: Option<nat>)
    requires table.Valid()
    ensures r.Some? ==> r.value < |table.registry|
  {
    FirstContaining(table.registry, table.sortedEntries, target)
  }

  lemma ResolvedUnregistered(t: Setting, target: Vram)
    requires t.Valid() && t.symbols.Some? && t.symbols.value.FindByAddress(target).None?
    ensures var table := t.symbols.value;
      var k := Surrounding(table, target);
      t.ResolveSymbol(target) ==
        if k.Some? then NamedTarget(table.registry[k.value].name, Signed32(target - table.registry[k.value].address))
        else NamedTarget(SynthesizedName(target, Data), 0)
  {
    hide SynthesizedName, Contains, Signed32;
  }

  lemma UnregisteredTarget(t: Setting, target: Vram)
    requires t.Valid() && t.symbols.Some? && t.symbols.value.FindByAddress(target).None?
    ensures StandsFor(t, t.ResolveSymbol(target), target) <==> Nameable(t, target)
  {
    hide StandsFor, SynthesizedName, Contains, Signed32, NameIsFree, SymbolTable.FindByAddress, Setting.ResolveSymbol,
      Surrounding, SymbolTable.Valid, Nameable;
    ResolvedUnregistered(t, target);
    var table := t.symbols.value;
    var k := Surrounding(table, target);
    UnregisteredNameable(t, target);
    if k.Some? {
      EntryStandsFor(t, table.registry[k.value], target);
    } else {
      SynthesizedStandsFor(t, target);
    }
  }

  lemma UnregisteredNameable(t: Setting, target: Vram)
    requires t.Valid() && t.symbols.Some? && t.symbols.value.FindByAddress(target).None?
    ensures Nameable(t, target) <==>
            Surrounding(t.symbols.value, target).Some? || NameIsFree(t.symbols.value, SynthesizedName(target, Data))
  {
    hide NameIsFree, SynthesizedName;
  }

  lemma IndexInRange(
    log: seq<InstructionRelocation>, relocations: seq<InstructionRelocation>, index: map<int, nat>, key: int)
    requires Records(log, relocations, index) && key in index
    ensures index[key] < |relocations|
  {
  }

  /** The first entry, in the given order, whose range holds the target. */
  function FirstContaining(entries: seq<Entry>, order: seq<nat>, target: int): (r: Option<nat>)
    requires forall i :: 0 <= i < |order| ==> order[i] < |entries|
    ensures r.Some? ==> r.value < |entries| && Contains(entries[r.value], target)
    ensures r.None? ==> forall i :: 0 <= i < |order| ==> !Contains(entries[order[i]], target)
  {
    if order == [] then None
    else if Contains(entries[order[0]], target) then Some(order[0])
    else FirstContaining(entries, order[1..], target)
  }
}
